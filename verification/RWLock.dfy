/**
  The lock object itself, with its fields updated in place and its two loops. Every method
  is proved to do what the closed form in RWLockModel says.
  */
module RWLockObject {
  import opened Options
  import opened RWLockModel
  import opened RWLockQueue

  datatype Statistics = Statistics(
    locked: string, readers: set<Task>, writer: Option<Task>, readersWaiting: int, writersWaiting: int)

  class RWLock {
    var writer: Option<Task>
    var readers: set<Task>
    var waiting: seq<Waiter>
    var waitingWritersCount: int
    var readBiased: bool
    // Every reschedule call made so far, in order.
    var rescheduled: seq<Task>

    function State(): Lock
      reads this
    {
      Lock(writer, readers, waiting, waitingWritersCount, readBiased)
    }

    constructor (readBiased: bool)
      ensures State() == Initial(readBiased) && rescheduled == []
      ensures writer.None? && readers == {} && waiting == [] && this.readBiased == readBiased
    {
      this.writer, this.readers, this.waiting := None, {}, [];
      this.waitingWritersCount, this.readBiased, this.rescheduled := 0, readBiased, [];
    }

    method AcquireNowait(task: Task, forWrite: bool) returns (outcome: Outcome)
      modifies this
      ensures State() == TryAcquire(old(State()), task, forWrite).lock
      ensures outcome == TryAcquire(old(State()), task, forWrite).outcome
      ensures rescheduled == old(rescheduled)
    {
      if writer == Some(task) || task in readers {
        return AlreadyHeld;
      }
      if writer != None {
        return WouldBlock;
      }
      if forWrite && readers == {} {
        writer := Some(task);
      } else if !forWrite && (readBiased || waitingWritersCount == 0) {
        readers := readers + {task};
      } else {
        return WouldBlock;
      }
      return Returned;
    }

    /** `Blocked` means that the task now sleeps until it is rescheduled or aborted. */
    method Acquire(task: Task, forWrite: bool) returns (outcome: Outcome)
      requires !Queued(waiting, task)
      modifies this
      ensures State() == AcquireOrWait(old(State()), task, forWrite).lock
      ensures outcome == AcquireOrWait(old(State()), task, forWrite).outcome
      ensures rescheduled == old(rescheduled)
    {
      outcome := AcquireNowait(task, forWrite);
      if outcome == WouldBlock {
        waiting := waiting + [Waiter(task, forWrite)];
        waitingWritersCount := waitingWritersCount + if forWrite then 1 else 0;
        outcome := Blocked;
      }
    }

    /** The abort callback that `Acquire(task, forWrite)` left behind. */
    method AbortWaiter(task: Task, forWrite: bool)
      requires Distinct(waiting) && Waiter(task, forWrite) in waiting
      modifies this
      ensures Queued(old(waiting), task)
      ensures State() == Cancel(old(State()), task).lock
      ensures rescheduled == old(rescheduled)
    {
      ghost var i :| 0 <= i < |waiting| && waiting[i] == Waiter(task, forWrite);
      PositionUnique(waiting, task, i);
      waiting := Without(waiting, task);
      waitingWritersCount := waitingWritersCount - if forWrite then 1 else 0;
    }

    /** One round of the loop below. */
    method WakeOne(w: Waiter)
      modifies this
      ensures State() == WakeIf(old(State()), w)
      ensures rescheduled == old(rescheduled) + if w.forWrite then [] else [w.task]
    {
      if !w.forWrite {
        waiting := Without(waiting, w.task);
        readers := readers + {w.task};
        rescheduled := rescheduled + [w.task];
      }
    }

    method WakeAll()
      requires Distinct(waiting)
      modifies this
      ensures State() == WakeAllReaders(old(State())).lock
      ensures rescheduled == old(rescheduled) + WakeAllReaders(old(State())).rescheduled
    {
      var items := waiting;
      ghost var s, before := State(), rescheduled;
      WokenEnds(s);
      for i := 0 to |items|
        invariant State() == Woken(s, i)
        invariant rescheduled == before + WokenTasks(s, i)
      {
        WakeStep(s, i, before);
        WakeOne(items[i]);
      }
    }

    method Release(task: Task) returns (outcome: Outcome)
      requires Distinct(waiting)
      modifies this
      ensures State() == ReleaseBy(old(State()), task).lock
      ensures outcome == ReleaseBy(old(State()), task).outcome
      ensures rescheduled == old(rescheduled) + ReleaseBy(old(State()), task).rescheduled
    {
      if writer == Some(task) {
        writer := None;
      } else if task in readers {
        readers := readers - {task};
        if readers != {} {
          return Returned;
        }
      } else {
        return NotOwner;
      }
      HandOffLoop();
      return Returned;
    }

    /** Enters `w` into the dictionary, which puts it last, and moves it to the front. */
    method PutBack(w: Waiter)
      modifies `waiting
      ensures waiting == [w] + old(waiting)
    {
      waiting := waiting + [w];
      waiting := [waiting[|waiting| - 1]] + waiting[..|waiting| - 1];
    }

    /** The loop at the end of `release`. */
    method HandOffLoop()
      requires Distinct(waiting)
      modifies this
      ensures LoopDone(old(State()), old(rescheduled), State(), rescheduled)
    {
      ghost var s, before, k := State(), rescheduled, 0;
      PrefixZero(s);
      while writer.None? && waiting != []
        invariant 0 <= k <= |s.waiting| && State() == PrefixGranted(s, k)
        invariant forall i :: 0 <= i < k ==> !s.waiting[i].forWrite
        invariant k > 0 ==> !readBiased && s.writer.None? && readers != {}
        invariant rescheduled == before + TasksOf(s.waiting[..k])
        decreases |waiting|
      {
        var next := waiting[0];
        PrefixStep(s, k, before);
        waiting := waiting[1..];
        if !next.forWrite {
          readers := readers + {next.task};
          rescheduled := rescheduled + [next.task];
          if readBiased {
            HandOffToReaders(s, before);
            WakeAll();
            return;
          }
          k := k + 1;
        } else if readers == {} {
          HandOffToWriter(s, before);
          writer := Some(next.task);
          waitingWritersCount := waitingWritersCount - 1;
          rescheduled := rescheduled + [next.task];
          return;
        } else {
          PutBack(next);
          assert waiting == s.waiting[k..];
          break;
        }
      }
      HandOffToPrefix(s, k, before);
    }

    method SetReadBiased(newValue: bool)
      requires Distinct(waiting)
      modifies this
      ensures State() == SetBias(old(State()), newValue).lock
      ensures rescheduled == old(rescheduled) + SetBias(old(State()), newValue).rescheduled
    {
      if newValue && !readBiased {
        WakeAll();
      }
      readBiased := newValue;
    }

    method GetStatistics() returns (r: Statistics)
      requires Consistent(State())
      ensures r.readers == readers && r.writer == writer
      ensures r.writersWaiting == CountWriters(waiting)
      ensures r.readersWaiting == |ReaderTasks(waiting)|
      ensures r.locked != "" <==> State().Held()
      ensures r.locked == "read" <==> readers != {}
      ensures r.locked == "write" <==> readers == {} && writer.Some?
      ensures waiting != [] ==> r.locked != ""
    {
      FilterMembers(waiting);
      var locked := if readers != {} then "read" else if writer.Some? then "write" else "";
      r := Statistics(locked, readers, writer, |waiting| - waitingWritersCount, waitingWritersCount);
    }
  }

  /** What the hand-off loop does to the lock `s` and to the reschedule calls made before. */
  ghost predicate LoopDone(s: Lock, before: seq<Task>, s': Lock, after: seq<Task>) {
    var e := if s.writer.None? then HandOff(s) else Effect(s, [], Returned);
    s' == e.lock && after == before + e.rescheduled
  }

  lemma TasksSnoc(q: seq<Waiter>, k: nat)
    requires k < |q|
    ensures TasksOf(q[..k + 1]) == TasksOf(q[..k]) + [q[k].task]
    ensures ToSet(TasksOf(q[..k + 1])) == ToSet(TasksOf(q[..k])) + {q[k].task}
  {
    assert TasksOf(q[..k + 1]) == TasksOf(q[..k]) + [q[k].task];
  }

  /** Read-biased: the reader at the head, and with it all other readers. */
  lemma HandOffToReaders(s: Lock, before: seq<Task>)
    requires s.writer.None? && s.readBiased && s.waiting != [] && !s.waiting[0].forWrite
    ensures var h := s.waiting[0].task;
      var e := WakeAllReaders(s.(readers := s.readers + {h}, waiting := s.waiting[1..]));
      LoopDone(s, before, e.lock, (before + [h]) + e.rescheduled)
  {
    var q, h := s.waiting, s.waiting[0].task;
    assert ReaderTasks(q) == [h] + ReaderTasks(q[1..]);
    assert ToSet(ReaderTasks(q)) == {h} + ToSet(ReaderTasks(q[1..]));
    assert s.readers + ToSet(ReaderTasks(q)) == s.readers + {h} + ToSet(ReaderTasks(q[1..]));
  }

  /** The writer at the head of the queue, if nobody holds the lock. */
  lemma HandOffToWriter(s: Lock, before: seq<Task>)
    requires s.writer.None? && s.readers == {} && s.waiting != [] && s.waiting[0].forWrite
    ensures var w := s.waiting[0].task;
      LoopDone(s, before, s.(writer := Some(w), waiting := s.waiting[1..], waitingWriters := s.waitingWriters - 1),
               before + [w])
  {
  }

  lemma {:induction false} WithoutSkips(a: seq<Waiter>, b: seq<Waiter>, t: Task)
    requires forall w :: w in a ==> w.task != t
    ensures Without(a + b, t) == a + Without(b, t)
  {
    if a == [] {
      assert a + b == b && a + Without(b, t) == Without(b, t);
    } else {
      assert (a + b)[1..] == a[1..] + b;
      WithoutSkips(a[1..], b, t);
      assert [a[0]] + (a[1..] + Without(b, t)) == a + Without(b, t);
    }
  }

  lemma DeleteReader(items: seq<Waiter>, i: nat)
    requires Distinct(items) && i < |items| && !items[i].forWrite
    ensures var ws := WritersOf(items[..i]);
      Without(ws + items[i..], items[i].task) == ws + items[i + 1..]
  {
    var ws := WritersOf(items[..i]);
    FilterMembers(items[..i]);
    assert forall w :: w in items[..i] ==> w.task != items[i].task;
    WithoutSkips(ws, items[i..], items[i].task);
    assert items[i..][1..] == items[i + 1..];
  }

  /** What the wake-all loop does with one entry. */
  function WakeIf(s: Lock, w: Waiter): Lock {
    if w.forWrite then s else s.(readers := s.readers + {w.task}, waiting := Without(s.waiting, w.task))
  }

  /** The lock in the middle of the wake-all loop, when `i` entries have been looked at. */
  ghost function Woken(s: Lock, i: nat): Lock
    requires i <= |s.waiting|
  {
    var seen := s.waiting[..i];
    s.(readers := s.readers + ToSet(ReaderTasks(seen)), waiting := WritersOf(seen) + s.waiting[i..])
  }

  ghost function WokenTasks(s: Lock, i: nat): seq<Task>
    requires i <= |s.waiting|
  {
    ReaderTasks(s.waiting[..i])
  }

  lemma WokenEnds(s: Lock)
    ensures Woken(s, 0) == s
    ensures Woken(s, |s.waiting|) == WakeAllReaders(s).lock
    ensures WokenTasks(s, 0) == []
    ensures WokenTasks(s, |s.waiting|) == WakeAllReaders(s).rescheduled
  {
    var q := s.waiting;
    assert q[..|q|] == q && q[|q|..] == [];
    assert WritersOf(q) + q[|q|..] == WritersOf(q);
  }

  lemma SeenQueue(q: seq<Waiter>, i: nat)
    requires Distinct(q) && i < |q|
    ensures var rest := WritersOf(q[..i]) + q[i..];
      WritersOf(q[..i + 1]) + q[i + 1..] == if q[i].forWrite then rest else Without(rest, q[i].task)
  {
    var ws, tail := WritersOf(q[..i]), q[i + 1..];
    assert q[..i + 1] == q[..i] + [q[i]];
    FilterSnoc(q[..i], q[i]);
    if q[i].forWrite {
      assert q[i..] == [q[i]] + tail;
      assert (ws + [q[i]]) + tail == ws + ([q[i]] + tail);
    } else {
      assert WritersOf(q[..i + 1]) == ws;
      DeleteReader(q, i);
    }
  }

  lemma SeenReaders(q: seq<Waiter>, i: nat)
    requires i < |q|
    ensures ReaderTasks(q[..i + 1]) == ReaderTasks(q[..i]) + if q[i].forWrite then [] else [q[i].task]
    ensures ToSet(ReaderTasks(q[..i + 1])) ==
      ToSet(ReaderTasks(q[..i])) + if q[i].forWrite then {} else {q[i].task}
  {
    assert q[..i + 1] == q[..i] + [q[i]];
    FilterSnoc(q[..i], q[i]);
  }

  /** One round of the wake-all loop, on the lock and on the reschedule calls. */
  lemma WakeStep(s: Lock, i: nat, before: seq<Task>)
    requires Distinct(s.waiting) && i < |s.waiting|
    ensures Woken(s, i + 1) == WakeIf(Woken(s, i), s.waiting[i])
    ensures before + WokenTasks(s, i + 1)
         == (before + WokenTasks(s, i)) + if s.waiting[i].forWrite then [] else [s.waiting[i].task]
  {
    SeenQueue(s.waiting, i);
    SeenReaders(s.waiting, i);
  }

  /** The lock after the first `k` waiting tasks, all readers, have been let in. */
  ghost function PrefixGranted(s: Lock, k: nat): Lock
    requires k <= |s.waiting|
  {
    s.(readers := s.readers + ToSet(TasksOf(s.waiting[..k])), waiting := s.waiting[k..])
  }

  /** One round of the loop for a reader. */
  lemma PrefixStep(s: Lock, k: nat, before: seq<Task>)
    requires k < |s.waiting|
    ensures var l, t := PrefixGranted(s, k), s.waiting[k].task;
      && l.waiting[0] == s.waiting[k]
      && PrefixGranted(s, k + 1) == l.(readers := l.readers + {t}, waiting := l.waiting[1..])
      && before + TasksOf(s.waiting[..k + 1]) == (before + TasksOf(s.waiting[..k])) + [t]
  {
    TasksSnoc(s.waiting, k);
  }

  lemma PrefixZero(s: Lock)
    ensures PrefixGranted(s, 0) == s
  {
  }

  /** The loop stops exactly at the end of the maximal reader prefix. */
  lemma HandOffToPrefix(s: Lock, k: nat, before: seq<Task>)
    requires k <= |s.waiting| && (forall i :: 0 <= i < k ==> !s.waiting[i].forWrite)
    requires s.writer.Some? ==> k == 0
    requires s.writer.None? ==> k == |s.waiting| || s.waiting[k].forWrite
    requires k > 0 ==> !s.readBiased
    requires s.writer.None? && k == 0 && s.waiting != [] ==> s.readers != {}
    ensures LoopDone(s, before, PrefixGranted(s, k), before + TasksOf(s.waiting[..k]))
  {
    PrefixZero(s);
  }
}
