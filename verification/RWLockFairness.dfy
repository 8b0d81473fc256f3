/** What a cancellation does to the queue, and how many hand-offs a waiter can lose. */
module RWLockFairness {
  import opened Options
  import opened RWLockModel
  import opened RWLockQueue
  import opened RWLockSafety

  // ---- The head of the queue ----

  /** With no writer holding, a non-empty queue starts with a writer. */
  predicate HeadIsWriter(s: Lock) {
    s.writer.None? && s.waiting != [] ==> s.waiting[0].forWrite
  }

  /** Cancelling the writer at the head strands the reader directly behind it. */
  predicate Strands(s: Lock, step: Step) {
    && step.CancelWaiter?
    && s.writer.None?
    && |s.waiting| > 1
    && s.waiting[0] == Waiter(step.task, true)
    && !s.waiting[1].forWrite
  }

  lemma CancelKeepsHeadIff(s: Lock, t: Task)
    requires Inv(s) && HeadIsWriter(s) && Queued(s.waiting, t)
    ensures HeadIsWriter(Cancel(s, t).lock) <==> !Strands(s, CancelWaiter(t))
  {
    var q := s.waiting;
    if q[0].task == t {
      assert Without(q, t) == q[1..];
    } else {
      assert Without(q, t) == [q[0]] + Without(q[1..], t);
    }
  }

  lemma WakeAllLeavesWriters(s: Lock)
    ensures HeadIsWriter(WakeAllReaders(s).lock)
  {
    FilterMembers(s.waiting);
    var q := WritersOf(s.waiting);
    assert q != [] ==> q[0] in q;
  }

  lemma ReleaseKeepsHead(s: Lock, t: Task)
    requires Inv(s) && HeadIsWriter(s)
    ensures HeadIsWriter(ReleaseBy(s, t).lock)
  {
    WakeAllLeavesWriters(s.(writer := None));
  }

  lemma SwitchKeepsHead(s: Lock, newValue: bool)
    requires Inv(s) && HeadIsWriter(s)
    ensures HeadIsWriter(SetBias(s, newValue).lock)
  {
    WakeAllLeavesWriters(s);
  }

  lemma AcquireKeepsHead(s: Lock, t: Task, forWrite: bool)
    requires Inv(s) && HeadIsWriter(s) && !Queued(s.waiting, t)
    ensures HeadIsWriter(TryAcquire(s, t, forWrite).lock)
    ensures HeadIsWriter(AcquireOrWait(s, t, forWrite).lock)
  {
    CountZero(s.waiting);
  }

  /** In either mode exactly the stranding cancellations bring a reader to the head under readers. */
  lemma StepKeepsHeadIff(s: Lock, step: Step)
    requires Inv(s) && HeadIsWriter(s) && Enabled(s, step)
    ensures HeadIsWriter(Next(s, step).lock) <==> !Strands(s, step)
  {
    match step
    case AcquireNowait(t, w) => AcquireKeepsHead(s, t, w);
    case Acquire(t, w) => AcquireKeepsHead(s, t, w);
    case Release(t) => ReleaseKeepsHead(s, t);
    case CancelWaiter(t) => CancelKeepsHeadIff(s, t);
    case SetReadBiased(v) => SwitchKeepsHead(s, v);
  }

  /** Writers never overtake anybody, in any mode and any reachable state. */
  lemma WriterNeverOvertakes(s: Lock, step: Step, t: Task)
    requires Consistent(s) && Enabled(s, step)
    requires Next(s, step).lock.writer == Some(t) && s.writer != Some(t)
    ensures s.waiting == [] || s.waiting[0] == Waiter(t, true)
  {
  }

  const STRANDING := Lock(None, {1}, [Waiter(2, true), Waiter(3, false)], 1, false)
  const PASSED := Lock(None, {1, 4}, [Waiter(3, false)], 0, false)

  lemma StrandedReaderIsPassed()
    ensures var steps := [CancelWaiter(2)] + ([Acquire(4, false)] + []);
      && Legal(STRANDING, steps) && Strands(STRANDING, steps[0])
      && Final(STRANDING, steps) == PASSED
  {
    var s := Lock(None, {1}, [Waiter(3, false)], 0, false);
    assert STRANDING.waiting[0].task == 2;
    RunBegins(s, Acquire(4, false), PASSED, [], PASSED);
    RunBegins(STRANDING, CancelWaiter(2), s, [Acquire(4, false)] + [], PASSED);
  }

  /**
    The stranding cancellation is reachable and its effect is the one the class
    documentation excludes: task 4 arrives after task 3 and gets the lock first.
    */
  lemma CancelledWriterStrandsReader()
    ensures var steps := [Acquire(1, false)] + ([Acquire(2, true)] + ([Acquire(3, false)] +
                           ([CancelWaiter(2)] + ([Acquire(4, false)] + []))));
      && Legal(Initial(false), steps)
      && Final(Initial(false), steps) == Lock(None, {1, 4}, [Waiter(3, false)], 0, false)
  {
    var s1 := Lock(None, {1}, [], 0, false);
    var s2 := Lock(None, {1}, [Waiter(2, true)], 1, false);
    var rest := [CancelWaiter(2)] + ([Acquire(4, false)] + []);
    StrandedReaderIsPassed();
    RunBegins(s2, Acquire(3, false), STRANDING, rest, PASSED);
    RunBegins(s1, Acquire(2, true), s2, [Acquire(3, false)] + rest, PASSED);
    RunBegins(Initial(false), Acquire(1, false), s1, [Acquire(2, true)] + ([Acquire(3, false)] + rest), PASSED);
  }

  // ---- Bounded bypass ----

  lemma EnqueueKeepsPlace(s: Lock, u: Task, forWrite: bool, t: Task)
    requires Consistent(s) && !Queued(s.waiting, u) && Queued(s.waiting, t)
    ensures var q := AcquireOrWait(s, u, forWrite).lock.waiting;
      Queued(q, t) && Position(q, t) == Position(s.waiting, t)
  {
    var p, q := Position(s.waiting, t), AcquireOrWait(s, u, forWrite).lock.waiting;
    AcquireConsistent(s, u, forWrite);
    assert q[p] == s.waiting[p];
    PositionUnique(q, t, p);
  }

  lemma CancelMovesUp(s: Lock, u: Task, t: Task)
    requires Consistent(s) && Queued(s.waiting, u) && Queued(s.waiting, t) && u != t
    ensures var q := Cancel(s, u).lock.waiting;
      Queued(q, t) && Position(q, t) <= Position(s.waiting, t)
  {
    WithoutSplits(s.waiting, u);
    CancelConsistent(s, u);
    var c, p, q := Position(s.waiting, u), Position(s.waiting, t), Cancel(s, u).lock.waiting;
    var p' := if p < c then p else p - 1;
    assert q[p'] == s.waiting[p];
    PositionUnique(q, t, p');
  }

  /** One step: a waiter is granted, or it keeps its place and gains one at every hand-off. */
  lemma StepMovesUp(s: Lock, step: Step, t: Task)
    requires Inv(s) && Enabled(s, step)
    requires Queued(s.waiting, t) && step != CancelWaiter(t)
    ensures var e := Next(s, step);
      t in e.rescheduled ||
      (Queued(e.lock.waiting, t)
        && Position(e.lock.waiting, t) + (if IsHandOff(s, step) then 1 else 0) <= Position(s.waiting, t))
  {
    match step
    case AcquireNowait(_, _) =>
    case Acquire(u, w) => EnqueueKeepsPlace(s, u, w, t);
    case CancelWaiter(u) => CancelMovesUp(s, u, t);
    case SetReadBiased(v) =>
      if v && !s.readBiased { WakeAllMovesUp(s, t); }
    case Release(u) =>
      if IsHandOff(s, step) {
        HandOffMovesUp(if s.writer == Some(u) then s.(writer := None) else s.(readers := {}), t);
      }
  }

  lemma WakeAllMovesUp(s: Lock, t: Task)
    requires Distinct(s.waiting) && Queued(s.waiting, t)
    ensures var e := WakeAllReaders(s);
      t in e.rescheduled ||
      (Queued(e.lock.waiting, t)
        && Position(e.lock.waiting, t) + (if !s.waiting[0].forWrite then 1 else 0) <= Position(s.waiting, t))
  {
    FilterMembers(s.waiting);
    var w := s.waiting[Position(s.waiting, t)];
    assert w == Waiter(t, w.forWrite) && w in s.waiting;
    if w.forWrite {
      WriterMovesUp(s.waiting, t);
    }
  }

  lemma HandOffMovesUp(s: Lock, t: Task)
    requires s.writer.None? && s.readers == {} && WellQueued(s) && Queued(s.waiting, t)
    ensures var e := HandOff(s);
      t in e.rescheduled ||
      (Queued(e.lock.waiting, t) && Position(e.lock.waiting, t) + 1 <= Position(s.waiting, t))
  {
    var q, p := s.waiting, Position(s.waiting, t);
    if q[0].forWrite {
      if p > 0 {
        assert q[1..][p - 1] == q[p];
        PositionUnique(q[1..], t, p - 1);
      }
    } else if s.readBiased {
      WakeAllMovesUp(s, t);
    } else {
      var k := ReaderPrefix(q);
      if p < k {
        assert TasksOf(q[..k])[p] == t;
      } else {
        assert q[k..][p - k] == q[p];
        PositionUnique(q[k..], t, p - k);
      }
    }
  }

  /** Over a whole run, whatever else arrives or is cancelled. */
  lemma {:induction false} RunMovesUp(s: Lock, steps: seq<Step>, t: Task)
    requires Inv(s) && Legal(s, steps) && NoUnsafeSwitch(s, steps)
    requires Queued(s.waiting, t) && CancelWaiter(t) !in steps
    ensures GrantedDuring(s, steps, t) ||
      (Queued(Final(s, steps).waiting, t)
        && Position(Final(s, steps).waiting, t) + HandOffs(s, steps) <= Position(s.waiting, t))
    decreases steps
  {
    if steps != [] {
      StepMovesUp(s, steps[0], t);
      StepKeepsInvIff(s, steps[0]);
      if t !in Next(s, steps[0]).rescheduled {
        RunMovesUp(Next(s, steps[0]).lock, steps[1..], t);
      }
    }
  }

  /** Bounded bypass: a waiter at position p has the lock after at most p + 1 hand-offs. */
  lemma BoundedBypass(s: Lock, steps: seq<Step>, t: Task)
    requires Inv(s) && Legal(s, steps) && NoUnsafeSwitch(s, steps)
    requires Queued(s.waiting, t) && CancelWaiter(t) !in steps
    requires HandOffs(s, steps) >= Position(s.waiting, t) + 1
    ensures GrantedDuring(s, steps, t)
  {
    RunMovesUp(s, steps, t);
  }
}
