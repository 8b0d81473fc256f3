/**
  Who is served in which order: everybody, exactly while nobody overtakes; the readers among
  themselves, exactly while no reader overtakes a reader; the writers in every run.
  */
module RWLockOrder {
  import opened Options
  import opened RWLockModel
  import opened RWLockQueue
  import opened RWLockSafety
  import opened RWLockEffects
  import opened RWLockHistory
  import opened RWLockFairness

  // ---- Splitting the queue ----

  function WriterTasks(q: seq<Waiter>): seq<Task> {
    TasksOf(WritersOf(q))
  }

  lemma {:induction false} AllReaders(q: seq<Waiter>)
    requires forall i :: 0 <= i < |q| ==> !q[i].forWrite
    ensures WritersOf(q) == [] && ReaderTasks(q) == TasksOf(q)
  {
    if q != [] {
      AllReaders(q[1..]);
      assert TasksOf(q) == [q[0].task] + TasksOf(q[1..]);
    }
  }

  lemma {:induction false} OnlyWriters(q: seq<Waiter>)
    ensures WritersOf(WritersOf(q)) == WritersOf(q) && ReaderTasks(WritersOf(q)) == []
  {
    if q != [] {
      OnlyWriters(q[1..]);
      if q[0].forWrite {
        assert WritersOf(q)[1..] == WritersOf(q[1..]);
      }
    }
  }

  lemma NotQueued(q: seq<Waiter>, t: Task)
    requires !Queued(q, t)
    ensures t !in TasksOf(q) && t !in ReaderTasks(q) && t !in WriterTasks(q)
  {
    FilterMembers(q);
    QueuedIn(q, t);
    forall w | w in WritersOf(q) ensures w.task != t {
      assert w == Waiter(w.task, true);
    }
  }

  // ---- What a step does to the queue ----

  /** All that the orders depend on: the queue falls into those served now and those who go on waiting. */
  ghost predicate Serves(q: seq<Waiter>, served: seq<Task>, writer: bool, q': seq<Waiter>) {
    && TasksOf(q) == served + TasksOf(q')
    && WriterTasks(q) == (if writer then served else []) + WriterTasks(q')
    && ReaderTasks(q) == (if writer then [] else served) + ReaderTasks(q')
  }

  /** The same after all readers have been woken, when only the order within each kind is kept. */
  ghost predicate WakesReaders(q: seq<Waiter>, served: seq<Task>, q': seq<Waiter>) {
    q' == WritersOf(q) && served == ReaderTasks(q)
  }

  lemma PrefixServes(q: seq<Waiter>, k: nat)
    requires k <= |q| && forall i :: 0 <= i < k ==> !q[i].forWrite
    ensures Serves(q, TasksOf(q[..k]), false, q[k..])
  {
    assert q == q[..k] + q[k..];
    FilterConcat(q[..k], q[k..]);
    AllReaders(q[..k]);
    assert TasksOf(q) == TasksOf(q[..k]) + TasksOf(q[k..]);
  }

  lemma HeadServes(q: seq<Waiter>)
    requires q != [] && q[0].forWrite
    ensures Serves(q, [q[0].task], true, q[1..])
  {
    assert TasksOf(q) == [q[0].task] + TasksOf(q[1..]);
    assert WriterTasks(q) == [q[0].task] + WriterTasks(q[1..]);
  }

  lemma NobodyServed(q: seq<Waiter>)
    ensures Serves(q, [], false, q)
  {
  }

  /** Some writer waits in front of a reader. */
  predicate ReaderBehindWriter(q: seq<Waiter>) {
    exists i, j :: 0 <= i < j < |q| && q[i].forWrite && !q[j].forWrite
  }

  /** The step wakes all waiting readers. */
  predicate WakesAll(s: Lock, step: Step) {
    || (step == SetReadBiased(true) && !s.readBiased)
    || (IsHandOff(s, step) && s.readBiased && s.waiting != [] && !s.waiting[0].forWrite)
  }

  lemma HandOffServes(s: Lock)
    requires s.writer.None? && !(s.readBiased && s.waiting != [] && !s.waiting[0].forWrite)
    ensures Serves(s.waiting, HandOff(s).rescheduled, HandOff(s).lock.writer.Some?, HandOff(s).lock.waiting)
  {
    var q := s.waiting;
    if q == [] || (q[0].forWrite && s.readers != {}) {
      NobodyServed(q);
    } else if q[0].forWrite {
      HeadServes(q);
    } else {
      PrefixServes(q, ReaderPrefix(q));
    }
  }

  lemma ReleaseServes(s: Lock, t: Task)
    requires Consistent(s) && Enabled(s, Release(t)) && !WakesAll(s, Release(t))
    ensures Serves(s.waiting, Granted(s, Release(t)), MakesWriter(s, Release(t)), Next(s, Release(t)).lock.waiting)
  {
    if IsHandOff(s, Release(t)) {
      var s1 := if s.writer == Some(t) then s.(writer := None) else s.(readers := {});
      assert ReleaseBy(s, t) == HandOff(s1);
      HandOffServes(s1);
      HandOverToOther(s, t);
    } else {
      assert ReleaseBy(s, t).rescheduled == [] && ReleaseBy(s, t).lock.waiting == s.waiting;
      NobodyServed(s.waiting);
    }
  }

  /** The next writer is another task than the one that releases, which does not wait. */
  lemma HandOverToOther(s: Lock, t: Task)
    requires Consistent(s) && Enabled(s, Release(t)) && IsHandOff(s, Release(t))
    ensures ReleaseBy(s, t).lock.writer.Some? <==> MakesWriter(s, Release(t))
  {
    assert s.waiting != [] ==> s.waiting[0].task != t;
  }

  lemma WakeAllServes(s: Lock, step: Step)
    requires Enabled(s, step) && WakesAll(s, step)
    ensures WakesReaders(s.waiting, Granted(s, step), Next(s, step).lock.waiting)
    ensures !MakesWriter(s, step)
  {
  }

  /** An arriving task is served at once, queued last, or refused; a writer only if nobody waits. */
  ghost predicate ArrivalEffect(s: Lock, step: Step)
    requires Enabled(s, step) && Arrives(step)
  {
    var q, q', served := s.waiting, Next(s, step).lock.waiting, Granted(s, step);
    || (served == [step.task] && q' == q && MakesWriter(s, step) == step.forWrite && (step.forWrite ==> q == []))
    || (served == [] && !MakesWriter(s, step) && q' in {q, q + [Waiter(step.task, step.forWrite)]})
  }

  lemma ArrivalHasEffect(s: Lock, step: Step)
    requires Consistent(s) && Enabled(s, step) && Arrives(step)
    ensures ArrivalEffect(s, step)
  {
  }

  // ---- The three orders ----

  /** All grants so far, and everybody who waits. */
  ghost predicate InOrder(h: History) {
    Orderly(h.grants, TasksOf(h.lock.waiting), h.ticketOf, h.clock)
  }

  ghost predicate ReadersInOrder(h: History) {
    Orderly(h.admitted, ReaderTasks(h.lock.waiting), h.ticketOf, h.clock)
  }

  ghost predicate WritersInOrder(h: History) {
    Orderly(h.served, WriterTasks(h.lock.waiting), h.ticketOf, h.clock)
  }

  lemma ArrivalOrderly(log: seq<nat>, ts: seq<Task>, ts': seq<Task>, m: map<Task, nat>, t: Task, clock: nat,
                       served: bool)
    requires Orderly(log, ts, m, clock) && t !in ts
    requires ts' == ts || (!served && ts' == ts + [t])
    ensures Orderly(log + (if served then [clock] else []), ts', m[t := clock], clock + 1) <==>
            !(served && ts != [])
  {
    if served {
      NewcomerServedIff(log, ts, m, t, clock);
    } else {
      NewcomerRefused(log, ts, m, t, clock);
      NewcomerQueued(log, ts, m, t, clock);
      assert log + [] == log;
    }
  }

  /** Somebody who arrives is served although others wait: a reader, while no writer is counted or in biased mode. */
  predicate PassesQueue(s: Lock, step: Step) {
    && Arrives(step)
    && !step.forWrite
    && !s.Holds(step.task)
    && s.writer.None?
    && (s.readBiased || s.waitingWriters == 0)
    && s.waiting != []
  }

  predicate Overtakes(s: Lock, step: Step) {
    PassesQueue(s, step) || (WakesAll(s, step) && ReaderBehindWriter(s.waiting))
  }

  predicate ReaderOvertakesReader(s: Lock, step: Step) {
    PassesQueue(s, step) && HasReader(s.waiting)
  }

  lemma PassesQueueIff(s: Lock, step: Step)
    requires Consistent(s) && Enabled(s, step) && Arrives(step)
    ensures Granted(s, step) != [] && s.waiting != [] <==> PassesQueue(s, step)
  {
  }

  lemma NewTicket(m: map<Task, nat>, t: Task, clock: nat)
    ensures Tickets(m[t := clock], [t]) == [clock]
    ensures Tickets(m[t := clock], []) == []
  {
  }

  lemma ArrivalOrderIff(h: History, step: Step)
    requires Consistent(h.lock) && Enabled(h.lock, step) && Arrives(step) && InOrder(h)
    ensures InOrder(Record(h, step)) <==> !PassesQueue(h.lock, step)
  {
    var s, t := h.lock, step.task;
    var q, q', served := s.waiting, Next(s, step).lock.waiting, Granted(s, step) != [];
    ArrivalHasEffect(s, step);
    PassesQueueIff(s, step);
    NewTicket(h.ticketOf, t, h.clock);
    NotQueued(q, t);
    assert TasksOf(q + [Waiter(t, step.forWrite)]) == TasksOf(q) + [t];
    assert Record(h, step).grants == h.grants + (if served then [h.clock] else []);
    ArrivalOrderly(h.grants, TasksOf(q), TasksOf(q'), h.ticketOf, t, h.clock, served);
  }

  lemma ArrivalReadersIff(h: History, step: Step)
    requires Consistent(h.lock) && Enabled(h.lock, step) && Arrives(step) && ReadersInOrder(h)
    ensures ReadersInOrder(Record(h, step)) <==> !ReaderOvertakesReader(h.lock, step)
  {
    var s, t := h.lock, step.task;
    var q, q', served := s.waiting, Next(s, step).lock.waiting, Granted(s, step) != [] && !step.forWrite;
    ArrivalHasEffect(s, step);
    PassesQueueIff(s, step);
    NewTicket(h.ticketOf, t, h.clock);
    NotQueued(q, t);
    FilterSnoc(q, Waiter(t, step.forWrite));
    FilterMembers(q);
    CountZero(q);
    assert Record(h, step).admitted == h.admitted + (if served then [h.clock] else []);
    ArrivalOrderly(h.admitted, ReaderTasks(q), ReaderTasks(q'), h.ticketOf, t, h.clock, served);
  }

  lemma ArrivalWriters(h: History, step: Step)
    requires Consistent(h.lock) && Enabled(h.lock, step) && Arrives(step) && WritersInOrder(h)
    ensures WritersInOrder(Record(h, step))
  {
    var s, t := h.lock, step.task;
    var q, q', served := s.waiting, Next(s, step).lock.waiting, MakesWriter(s, step);
    ArrivalHasEffect(s, step);
    NewTicket(h.ticketOf, t, h.clock);
    NotQueued(q, t);
    FilterSnoc(q, Waiter(t, step.forWrite));
    if step.forWrite {
      assert WriterTasks(q + [Waiter(t, true)]) == WriterTasks(q) + [t];
    }
    assert Record(h, step).served == h.served + (if served then [h.clock] else []);
    ArrivalOrderly(h.served, WriterTasks(q), WriterTasks(q'), h.ticketOf, t, h.clock, served);
  }

  lemma NoTickets(m: map<Task, nat>)
    ensures Tickets(m, []) == []
  {
  }

  lemma ServingKeepsOrders(h: History, step: Step)
    requires Enabled(h.lock, step) && !Arrives(step)
    requires Serves(h.lock.waiting, Granted(h.lock, step), MakesWriter(h.lock, step), Next(h.lock, step).lock.waiting)
    ensures InOrder(h) ==> InOrder(Record(h, step))
    ensures ReadersInOrder(h) ==> ReadersInOrder(Record(h, step))
    ensures WritersInOrder(h) ==> WritersInOrder(Record(h, step))
  {
    var q', served, writer := Next(h.lock, step).lock.waiting, Granted(h.lock, step), MakesWriter(h.lock, step);
    NoTickets(h.ticketOf);
    if InOrder(h) {
      HandOver(h.grants, served, TasksOf(q'), h.ticketOf, h.clock);
    }
    if ReadersInOrder(h) {
      HandOver(h.admitted, if writer then [] else served, ReaderTasks(q'), h.ticketOf, h.clock);
    }
    if WritersInOrder(h) {
      HandOver(h.served, if writer then served else [], WriterTasks(q'), h.ticketOf, h.clock);
    }
  }

  lemma AfterWriter(q: seq<Waiter>)
    requires q != [] && q[0].forWrite && !ReaderBehindWriter(q)
    ensures forall i :: 0 <= i < |q| ==> q[i].forWrite
  {
  }

  lemma LaterQueue(q: seq<Waiter>)
    requires q != [] && !ReaderBehindWriter(q)
    ensures !ReaderBehindWriter(q[1..])
  {
    var rest := q[1..];
    forall i, j | 0 <= i < j < |rest| ensures !rest[i].forWrite || rest[j].forWrite {
      assert rest[i] == q[i + 1] && rest[j] == q[j + 1];
    }
  }

  /** Readers in front of all writers: waking them all is serving those in front. */
  lemma {:induction false} NoReaderBehindWriter(q: seq<Waiter>)
    requires !ReaderBehindWriter(q)
    ensures TasksOf(q) == ReaderTasks(q) + WriterTasks(q)
  {
    if q != [] && q[0].forWrite {
      AfterWriter(q);
      AllWriters(q);
    } else if q != [] {
      LaterQueue(q);
      NoReaderBehindWriter(q[1..]);
      assert TasksOf(q) == [q[0].task] + TasksOf(q[1..]);
    }
  }

  lemma {:induction false} AllWriters(q: seq<Waiter>)
    requires forall i :: 0 <= i < |q| ==> q[i].forWrite
    ensures WritersOf(q) == q && ReaderTasks(q) == []
  {
    if q != [] {
      AllWriters(q[1..]);
    }
  }

  lemma ReaderIndex(q: seq<Waiter>, j: nat) returns (a: nat)
    requires j < |q| && !q[j].forWrite
    ensures a < |ReaderTasks(q)| && ReaderTasks(q)[a] == q[j].task
  {
    FilterMembers(q);
    assert Waiter(q[j].task, false) == q[j];
    a :| a < |ReaderTasks(q)| && ReaderTasks(q)[a] == q[j].task;
  }

  lemma WriterIndex(q: seq<Waiter>, i: nat) returns (b: nat)
    requires i < |q| && q[i].forWrite
    ensures b < |WriterTasks(q)| && WriterTasks(q)[b] == q[i].task
  {
    FilterMembers(q);
    assert q[i] in WritersOf(q);
    b :| b < |WritersOf(q)| && WritersOf(q)[b] == q[i];
  }

  lemma Descent(log: seq<nat>, a: seq<nat>, b: seq<nat>, i: nat, j: nat)
    requires i < |a| && j < |b| && a[i] > b[j]
    ensures !Increasing((log + a) + b)
  {
    var line := (log + a) + b;
    assert line[|log| + i] == a[i] && line[|log| + |a| + j] == b[j];
  }

  /** A reader that waits behind a writer and is woken before it has the later ticket. */
  lemma WokenTooEarly(log: seq<nat>, q: seq<Waiter>, m: map<Task, nat>, clock: nat)
    requires Orderly(log, TasksOf(q), m, clock) && ReaderBehindWriter(q)
    ensures !Increasing((log + Tickets(m, ReaderTasks(q))) + Tickets(m, WriterTasks(q)))
  {
    var i, j :| 0 <= i < j < |q| && q[i].forWrite && !q[j].forWrite;
    var line := log + Tickets(m, TasksOf(q));
    assert line[|log| + i] == Ticket(m, q[i].task) && line[|log| + j] == Ticket(m, q[j].task);
    var a := ReaderIndex(q, j);
    var b := WriterIndex(q, i);
    Descent(log, Tickets(m, ReaderTasks(q)), Tickets(m, WriterTasks(q)), a, b);
  }

  lemma WakingOrderIff(h: History, step: Step)
    requires Enabled(h.lock, step) && WakesAll(h.lock, step) && InOrder(h)
    ensures InOrder(Record(h, step)) <==> !ReaderBehindWriter(h.lock.waiting)
  {
    var q := h.lock.waiting;
    WakeAllServes(h.lock, step);
    if ReaderBehindWriter(q) {
      WokenTooEarly(h.grants, q, h.ticketOf, h.clock);
    } else {
      NoReaderBehindWriter(q);
      HandOver(h.grants, ReaderTasks(q), WriterTasks(q), h.ticketOf, h.clock);
    }
  }

  lemma WakingKeepsOrders(h: History, step: Step)
    requires Enabled(h.lock, step) && WakesAll(h.lock, step)
    ensures ReadersInOrder(h) ==> ReadersInOrder(Record(h, step))
    ensures WritersInOrder(h) ==> WritersInOrder(Record(h, step))
  {
    var q := h.lock.waiting;
    WakeAllServes(h.lock, step);
    OnlyWriters(q);
    if ReadersInOrder(h) {
      assert ReaderTasks(q) == ReaderTasks(q) + [];
      HandOver(h.admitted, ReaderTasks(q), [], h.ticketOf, h.clock);
    }
    assert WritersInOrder(h) ==> h.served == Record(h, step).served;
  }

  lemma CancelRecord(h: History, t: Task)
    requires Enabled(h.lock, CancelWaiter(t))
    ensures var h' := Record(h, CancelWaiter(t));
      && h'.grants == h.grants && h'.served == h.served && h'.admitted == h.admitted
      && h'.ticketOf == h.ticketOf && h'.clock == h.clock
      && h'.lock.waiting == Without(h.lock.waiting, t)
  {
    NoTickets(h.ticketOf);
    assert h.grants + [] == h.grants && h.served + [] == h.served && h.admitted + [] == h.admitted;
  }

  /** The queue around the entry that a cancellation takes out. */
  lemma CancelAround(q: seq<Waiter>, t: Task) returns (a: seq<Waiter>, w: Waiter, b: seq<Waiter>)
    requires Queued(q, t)
    ensures q == (a + [w]) + b && Without(q, t) == a + b && w.task == t
  {
    var p := Position(q, t);
    a, w, b := q[..p], q[p], q[p + 1..];
    WithoutSplits(q, t);
  }

  lemma CancelKeepsAll(h: History, t: Task)
    requires Enabled(h.lock, CancelWaiter(t)) && InOrder(h)
    ensures InOrder(Record(h, CancelWaiter(t)))
  {
    CancelRecord(h, t);
    var a, w, b := CancelAround(h.lock.waiting, t);
    TasksAround(a, w, b);
    TasksConcat(a, b);
    GiveUp(h.grants, TasksOf(a), t, TasksOf(b), h.ticketOf, h.clock);
  }

  lemma CancelKeepsReaders(h: History, t: Task)
    requires Enabled(h.lock, CancelWaiter(t)) && ReadersInOrder(h)
    ensures ReadersInOrder(Record(h, CancelWaiter(t)))
  {
    CancelRecord(h, t);
    var a, w, b := CancelAround(h.lock.waiting, t);
    FilterAround(a, w, b);
    FilterConcat(a, b);
    if w.forWrite {
      assert ReaderTasks(a) + [] == ReaderTasks(a);
    } else {
      GiveUp(h.admitted, ReaderTasks(a), t, ReaderTasks(b), h.ticketOf, h.clock);
    }
  }

  lemma CancelKeepsWriters(h: History, t: Task)
    requires Enabled(h.lock, CancelWaiter(t)) && WritersInOrder(h)
    ensures WritersInOrder(Record(h, CancelWaiter(t)))
  {
    CancelRecord(h, t);
    var a, w, b := CancelAround(h.lock.waiting, t);
    FilterAround(a, w, b);
    FilterConcat(a, b);
    if w.forWrite {
      TasksAround(WritersOf(a), w, WritersOf(b));
      TasksConcat(WritersOf(a), WritersOf(b));
      GiveUp(h.served, WriterTasks(a), t, WriterTasks(b), h.ticketOf, h.clock);
    } else {
      assert WritersOf(a) + [] == WritersOf(a);
    }
  }

  lemma SwitchOffServes(s: Lock, newValue: bool)
    requires !WakesAll(s, SetReadBiased(newValue))
    ensures var step := SetReadBiased(newValue);
      Serves(s.waiting, Granted(s, step), MakesWriter(s, step), Next(s, step).lock.waiting)
  {
    NobodyServed(s.waiting);
  }

  // ---- One step ----

  /** A step keeps the order of all grants exactly if it lets nobody overtake. */
  lemma StepKeepsOrderIff(h: History, step: Step)
    requires Consistent(h.lock) && InOrder(h) && Enabled(h.lock, step)
    ensures InOrder(Record(h, step)) <==> !Overtakes(h.lock, step)
  {
    if WakesAll(h.lock, step) {
      WakingOrderIff(h, step);
    } else {
      match step
      case Release(t) => ReleaseServes(h.lock, t); ServingKeepsOrders(h, step);
      case SetReadBiased(v) => SwitchOffServes(h.lock, v); ServingKeepsOrders(h, step);
      case CancelWaiter(t) => CancelKeepsAll(h, t);
      case _ => ArrivalOrderIff(h, step);
    }
  }

  lemma StepKeepsReadersIff(h: History, step: Step)
    requires Consistent(h.lock) && ReadersInOrder(h) && Enabled(h.lock, step)
    ensures ReadersInOrder(Record(h, step)) <==> !ReaderOvertakesReader(h.lock, step)
  {
    if WakesAll(h.lock, step) {
      WakingKeepsOrders(h, step);
    } else {
      match step
      case Release(t) => ReleaseServes(h.lock, t); ServingKeepsOrders(h, step);
      case SetReadBiased(v) => SwitchOffServes(h.lock, v); ServingKeepsOrders(h, step);
      case CancelWaiter(t) => CancelKeepsReaders(h, t);
      case _ => ArrivalReadersIff(h, step);
    }
  }

  lemma StepKeepsWriters(h: History, step: Step)
    requires Consistent(h.lock) && WritersInOrder(h) && Enabled(h.lock, step)
    ensures WritersInOrder(Record(h, step))
  {
    if WakesAll(h.lock, step) {
      WakingKeepsOrders(h, step);
    } else {
      match step
      case Release(t) => ReleaseServes(h.lock, t); ServingKeepsOrders(h, step);
      case SetReadBiased(v) => SwitchOffServes(h.lock, v); ServingKeepsOrders(h, step);
      case CancelWaiter(t) => CancelKeepsWriters(h, t);
      case _ => ArrivalWriters(h, step);
    }
  }

  // ---- Runs ----

  /** At every moment of the run all grants come in arrival order and before all who wait. */
  ghost predicate AlwaysInOrder(h: History, steps: seq<Step>)
    requires Legal(h.lock, steps)
    decreases steps
  {
    InOrder(h) && (steps != [] ==> AlwaysInOrder(Record(h, steps[0]), steps[1..]))
  }

  predicate NobodyOvertakes(s: Lock, steps: seq<Step>)
    requires Legal(s, steps)
    decreases steps
  {
    steps == [] || (!Overtakes(s, steps[0]) && NobodyOvertakes(Next(s, steps[0]).lock, steps[1..]))
  }

  /** FIFO holds throughout a run exactly if no step of it lets anybody overtake. */
  lemma {:induction false} GrantsInArrivalOrder(h: History, steps: seq<Step>)
    requires Consistent(h.lock) && InOrder(h) && Legal(h.lock, steps)
    ensures AlwaysInOrder(h, steps) <==> NobodyOvertakes(h.lock, steps)
    decreases steps
  {
    if steps != [] {
      StepKeepsOrderIff(h, steps[0]);
      StepConsistent(h.lock, steps[0]);
      if InOrder(Record(h, steps[0])) {
        GrantsInArrivalOrder(Record(h, steps[0]), steps[1..]);
      }
    }
  }

  lemma FreshLockIsFifo(readBiased: bool, steps: seq<Step>)
    requires Legal(Initial(readBiased), steps)
    ensures AlwaysInOrder(Fresh(readBiased), steps) <==> NobodyOvertakes(Initial(readBiased), steps)
  {
    GrantsInArrivalOrder(Fresh(readBiased), steps);
  }

  ghost predicate ReadersAlwaysInOrder(h: History, steps: seq<Step>)
    requires Legal(h.lock, steps)
    decreases steps
  {
    ReadersInOrder(h) && (steps != [] ==> ReadersAlwaysInOrder(Record(h, steps[0]), steps[1..]))
  }

  predicate NoReaderOvertakes(s: Lock, steps: seq<Step>)
    requires Legal(s, steps)
    decreases steps
  {
    steps == [] || (!ReaderOvertakesReader(s, steps[0]) && NoReaderOvertakes(Next(s, steps[0]).lock, steps[1..]))
  }

  lemma {:induction false} ReadersServedInOrder(h: History, steps: seq<Step>)
    requires Consistent(h.lock) && ReadersInOrder(h) && Legal(h.lock, steps)
    ensures ReadersAlwaysInOrder(h, steps) <==> NoReaderOvertakes(h.lock, steps)
    decreases steps
  {
    if steps != [] {
      StepKeepsReadersIff(h, steps[0]);
      StepConsistent(h.lock, steps[0]);
      if ReadersInOrder(Record(h, steps[0])) {
        ReadersServedInOrder(Record(h, steps[0]), steps[1..]);
      }
    }
  }

  /** Writers get the lock in arrival order in every run: any mode, any cancellation, any switch. */
  lemma {:induction false} WritersServedInOrder(h: History, steps: seq<Step>)
    requires Consistent(h.lock) && WritersInOrder(h) && Legal(h.lock, steps)
    ensures WritersInOrder(RecordAll(h, steps))
    decreases steps
  {
    if steps != [] {
      StepKeepsWriters(h, steps[0]);
      StepConsistent(h.lock, steps[0]);
      WritersServedInOrder(Record(h, steps[0]), steps[1..]);
    }
  }

  lemma Prefix(log: seq<nat>, ts: seq<Task>, m: map<Task, nat>, clock: nat)
    requires Orderly(log, ts, m, clock)
    ensures Increasing(log)
  {
    var line := log + Tickets(m, ts);
    assert forall i :: 0 <= i < |log| ==> log[i] == line[i];
  }

  lemma FreshLockServesWritersInOrder(readBiased: bool, steps: seq<Step>)
    requires Legal(Initial(readBiased), steps)
    ensures Increasing(RecordAll(Fresh(readBiased), steps).served)
  {
    WritersServedInOrder(Fresh(readBiased), steps);
    var h := RecordAll(Fresh(readBiased), steps);
    Prefix(h.served, WriterTasks(h.lock.waiting), h.ticketOf, h.clock);
  }

  // ---- Runs without a stranding cancellation ----

  /** Nothing in the run is an unsafe bias switch or a stranding cancellation. */
  predicate Unstranded(s: Lock, steps: seq<Step>)
    requires Legal(s, steps)
    decreases steps
  {
    steps == [] || (
      && !UnsafeSwitch(s, steps[0])
      && !Strands(s, steps[0])
      && Unstranded(Next(s, steps[0]).lock, steps[1..]))
  }

  predicate NeverBiased(s: Lock, steps: seq<Step>) {
    !s.readBiased && SetReadBiased(true) !in steps
  }

  lemma SafeStepOvertakesNobody(s: Lock, step: Step)
    requires Inv(s) && HeadIsWriter(s) && Enabled(s, step)
    ensures !ReaderOvertakesReader(s, step)
    ensures !s.readBiased && step != SetReadBiased(true) ==> !Overtakes(s, step)
  {
    CountZero(s.waiting);
  }

  lemma StaysUnbiased(s: Lock, step: Step)
    requires Enabled(s, step) && !s.readBiased && step != SetReadBiased(true)
    ensures !Next(s, step).lock.readBiased
  {
  }

  /** Such a run lets no reader overtake a reader, and if it is never biased nobody overtakes anybody. */
  lemma {:induction false} UnstrandedOvertakesNobody(s: Lock, steps: seq<Step>)
    requires Inv(s) && HeadIsWriter(s) && Legal(s, steps) && Unstranded(s, steps)
    ensures NoReaderOvertakes(s, steps)
    ensures NeverBiased(s, steps) ==> NobodyOvertakes(s, steps)
    decreases steps
  {
    if steps != [] {
      SafeStepOvertakesNobody(s, steps[0]);
      StepKeepsInvIff(s, steps[0]);
      StepKeepsHeadIff(s, steps[0]);
      UnstrandedOvertakesNobody(Next(s, steps[0]).lock, steps[1..]);
      if NeverBiased(s, steps) {
        StaysUnbiased(s, steps[0]);
      }
    }
  }

  lemma {:induction false} AlwaysMeansFinally(h: History, steps: seq<Step>)
    requires Legal(h.lock, steps) && AlwaysInOrder(h, steps)
    ensures InOrder(RecordAll(h, steps))
    decreases steps
  {
    if steps != [] {
      AlwaysMeansFinally(Record(h, steps[0]), steps[1..]);
    }
  }

  /** From a fresh lock: readers in order across all mode switches, and everybody if there are none. */
  lemma UnstrandedIsFifo(readBiased: bool, steps: seq<Step>)
    requires Legal(Initial(readBiased), steps) && Unstranded(Initial(readBiased), steps)
    ensures ReadersAlwaysInOrder(Fresh(readBiased), steps)
    ensures !readBiased && SetReadBiased(true) !in steps ==>
      && AlwaysInOrder(Fresh(readBiased), steps)
      && Increasing(RecordAll(Fresh(readBiased), steps).grants)
  {
    UnstrandedOvertakesNobody(Initial(readBiased), steps);
    ReadersServedInOrder(Fresh(readBiased), steps);
    FreshLockIsFifo(readBiased, steps);
    if !readBiased && SetReadBiased(true) !in steps {
      AlwaysMeansFinally(Fresh(readBiased), steps);
      var h := RecordAll(Fresh(readBiased), steps);
      Prefix(h.grants, TasksOf(h.lock.waiting), h.ticketOf, h.clock);
    }
  }

  // ---- What the record shows ----

  /** Everybody who waits has a ticket. */
  ghost predicate Known(h: History) {
    forall i :: 0 <= i < |h.lock.waiting| ==> h.lock.waiting[i].task in h.ticketOf
  }

  /**
    The record misses nobody: what a step adds are the tickets of exactly the tasks that
    hold the lock after it and did not before.
    */
  lemma EveryGrantIsLogged(h: History, step: Step)
    requires Consistent(h.lock) && Known(h) && Enabled(h.lock, step)
    ensures var h', granted := Record(h, step), Granted(h.lock, step);
      && Known(h')
      && h'.grants == h.grants + Tickets(h'.ticketOf, granted)
      && (forall t :: t in granted <==> h'.lock.Holds(t) && !h.lock.Holds(t))
      && (forall t :: t in granted ==> t in h'.ticketOf)
      && (MakesWriter(h.lock, step) ==> granted == [h'.lock.writer.value])
  {
    NobodyElseWaits(h.lock, step);
    NobodyElseHolds(h.lock, step);
    GrantedHold(h.lock, step);
    if MakesWriter(h.lock, step) {
      WriterIsGranted(h.lock, step);
    }
    var h' := Record(h, step);
    forall i | 0 <= i < |h'.lock.waiting| ensures h'.lock.waiting[i].task in h'.ticketOf {
      assert h'.lock.waiting[i] in h'.lock.waiting;
    }
  }
}
