/** Mutual exclusion, no lost wake-ups and the exact cost of the bias switch. */
module RWLockSafety {
  import opened Options
  import opened RWLockModel
  import opened RWLockQueue

  // ---- One step ----

  lemma TryAcquireConsistent(s: Lock, t: Task, forWrite: bool)
    requires Consistent(s) && !Queued(s.waiting, t)
    ensures Consistent(TryAcquire(s, t, forWrite).lock)
  {
  }

  lemma AcquireConsistent(s: Lock, t: Task, forWrite: bool)
    requires Consistent(s) && !Queued(s.waiting, t)
    ensures Consistent(AcquireOrWait(s, t, forWrite).lock)
  {
    TryAcquireConsistent(s, t, forWrite);
    if TryAcquire(s, t, forWrite).outcome.WouldBlock? {
      CountConcat(s.waiting, [Waiter(t, forWrite)]);
      CountZero(s.waiting);
      assert CountWriters([Waiter(t, forWrite)]) == if forWrite then 1 else 0;
    }
  }

  lemma WakeAllWellQueued(s: Lock)
    requires WellQueued(s)
    ensures WellQueued(WakeAllReaders(s).lock)
    ensures !HasReader(WakeAllReaders(s).lock.waiting)
  {
    var q := s.waiting;
    FilterMembers(q);
    WritersDistinct(q);
    var s' := WakeAllReaders(s).lock;
    forall i | 0 <= i < |s'.waiting|
      ensures !s'.Holds(s'.waiting[i].task) && s'.waiting[i].forWrite
    {
      assert s'.waiting[i] in s'.waiting && s'.waiting[i] in q;
    }
    forall t | t in ReaderTasks(q) ensures Queued(q, t) {
      QueuedIn(q, t);
    }
  }

  lemma WakeAllConsistent(s: Lock)
    requires Consistent(s)
    ensures Consistent(WakeAllReaders(s).lock)
    ensures !HasReader(WakeAllReaders(s).lock.waiting)
  {
    WakeAllWellQueued(s);
    FilterMembers(s.waiting);
    if WritersOf(s.waiting) != [] {
      assert WritersOf(s.waiting)[0] in s.waiting;
    }
  }

  lemma LaterCount(q: seq<Waiter>, k: nat)
    requires k <= |q| && forall i :: 0 <= i < k ==> !q[i].forWrite
    ensures CountWriters(q[k..]) == CountWriters(q)
  {
    assert q == q[..k] + q[k..];
    CountConcat(q[..k], q[k..]);
    CountZero(q[..k]);
  }

  lemma LaterDistinct(q: seq<Waiter>, k: nat)
    requires Distinct(q) && k <= |q|
    ensures Distinct(q[k..])
  {
    forall i, j | 0 <= i < j < |q[k..]| ensures q[k..][i].task != q[k..][j].task {
      assert q[k..][i] == q[k + i] && q[k..][j] == q[k + j];
    }
  }

  lemma LaterNotEarlier(q: seq<Waiter>, k: nat, i: nat)
    requires Distinct(q) && k <= i < |q|
    ensures q[i].task !in TasksOf(q[..k])
  {
    forall j | 0 <= j < k ensures TasksOf(q[..k])[j] != q[i].task {
      assert TasksOf(q[..k])[j] == q[j].task;
    }
  }

  lemma GrantPrefixConsistent(s: Lock, k: nat)
    requires s.writer.None? && WellQueued(s)
    requires 0 < k <= |s.waiting| && forall i :: 0 <= i < k ==> !s.waiting[i].forWrite
    ensures Consistent(s.(readers := s.readers + ToSet(TasksOf(s.waiting[..k])), waiting := s.waiting[k..]))
  {
    LaterCount(s.waiting, k);
    LaterDistinct(s.waiting, k);
    forall i | 0 <= i < |s.waiting[k..]|
      ensures !s.Holds(s.waiting[k..][i].task) && s.waiting[k..][i].task !in TasksOf(s.waiting[..k])
    {
      assert s.waiting[k..][i] == s.waiting[k + i];
      LaterNotEarlier(s.waiting, k, k + i);
    }
    assert TasksOf(s.waiting[..k])[0] in ToSet(TasksOf(s.waiting[..k]));
  }

  /** The hand-off starts with no writer; afterwards nobody waits at a free lock. */
  lemma HandOffConsistent(s: Lock)
    requires s.writer.None? && WellQueued(s)
    ensures Consistent(HandOff(s).lock)
  {
    var q := s.waiting;
    CountZero(q);
    if q == [] || q[0].forWrite {
    } else if s.readBiased {
      WakeAllWellQueued(s);
      assert ReaderTasks(q)[0] in ToSet(ReaderTasks(q));
    } else {
      GrantPrefixConsistent(s, ReaderPrefix(q));
    }
  }

  lemma CancelConsistent(s: Lock, t: Task)
    requires Consistent(s) && Queued(s.waiting, t)
    ensures Consistent(Cancel(s, t).lock)
  {
    var q' := Without(s.waiting, t);
    WithoutDistinct(s.waiting, t);
    WithoutCount(s.waiting, t);
    WithoutMembers(s.waiting, t);
    forall i | 0 <= i < |q'| ensures !s.Holds(q'[i].task) {
      assert q'[i] in s.waiting;
    }
  }

  lemma StepConsistent(s: Lock, step: Step)
    requires Consistent(s) && Enabled(s, step)
    ensures Consistent(Next(s, step).lock)
  {
    match step
    case AcquireNowait(t, w) => TryAcquireConsistent(s, t, w);
    case Acquire(t, w) => AcquireConsistent(s, t, w);
    case Release(t) =>
      if s.writer == Some(t) {
        HandOffConsistent(s.(writer := None));
      } else if s.readers == {t} && s.writer.None? {
        HandOffConsistent(s.(readers := {}));
      }
    case CancelWaiter(t) => CancelConsistent(s, t);
    case SetReadBiased(v) => WakeAllConsistent(s);
  }

  lemma AcquireKeepsInv(s: Lock, t: Task, forWrite: bool)
    requires Inv(s) && !Queued(s.waiting, t)
    ensures Inv(TryAcquire(s, t, forWrite).lock)
    ensures Inv(AcquireOrWait(s, t, forWrite).lock)
  {
    TryAcquireConsistent(s, t, forWrite);
    AcquireConsistent(s, t, forWrite);
    CountZero(s.waiting);
  }

  lemma HandOffKeepsInv(s: Lock)
    requires s.writer.None? && s.readers == {} && WellQueued(s)
    ensures Inv(HandOff(s).lock)
  {
    HandOffConsistent(s);
    if s.waiting != [] && s.readBiased && !s.waiting[0].forWrite {
      WakeAllWellQueued(s);
    }
  }

  lemma ReleaseKeepsInv(s: Lock, t: Task)
    requires Inv(s)
    ensures Inv(ReleaseBy(s, t).lock)
  {
    if s.writer == Some(t) {
      HandOffKeepsInv(s.(writer := None));
    } else if s.readers == {t} && s.writer.None? {
      HandOffKeepsInv(s.(readers := {}));
    }
  }

  lemma CancelKeepsInv(s: Lock, t: Task)
    requires Inv(s) && Queued(s.waiting, t)
    ensures Inv(Cancel(s, t).lock)
  {
    CancelConsistent(s, t);
    WithoutSplits(s.waiting, t);
  }

  lemma WakesSomebodyIff(s: Lock)
    ensures ToSet(WakeAllReaders(s).rescheduled) == {} <==> !HasReader(s.waiting)
  {
    var woken := ReaderTasks(s.waiting);
    FilterMembers(s.waiting);
    CountZero(s.waiting);
    if woken != [] {
      assert woken[0] in ToSet(woken);
    }
  }

  lemma SetBiasKeepsInvIff(s: Lock, newValue: bool)
    requires Inv(s)
    ensures Inv(SetBias(s, newValue).lock) <==> !UnsafeSwitch(s, SetReadBiased(newValue))
    ensures Exclusive(SetBias(s, newValue).lock) <==> !UnsafeSwitch(s, SetReadBiased(newValue))
  {
    if newValue && !s.readBiased {
      WakeAllConsistent(s);
      WakesSomebodyIff(s);
    }
  }

  /**
    Mutual exclusion, with everything it rests on, survives a step exactly when the step
    does not switch the bias on under a writer with a reader queued.
    */
  lemma StepKeepsInvIff(s: Lock, step: Step)
    requires Inv(s) && Enabled(s, step)
    ensures Inv(Next(s, step).lock) <==> !UnsafeSwitch(s, step)
    ensures Exclusive(Next(s, step).lock) <==> !UnsafeSwitch(s, step)
  {
    match step
    case AcquireNowait(t, w) => AcquireKeepsInv(s, t, w);
    case Acquire(t, w) => AcquireKeepsInv(s, t, w);
    case Release(t) => ReleaseKeepsInv(s, t);
    case CancelWaiter(t) => CancelKeepsInv(s, t);
    case SetReadBiased(v) => SetBiasKeepsInvIff(s, v);
  }

  /** Nobody ever has to wait for a lock that is free. */
  lemma FreeLockIsGranted(s: Lock, t: Task, forWrite: bool)
    requires Consistent(s) && !s.Held()
    ensures TryAcquire(s, t, forWrite).outcome == Returned
    ensures TryAcquire(s, t, forWrite).lock.Holds(t)
    ensures TryAcquire(s, t, forWrite).lock.writer.Some? <==> forWrite
  {
    CountZero(s.waiting);
  }

  // ---- Runs ----

  /** Over every run: consistency always, mutual exclusion while no switch is unsafe. */
  lemma {:induction false} RunKeepsInv(s: Lock, steps: seq<Step>)
    requires Legal(s, steps)
    ensures Consistent(s) ==> Consistent(Final(s, steps))
    ensures Inv(s) && NoUnsafeSwitch(s, steps) ==> Inv(Final(s, steps))
    decreases steps
  {
    if steps != [] {
      if Consistent(s) {
        StepConsistent(s, steps[0]);
      }
      if Inv(s) {
        StepKeepsInvIff(s, steps[0]);
      }
      RunKeepsInv(Next(s, steps[0]).lock, steps[1..]);
    }
  }

  /** At every moment of the run a writer excludes all readers. */
  predicate AlwaysExclusive(s: Lock, steps: seq<Step>)
    requires Legal(s, steps)
    decreases steps
  {
    Exclusive(s) && (steps != [] ==> AlwaysExclusive(Next(s, steps[0]).lock, steps[1..]))
  }

  /** Mutual exclusion holds throughout a run exactly if no step of it is an unsafe switch. */
  lemma {:induction false} AlwaysExclusiveIff(s: Lock, steps: seq<Step>)
    requires Inv(s) && Legal(s, steps)
    ensures AlwaysExclusive(s, steps) <==> NoUnsafeSwitch(s, steps)
    decreases steps
  {
    if steps != [] {
      StepKeepsInvIff(s, steps[0]);
      if !UnsafeSwitch(s, steps[0]) {
        AlwaysExclusiveIff(Next(s, steps[0]).lock, steps[1..]);
      }
    }
  }

  /** The two promises of the class documentation, for every run from a fresh lock. */
  lemma MutualExclusion(readBiased: bool, steps: seq<Step>)
    requires Legal(Initial(readBiased), steps)
    ensures Consistent(Final(Initial(readBiased), steps))
    ensures NoUnsafeSwitch(Initial(readBiased), steps) ==> Inv(Final(Initial(readBiased), steps))
    ensures AlwaysExclusive(Initial(readBiased), steps) <==> NoUnsafeSwitch(Initial(readBiased), steps)
  {
    RunKeepsInv(Initial(readBiased), steps);
    AlwaysExclusiveIff(Initial(readBiased), steps);
  }

  lemma RunBegins(s: Lock, step: Step, next: Lock, rest: seq<Step>, end: Lock)
    requires Enabled(s, step) && Next(s, step).lock == next
    requires Legal(next, rest) && Final(next, rest) == end
    ensures Legal(s, [step] + rest) && Final(s, [step] + rest) == end
  {
    assert ([step] + rest)[1..] == rest;
  }

  /** The unsafe switch is reachable: a writer and a reader end up holding the lock together. */
  lemma UnsafeSwitchReachable()
    ensures var steps := [Acquire(0, true)] + ([Acquire(1, false)] + ([SetReadBiased(true)] + []));
      && Legal(Initial(false), steps)
      && Final(Initial(false), steps).writer == Some(0)
      && Final(Initial(false), steps).readers == {1}
  {
    var s1 := Lock(Some(0), {}, [], 0, false);
    var s2 := Lock(Some(0), {}, [Waiter(1, false)], 0, false);
    var s3 := Lock(Some(0), {1}, [], 0, true);
    assert ReaderTasks(s2.waiting) == [1] && ToSet([1]) == {1};
    RunBegins(s2, SetReadBiased(true), s3, [], s3);
    RunBegins(s1, Acquire(1, false), s2, [SetReadBiased(true)] + [], s3);
    RunBegins(Initial(false), Acquire(0, true), s1, [Acquire(1, false)] + ([SetReadBiased(true)] + []), s3);
  }

  // ---- No lost and no repeated wake-up ----

  lemma EnqueueKeepsQueued(s: Lock, t: Task, forWrite: bool)
    ensures forall u :: Queued(s.waiting, u) ==> Queued(AcquireOrWait(s, t, forWrite).lock.waiting, u)
  {
    var q, q' := s.waiting, AcquireOrWait(s, t, forWrite).lock.waiting;
    forall u | Queued(q, u) ensures Queued(q', u) {
      var i :| 0 <= i < |q| && q[i].task == u;
      assert q'[i] == q[i];
    }
  }

  lemma CancelKeepsQueued(s: Lock, t: Task)
    requires Queued(s.waiting, t)
    ensures forall u :: Queued(s.waiting, u) && u != t ==> Queued(Cancel(s, t).lock.waiting, u)
  {
    WithoutMembers(s.waiting, t);
    forall u | Queued(s.waiting, u) && u != t ensures Queued(Cancel(s, t).lock.waiting, u) {
      QueuedIn(s.waiting, u);
      QueuedIn(Cancel(s, t).lock.waiting, u);
    }
  }

  /**
    The tasks a step reschedules are exactly those that were queued before it and hold the
    lock after it, each once; any other task that leaves the queue is the one cancelled.
    */
  lemma WakesExactlyTheGranted(s: Lock, step: Step)
    requires Consistent(s) && Enabled(s, step)
    ensures var e := Next(s, step);
      && (forall t :: t in e.rescheduled <==> Queued(s.waiting, t) && e.lock.Holds(t))
      && (forall i, j :: 0 <= i < j < |e.rescheduled| ==> e.rescheduled[i] != e.rescheduled[j])
      && (forall t :: Queued(s.waiting, t) && !Queued(e.lock.waiting, t) ==>
            t in e.rescheduled || step == CancelWaiter(t))
  {
    match step
    case AcquireNowait(t, w) =>
    case Acquire(t, w) => EnqueueKeepsQueued(s, t, w);
    case CancelWaiter(t) => CancelKeepsQueued(s, t);
    case SetReadBiased(v) =>
      if v && !s.readBiased { WakeAllWakes(s); }
    case Release(t) =>
      if IsHandOff(s, step) || s.writer == Some(t) {
        HandOffWakes(if s.writer == Some(t) then s.(writer := None) else s.(readers := s.readers - {t}));
      }
  }

  ghost predicate WakesExactly(s: Lock, e: Effect) {
    && (forall t :: t in e.rescheduled <==> Queued(s.waiting, t) && e.lock.Holds(t))
    && (forall i, j :: 0 <= i < j < |e.rescheduled| ==> e.rescheduled[i] != e.rescheduled[j])
    && (forall t :: Queued(s.waiting, t) && !Queued(e.lock.waiting, t) ==> t in e.rescheduled)
  }

  lemma WakeAllWakes(s: Lock)
    requires WellQueued(s)
    ensures WakesExactly(s, WakeAllReaders(s))
  {
    var q := s.waiting;
    var e := WakeAllReaders(s);
    FilterMembers(q);
    WritersDistinct(q);
    forall t ensures t in e.rescheduled <==> Queued(q, t) && e.lock.Holds(t) {
      QueuedIn(q, t);
    }
    forall t | Queued(q, t) && t !in e.rescheduled ensures Queued(e.lock.waiting, t) {
      QueuedIn(q, t);
      QueuedIn(e.lock.waiting, t);
      assert Waiter(t, true) in q;
      assert Waiter(t, true) in WritersOf(q);
    }
  }

  lemma HeadWakes(s: Lock)
    requires s.writer.None? && s.readers == {} && WellQueued(s) && s.waiting != [] && s.waiting[0].forWrite
    ensures WakesExactly(s, HandOff(s))
  {
    var q := s.waiting;
    forall t | Queued(q, t) && t != q[0].task ensures Queued(q[1..], t) {
      var i :| 0 <= i < |q| && q[i].task == t;
      assert q[1..][i - 1].task == t;
    }
  }

  /** Letting in the first `k` tasks, all of them readers. */
  lemma PrefixWakes(s: Lock, k: nat)
    requires WellQueued(s) && s.writer.None?
    requires k <= |s.waiting| && forall i :: 0 <= i < k ==> !s.waiting[i].forWrite
    ensures var woken := TasksOf(s.waiting[..k]);
      WakesExactly(s, Effect(s.(readers := s.readers + ToSet(woken), waiting := s.waiting[k..]), woken, Returned))
  {
    var q, woken := s.waiting, TasksOf(s.waiting[..k]);
    assert forall i :: 0 <= i < k ==> woken[i] == q[i].task;
    forall t | t in woken ensures Queued(q, t) {
      var i :| 0 <= i < k && woken[i] == t;
      assert q[i].task == t;
    }
    forall t | Queued(q, t) ensures t in woken || Queued(q[k..], t) {
      var i :| 0 <= i < |q| && q[i].task == t;
      if i >= k { assert q[k..][i - k].task == t; } else { assert woken[i] == t; }
    }
  }

  lemma HandOffWakes(s: Lock)
    requires s.writer.None? && WellQueued(s)
    ensures WakesExactly(s, HandOff(s))
  {
    var q := s.waiting;
    if q == [] || (q[0].forWrite && s.readers != {}) {
    } else if q[0].forWrite {
      HeadWakes(s);
    } else if s.readBiased {
      WakeAllWakes(s);
    } else {
      PrefixWakes(s, ReaderPrefix(q));
    }
  }
}
