/**
  What one step does to holders, queue and mode, said of each task separately and without
  the functions that compute it.
  */
module RWLockEffects {
  import opened Options
  import opened RWLockModel
  import opened RWLockQueue
  import opened RWLockSafety
  import opened RWLockHistory

  // ---- Attempts ----

  /** An attempt succeeds at once: for a writer if nobody holds the lock, for a reader if no writer does or waits. */
  ghost predicate Admitted(s: Lock, forWrite: bool) {
    && s.writer.None?
    && (forWrite ==> s.readers == {})
    && (!forWrite ==> s.readBiased || Waiterless(s))
  }

  ghost predicate Waiterless(s: Lock) {
    forall i :: 0 <= i < |s.waiting| ==> !s.waiting[i].forWrite
  }

  /** How an attempt ends, and that it changes nothing unless it takes the lock or waits for it. */
  lemma AttemptEnds(s: Lock, step: Step)
    requires Consistent(s) && Enabled(s, step) && Arrives(step)
    ensures var e := Next(s, step);
      && e.rescheduled == []
      && (e.outcome == AlreadyHeld <==> s.Holds(step.task))
      && (e.outcome == Returned <==> !s.Holds(step.task) && Admitted(s, step.forWrite))
      && (e.outcome == WouldBlock ==> step.AcquireNowait?)
      && (e.outcome == Blocked ==> step.Acquire? && e.lock.waiting == s.waiting + [Waiter(step.task, step.forWrite)])
      && (e.outcome in {AlreadyHeld, WouldBlock} ==> e.lock == s)
      && e.outcome != NotOwner
  {
    CountZero(s.waiting);
    assert Waiterless(s) <==> s.waitingWriters == 0;
  }

  // ---- Releases ----

  /** A release ends the hold of its task, or finds that there is none and changes nothing. */
  lemma ReleaseEnds(s: Lock, t: Task)
    requires Consistent(s) && Enabled(s, Release(t))
    ensures var e := Next(s, Release(t));
      && !e.lock.Holds(t)
      && e.outcome == (if s.Holds(t) then Returned else NotOwner)
      && (!s.Holds(t) ==> e.lock == s && e.rescheduled == [])
  {
    WriterAfter(s, Release(t), t);
    ReaderAfter(s, Release(t), t);
    GrantedHold(s, Release(t));
  }

  // ---- Who holds the lock afterwards ----

  /** The task is the one that asks for the lock in this step, or waits for it, in that mode. */
  predicate Asks(s: Lock, step: Step, u: Task, forWrite: bool) {
    (Arrives(step) && step.task == u && step.forWrite == forWrite) || Waiter(u, forWrite) in s.waiting
  }

  lemma HandOffWriter(s: Lock, u: Task)
    requires WellQueued(s) && s.writer.None?
    ensures HandOff(s).lock.writer == Some(u) <==> u in HandOff(s).rescheduled && Waiter(u, true) in s.waiting
  {
    FilterMembers(s.waiting);
    var q := s.waiting;
    if q != [] && q[0].forWrite {
      assert q[0] == Waiter(q[0].task, true);
    } else if u in HandOff(s).rescheduled {
      PrefixAsks(s, u);
      OneMode(q, u);
    }
  }

  /** A task waits in one mode only. */
  lemma OneMode(q: seq<Waiter>, u: Task)
    requires Distinct(q)
    ensures !(Waiter(u, true) in q && Waiter(u, false) in q)
  {
  }

  /** Whoever is served by a hand-off that does not begin with a writer waited as a reader. */
  lemma PrefixAsks(s: Lock, u: Task)
    requires s.waiting != [] && !s.waiting[0].forWrite && s.writer.None? && u in HandOff(s).rescheduled
    ensures Waiter(u, false) in s.waiting
  {
    var q := s.waiting;
    FilterMembers(q);
    if !s.readBiased {
      var woken := TasksOf(q[..ReaderPrefix(q)]);
      var i :| 0 <= i < |woken| && woken[i] == u;
      assert q[i] == Waiter(u, false);
    }
  }

  lemma HandOffReader(s: Lock, u: Task)
    requires WellQueued(s) && s.writer.None?
    ensures u in HandOff(s).lock.readers <==>
      u in s.readers || (u in HandOff(s).rescheduled && Waiter(u, false) in s.waiting)
  {
    var q := s.waiting;
    if q != [] && q[0].forWrite {
      assert q[0] == Waiter(q[0].task, true);
      OneMode(q, q[0].task);
    } else if q != [] && u in HandOff(s).rescheduled {
      PrefixAsks(s, u);
    }
  }

  lemma ReleaseModes(s: Lock, t: Task, u: Task)
    requires Consistent(s) && Enabled(s, Release(t))
    ensures var e := ReleaseBy(s, t);
      && (e.lock.writer == Some(u) <==>
            (s.writer == Some(u) && u != t) || (u in e.rescheduled && Waiter(u, true) in s.waiting))
      && (u in e.lock.readers <==>
            (u in s.readers && u != t) || (u in e.rescheduled && Waiter(u, false) in s.waiting))
  {
    if IsHandOff(s, Release(t)) {
      var s1 := if s.writer == Some(t) then s.(writer := None) else s.(readers := {});
      assert ReleaseBy(s, t) == HandOff(s1);
      HandOffWriter(s1, u);
      HandOffReader(s1, u);
    } else {
      assert ReleaseBy(s, t).rescheduled == [];
    }
  }

  lemma SwitchModes(s: Lock, newValue: bool, u: Task)
    requires Consistent(s)
    ensures var e := SetBias(s, newValue);
      && e.lock.writer == s.writer
      && (u in e.rescheduled ==> Waiter(u, false) in s.waiting && Waiter(u, true) !in s.waiting)
      && (u in e.lock.readers <==> u in s.readers || u in e.rescheduled)
  {
    FilterMembers(s.waiting);
    OneMode(s.waiting, u);
  }

  lemma ArrivalModes(s: Lock, step: Step, u: Task)
    requires Consistent(s) && Enabled(s, step) && Arrives(step)
    ensures var e, served := Next(s, step), u in Granted(s, step);
      && (served ==> u == step.task && Waiter(u, true) !in s.waiting && Waiter(u, false) !in s.waiting)
      && (e.lock.writer == Some(u) <==> s.writer == Some(u) || (served && step.forWrite))
      && (u in e.lock.readers <==> u in s.readers || (served && !step.forWrite))
  {
    QueuedIn(s.waiting, step.task);
  }

  /** The writer after a step: the one before it unless it released, or whom the step serves as a writer. */
  lemma WriterAfter(s: Lock, step: Step, u: Task)
    requires Consistent(s) && Enabled(s, step)
    ensures Next(s, step).lock.writer == Some(u) <==>
      (s.writer == Some(u) && step != Release(u)) || (u in Granted(s, step) && Asks(s, step, u, true))
  {
    match step
    case Release(t) => ReleaseModes(s, t, u);
    case SetReadBiased(v) => SwitchModes(s, v, u);
    case CancelWaiter(_) =>
    case _ => ArrivalModes(s, step, u);
  }

  /** The readers after a step, in the same way. */
  lemma ReaderAfter(s: Lock, step: Step, u: Task)
    requires Consistent(s) && Enabled(s, step)
    ensures u in Next(s, step).lock.readers <==>
      (u in s.readers && step != Release(u)) || (u in Granted(s, step) && Asks(s, step, u, false))
  {
    match step
    case Release(t) => ReleaseModes(s, t, u);
    case SetReadBiased(v) => SwitchModes(s, v, u);
    case CancelWaiter(_) =>
    case _ => ArrivalModes(s, step, u);
  }

  /** Who holds the lock after a step: those who did and do not release it, and those it serves. */
  lemma HoldersAfter(s: Lock, step: Step, u: Task)
    requires Consistent(s) && Enabled(s, step)
    ensures Next(s, step).lock.Holds(u) <==> (s.Holds(u) && step != Release(u)) || u in Granted(s, step)
  {
    WriterAfter(s, step, u);
    ReaderAfter(s, step, u);
    GrantedHold(s, step);
    NobodyElseHolds(s, step);
  }

  // ---- Who waits afterwards ----

  lemma HandOffQueue(s: Lock, w: Waiter)
    requires WellQueued(s) && s.writer.None?
    ensures w in HandOff(s).lock.waiting <==> w in s.waiting && w.task !in HandOff(s).rescheduled
  {
    HandOffWakes(s);
    HandOffConsistent(s);
    HandOffLeaves(s);
    LeaversAreServed(s, HandOff(s), w);
  }

  /** Those who stay in the queue are not served, those who leave it are. */
  lemma LeaversAreServed(s: Lock, e: Effect, w: Waiter)
    requires WellQueued(s) && WellQueued(e.lock) && WakesExactly(s, e)
    requires forall v :: v in e.lock.waiting ==> v in s.waiting
    ensures w in e.lock.waiting <==> w in s.waiting && w.task !in e.rescheduled
  {
    QueuedIn(s.waiting, w.task);
    QueuedIn(e.lock.waiting, w.task);
    OneMode(s.waiting, w.task);
    if w in e.lock.waiting {
      var i :| 0 <= i < |e.lock.waiting| && e.lock.waiting[i] == w;
      assert !e.lock.Holds(e.lock.waiting[i].task);
    }
  }

  /** Who waits after a step: those who did, were not served and not cancelled, and an arrival that blocks. */
  lemma QueueAfter(s: Lock, step: Step, w: Waiter)
    requires Consistent(s) && Enabled(s, step)
    ensures w in Next(s, step).lock.waiting <==>
      || (w in s.waiting && w.task !in Granted(s, step) && step != CancelWaiter(w.task))
      || (Next(s, step).outcome.Blocked? && w == Waiter(step.task, step.forWrite))
  {
    match step
    case CancelWaiter(t) => CancelLeaves(s.waiting, t, w);
    case Release(t) =>
      if IsHandOff(s, step) {
        HandOffQueue(if s.writer == Some(t) then s.(writer := None) else s.(readers := {}), w);
      }
    case SetReadBiased(_) =>
      WakeAllWellQueued(s);
      WakeAllWakes(s);
      FilterMembers(s.waiting);
      LeaversAreServed(s, WakeAllReaders(s), w);
    case _ => ArrivalQueued(s, step, w);
  }

  lemma CancelLeaves(q: seq<Waiter>, t: Task, w: Waiter)
    requires Distinct(q) && Queued(q, t)
    ensures w in Without(q, t) <==> w in q && w.task != t
  {
    WithoutMembers(q, t);
    WithoutSplits(q, t);
    var p := Position(q, t);
    forall v | v in q[..p] + q[p + 1..] ensures v.task != t {
      var i :| 0 <= i < |q| && i != p && q[i] == v;
    }
  }

  lemma ArrivalQueued(s: Lock, step: Step, w: Waiter)
    requires Consistent(s) && Enabled(s, step) && Arrives(step)
    ensures w in Next(s, step).lock.waiting <==>
      w in s.waiting || (Next(s, step).outcome.Blocked? && w == Waiter(step.task, step.forWrite))
    ensures w in s.waiting ==> w.task !in Granted(s, step)
  {
    AttemptEnds(s, step);
    QueuedIn(s.waiting, step.task);
    assert w in s.waiting ==> w == Waiter(w.task, w.forWrite);
  }

  // ---- Who is served ----

  /** What the last release of a holder gives the lock to. */
  ghost predicate FirstInLine(s: Lock, t: Task, i: nat)
    requires i < |s.waiting|
  {
    if s.waiting[i].forWrite then i == 0 && s.readers <= {t}
    else if s.readBiased then !s.waiting[0].forWrite
    else forall j :: 0 <= j <= i ==> !s.waiting[j].forWrite
  }

  lemma WokenIff(s: Lock, i: nat)
    requires Distinct(s.waiting) && i < |s.waiting|
    ensures s.waiting[i].task in WakeAllReaders(s).rescheduled <==> !s.waiting[i].forWrite
  {
    var w := s.waiting[i];
    FilterMembers(s.waiting);
    OneMode(s.waiting, w.task);
    assert w == Waiter(w.task, w.forWrite) && w in s.waiting;
  }

  lemma PrefixServedIff(q: seq<Waiter>, k: nat, i: nat)
    requires Distinct(q) && k <= |q| && i < |q|
    ensures q[i].task in TasksOf(q[..k]) <==> i < k
  {
    if i < k {
      assert TasksOf(q[..k])[i] == q[i].task;
    } else {
      LaterNotEarlier(q, k, i);
    }
  }

  lemma HandOffServesIff(s: Lock, t: Task, i: nat)
    requires s.writer.None? && t !in s.readers && Distinct(s.waiting) && i < |s.waiting|
    ensures s.waiting[i].task in HandOff(s).rescheduled <==> FirstInLine(s, t, i)
  {
    var q := s.waiting;
    if q[0].forWrite {
      assert i > 0 ==> q[i].task != q[0].task;
    } else if s.readBiased {
      WokenIff(s, i);
    } else {
      PrefixServedIff(q, ReaderPrefix(q), i);
    }
  }

  /**
    Exactly who is served: by a release that ends the holding, the writer at the head, or
    the readers in front of the first writer, or with the bias all readers if one is first;
    by switching the bias on, all readers; by nothing else anybody who waits.
    */
  lemma ServedIff(s: Lock, step: Step, i: nat)
    requires Consistent(s) && Enabled(s, step) && i < |s.waiting|
    ensures s.waiting[i].task in Granted(s, step) <==>
      match step
      case Release(t) => IsHandOff(s, step) && FirstInLine(s, t, i)
      case SetReadBiased(v) => v && !s.readBiased && !s.waiting[i].forWrite
      case _ => false
  {
    match step
    case Release(t) =>
      if IsHandOff(s, step) {
        HandOffServesIff(if s.writer == Some(t) then s.(writer := None) else s.(readers := {}), t, i);
      }
    case SetReadBiased(v) => WokenIff(s, i);
    case CancelWaiter(_) =>
    case _ => AttemptEnds(s, step);
  }

  /** The mode is changed by its setter alone, and to the value given. */
  lemma ModeAfter(s: Lock, step: Step)
    requires Enabled(s, step)
    ensures Next(s, step).lock.readBiased == (if step.SetReadBiased? then step.newValue else s.readBiased)
    ensures step.SetReadBiased? || step.CancelWaiter? ==> Next(s, step).outcome == Returned
  {
  }

  // ---- Nobody else ----

  lemma HandOffLeaves(s: Lock)
    ensures forall w :: w in HandOff(s).lock.waiting ==> w in s.waiting
  {
    FilterMembers(s.waiting);
  }

  lemma NobodyElseWaits(s: Lock, step: Step)
    requires Enabled(s, step)
    ensures forall w :: w in Next(s, step).lock.waiting ==> w in s.waiting || (Arrives(step) && w.task == step.task)
  {
    match step
    case CancelWaiter(t) => WithoutMembers(s.waiting, t);
    case Release(t) =>
      HandOffLeaves(s.(writer := None));
      HandOffLeaves(s.(readers := s.readers - {t}));
    case SetReadBiased(_) => FilterMembers(s.waiting);
    case _ =>
  }

  lemma NobodyElseHolds(s: Lock, step: Step)
    requires Enabled(s, step)
    ensures forall t :: Next(s, step).lock.Holds(t) ==> s.Holds(t) || t in Granted(s, step)
  {
  }

  lemma GrantedHold(s: Lock, step: Step)
    requires Consistent(s) && Enabled(s, step)
    ensures forall t :: t in Granted(s, step) ==> Next(s, step).lock.Holds(t) && !s.Holds(t)
    ensures !Arrives(step) ==> forall t :: t in Granted(s, step) ==> Queued(s.waiting, t)
  {
    WakesExactlyTheGranted(s, step);
  }

  lemma WriterIsGranted(s: Lock, step: Step)
    requires Consistent(s) && Enabled(s, step) && MakesWriter(s, step)
    ensures Granted(s, step) == [Next(s, step).lock.writer.value]
  {
  }
}
