/** Short runs that show what a service nursery is for, and where its promise ends. */
module ServiceNurseryExamples {
  import opened Options
  import opened Scopes
  import opened ServiceNurseryModel
  import opened ServiceNurseryProofs

  /** A child of the nursery runs in scope 1, and then the nursery, scope 0, is cancelled. */
  const SERVING := Service(
    [Scope(None, false, true), Scope(Some(0), true, false)],
    MultiCancel.Group({1}, true, false), 0, false, map[0 := Kid(0, false, Some(1), false, false)], None)

  lemma ServingEnds(s: Service)
    requires Inv(s) && s == SERVING.(table := [Scope(None, false, false), Scope(Some(0), true, false)])
    ensures Inv(SERVING) && Legal(s, [CancelScope(0)]) && Final(s, [CancelScope(0)]) == SERVING
  {
    StepKeepsInv(s, CancelScope(0));
    assert Next(s, CancelScope(0)) == SERVING;
    RunBegins(s, CancelScope(0), []);
  }

  lemma ServingRun()
    ensures var steps := [StartSoon(0), FirstStep(0), CancelScope(0)];
      Inv(Initial([])) && Legal(Initial([]), steps) && Final(Initial([]), steps) == SERVING && Inv(SERVING)
  {
    var a, b, c := StartSoon(0), FirstStep(0), CancelScope(0);
    var s0 := Initial([]);
    StepKeepsInv(s0, a);
    var s1 := Next(s0, a);
    StepKeepsInv(s1, b);
    ServingEnds(Next(s1, b));
    RunBegins(s1, b, [c]);
    RunBegins(s0, a, [b, c]);
    assert [b] + [c] == [b, c] && [a] + [b, c] == [a, b, c];
  }

  /**
    The situation the service nursery is for is reachable: the nursery is cancelled, its
    child is not; after the body has exited, the child is.
    */
  lemma CancelledNurserySparesChild()
    ensures Inv(Initial([])) && Legal(Initial([]), [StartSoon(0), FirstStep(0), CancelScope(0)])
    ensures var s := Final(Initial([]), [StartSoon(0), FirstStep(0), CancelScope(0)]);
      && Inv(s) && Enabled(s, BodyExit) && |s.table| == 2
      && EffectivelyCancelled(s.table, s.nursery)
      && !EffectivelyCancelled(s.table, 1)
      && Inv(Next(s, BodyExit)) && |Next(s, BodyExit).table| == 2
      && EffectivelyCancelled(Next(s, BodyExit).table, 1)
  {
    ServingRun();
    StepKeepsInv(SERVING, BodyExit);
    ChildCancelledIff(SERVING, 0);
    ChildCancelledIff(Next(SERVING, BodyExit), 0);
  }

  const CALLS := [NewScope(Some(0), true), Start(0, 1), FirstStep(0), CancelScope(0)]

  /** What these steps lead to: scopes 0 to 3 are nursery, shield, temporary nursery and child. */
  const WAITING := Service(
    [Scope(None, false, true), Scope(Some(0), true, false), Scope(Some(1), false, false), Scope(Some(2), false, false)],
    MultiCancel.Group({3}, true, false), 0, false, map[0 := Kid(2, true, Some(3), false, false)], None)

  /** The state in the middle of these steps. */
  const STARTING := Service(
    [Scope(None, false, false), Scope(Some(0), true, false), Scope(Some(1), false, false)],
    MultiCancel.Group({}, true, false), 0, false, map[0 := Kid(2, true, None, false, false)], None)

  lemma CallsStart()
    ensures Inv(Initial([])) && Inv(STARTING)
    ensures forall rest :: Legal(STARTING, rest) ==>
      var steps := [CALLS[0]] + ([CALLS[1]] + rest);
      Legal(Initial([]), steps) && Final(Initial([]), steps) == Final(STARTING, rest)
  {
    var s0 := Initial([]);
    StepKeepsInv(s0, CALLS[0]);
    var s1 := Next(s0, CALLS[0]);
    StepKeepsInv(s1, CALLS[1]);
    assert Next(s1, CALLS[1]) == STARTING;
    forall rest | Legal(STARTING, rest)
      ensures var steps := [CALLS[0]] + ([CALLS[1]] + rest);
        Legal(s0, steps) && Final(s0, steps) == Final(STARTING, rest)
    {
      RunBegins(s1, CALLS[1], rest);
      RunBegins(s0, CALLS[0], [CALLS[1]] + rest);
    }
  }

  lemma CallsEnd()
    requires Inv(STARTING)
    ensures Inv(WAITING)
    ensures Legal(STARTING, [CALLS[2], CALLS[3]]) && Final(STARTING, [CALLS[2], CALLS[3]]) == WAITING
  {
    StepKeepsInv(STARTING, CALLS[2]);
    var s3 := Next(STARTING, CALLS[2]);
    StepKeepsInv(s3, CALLS[3]);
    assert Next(s3, CALLS[3]) == WAITING;
    RunBegins(s3, CALLS[3], []);
    RunBegins(STARTING, CALLS[2], [CALLS[3]]);
    assert [CALLS[2]] + [CALLS[3]] == [CALLS[2], CALLS[3]];
  }

  lemma CallsLeadToWaiting()
    ensures Inv(Initial([])) && Legal(Initial([]), CALLS) && Final(Initial([]), CALLS) == WAITING && Inv(WAITING)
  {
    CallsStart();
    CallsEnd();
    assert [CALLS[0]] + ([CALLS[1]] + [CALLS[2], CALLS[3]]) == CALLS;
  }

  /**
    The exposing call is reachable. The nursery is cancelled; its body, shielded, waits for
    start(); the new child does not call started() itself. When another task does, the child is
    cancelled while it is moved, although the body has not exited.
    */
  lemma MovedIntoCancelledNursery()
    ensures Inv(Initial([])) && Legal(Initial([]), CALLS) && Inv(Final(Initial([]), CALLS))
    ensures var s := Final(Initial([]), CALLS);
      && !s.bodyExited && Enabled(s, Started(0)) && Exposes(s, Started(0), 0)
      && var s' := Next(s, Started(0));
        Inv(s') && !SparedNow(s', 0) && Enabled(s', HandShield) &&
        Inv(Next(s', HandShield)) && SparedNow(Next(s', HandShield), 0)
  {
    CallsLeadToWaiting();
    assert !EffectivelyCancelled(WAITING.table, 1) && !EffectivelyCancelled(WAITING.table, 2);
    assert Exposes(WAITING, Started(0), 0);
    StepSparesIff(WAITING, Started(0), 0);
    StepSparesIff(Next(WAITING, Started(0)), HandShield, 0);
  }

  /** Child 0 in scope 2 is being started; scope 3 is of a task that joined its temporary nursery, scope 1. */
  const JOINED := Service(
    [Scope(None, false, false), Scope(Some(0), false, false),
     Scope(Some(1), false, false), Scope(Some(1), false, false)],
    MultiCancel.Group({2}, true, false), 0, false, map[0 := Kid(1, true, Some(2), false, false)], None)

  const JOIN := [Start(0, 0), FirstStep(0), NewScope(Some(1), false)]

  /** The same before the other task joined. */
  const STARTED := JOINED.(table := JOINED.table[..3])

  lemma JoinBegins()
    ensures Inv(Initial([])) && Inv(STARTED)
    ensures Legal(Initial([]), JOIN[..2]) && Final(Initial([]), JOIN[..2]) == STARTED
  {
    var s0 := Initial([]);
    StepKeepsInv(s0, JOIN[0]);
    var s1 := Next(s0, JOIN[0]);
    StepKeepsInv(s1, JOIN[1]);
    assert Next(s1, JOIN[1]) == STARTED;
    RunBegins(s1, JOIN[1], []);
    RunBegins(s0, JOIN[0], [JOIN[1]]);
    assert [JOIN[1]] + [] == [JOIN[1]] && [JOIN[0]] + [JOIN[1]] == JOIN[..2];
  }

  lemma JoinRun()
    ensures Inv(Initial([])) && Legal(Initial([]), JOIN) && Final(Initial([]), JOIN) == JOINED && Inv(JOINED)
    ensures NeverExposed(Initial([]), JOIN, 0)
  {
    JoinBegins();
    StepKeepsInv(STARTED, JOIN[2]);
    assert Next(STARTED, JOIN[2]) == JOINED;
    RunEnds(Initial([]), JOIN[..2], JOIN[2]);
    assert JOIN[..2] + [JOIN[2]] == JOIN;
    NoStartedNoExposure(Initial([]), JOIN, 0);
  }

  /**
    The promise does not extend to a task that joined. The nursery is cancelled only after
    started(), which exposes nobody; child 0 is spared, the task that joined is not, and the
    body has not exited.
    */
  lemma JoinedTaskIsNotSpared()
    ensures Inv(JOINED) && Inv(Initial([])) && Legal(Initial([]), JOIN) && Final(Initial([]), JOIN) == JOINED
    ensures NeverExposed(Initial([]), JOIN, 0)
    ensures Enabled(JOINED, Started(0)) && !Exposes(JOINED, Started(0), 0)
    ensures var s1 := Next(JOINED, Started(0));
      && Inv(s1) && Enabled(s1, HandShield)
      && var s2 := Next(s1, HandShield);
        && Inv(s2) && Enabled(s2, CancelScope(0)) && Inv(Next(s2, CancelScope(0)))
        && var s3 := Next(s2, CancelScope(0));
          && !s3.bodyExited && s3.Protected(0) && SparedNow(s3, 0)
          && 3 < |s3.table| && !s3.table[3].cancelCalled && EffectivelyCancelled(s3.table, 3)
  {
    JoinRun();
    assert !EffectivelyCancelled(JOINED.table, 0) && !EffectivelyCancelled(JOINED.table, 1);
    JoinedIsMovedBare(JOINED, 0, 3);
    var s1 := Next(JOINED, Started(0));
    StepKeepsInv(s1, HandShield);
    var s2 := Next(s1, HandShield);
    StepKeepsBare(s2, CancelScope(0), 3);
    StepSparesIff(s2, CancelScope(0), 0);
  }
}
