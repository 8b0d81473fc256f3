/** When a service nursery protects its children, and that it stops doing so. */
module ServiceNurseryProofs {
  import opened Options
  import opened Scopes
  import opened ServiceNurseryModel

  lemma InitialInv(outer: Table)
    requires Ordered(outer)
    ensures Inv(Initial(outer))
  {
  }

  /** Scopes of the old table are cancelled as before when scopes are added. */
  lemma {:induction false} LongerTable(t: Table, scope: Scope, i: ScopeId)
    requires Ordered(t) && Ordered(t + [scope]) && i < |t|
    ensures EffectivelyCancelled(t + [scope], i) <==> EffectivelyCancelled(t, i)
    decreases i
  {
    if t[i].parent.Some? {
      LongerTable(t, scope, t[i].parent.value);
    }
  }

  /** A nursery just opened lies inside the innermost scope around it, and only that cancels it. */
  lemma NurseryIsInside(outer: Table)
    requires Ordered(outer)
    ensures var s := Initial(outer);
      && Inv(s) && s.nursery == |outer| && s.table[..|outer|] == outer && s.kids == map[] && s.group.shield
      && (outer != [] ==> Inside(s.table, s.nursery, |outer| - 1))
      && (EffectivelyCancelled(s.table, s.nursery) <==> outer != [] && EffectivelyCancelled(outer, |outer| - 1))
  {
    InitialInv(outer);
    if outer != [] {
      LongerTable(outer, Initial(outer).table[|outer|], |outer| - 1);
    }
  }

  /** The temporary nursery of a start() is cancelled exactly with the scope start() is called in. */
  lemma TemporaryIsInside(s: Service, k: KidId, caller: ScopeId)
    requires Inv(s) && Enabled(s, Start(k, caller))
    ensures var s' := Next(s, Start(k, caller));
      && Ordered(s'.table) && k in s'.kids && s'.kids[k].home < |s'.table|
      && Inside(s'.table, s'.kids[k].home, caller)
      && (EffectivelyCancelled(s'.table, s'.kids[k].home) <==> EffectivelyCancelled(s.table, caller))
  {
    var s' := Next(s, Start(k, caller));
    LongerTable(s.table, s'.table[|s.table|], caller);
    assert Inside(s'.table, caller, caller);
  }

  // ---- Every step keeps the invariant ----

  /** Nothing that the invariant says about child `k` differs between the two states. */
  predicate SameKid(s: Service, s': Service, k: KidId)
    requires k in s.kids
  {
    var kid := s.kids[k];
    && k in s'.kids && s'.kids[k] == kid
    && s'.nursery == s.nursery && s'.bodyExited == s.bodyExited
    && s'.Protected(k) == s.Protected(k)
    && |s.table| <= |s'.table|
    && kid.home !in s'.group.children
    && (kid.scope.Some? ==>
          && kid.scope.value in s'.group.children
          && (kid.scope.value < |s.table| ==>
                && s'.table[kid.scope.value].parent == s.table[kid.scope.value].parent
                && s'.table[kid.scope.value].shield == s.table[kid.scope.value].shield))
  }

  lemma SameKidInv(s: Service, s': Service, k: KidId)
    requires k in s.kids && KidInv(s, k) && SameKid(s, s', k)
    ensures KidInv(s', k)
  {
  }

  lemma ForeignKeepsInv(s: Service, step: Step)
    requires Inv(s) && Enabled(s, step)
    requires step.NewScope? || step.CancelScope? || step.ShieldScope? || step.MoveScopes?
    ensures Inv(Next(s, step))
  {
    var s' := Next(s, step);
    assert Ordered(s'.table) && GroupInv(s');
    forall k | k in s'.kids ensures KidInv(s', k) {
      assert KidInv(s, k);
      SameKidInv(s, s', k);
    }
  }

  lemma StartSoonKeepsInv(s: Service, k: KidId)
    requires Inv(s) && Enabled(s, StartSoon(k))
    ensures Inv(Next(s, StartSoon(k)))
  {
    var s' := Next(s, StartSoon(k));
    forall l | l in s.kids ensures KidInv(s', l) {
      assert KidInv(s, l);
      SameKidInv(s, s', l);
    }
  }

  lemma StartKeepsInv(s: Service, k: KidId, caller: ScopeId)
    requires Inv(s) && Enabled(s, Start(k, caller))
    ensures Inv(Next(s, Start(k, caller)))
  {
    var s' := Next(s, Start(k, caller));
    assert Ordered(s'.table) && GroupInv(s');
    forall l | l in s.kids ensures KidInv(s', l) && s.kids[l].home < |s.table| {
      assert KidInv(s, l);
      SameKidInv(s, s', l);
    }
    assert KidInv(s', k);
  }

  lemma FirstStepKeepsInv(s: Service, k: KidId)
    requires Inv(s) && Enabled(s, FirstStep(k))
    ensures Inv(Next(s, FirstStep(k)))
  {
    var s' := Next(s, FirstStep(k));
    assert KidInv(s, k) && KidInv(s', k);
    assert Ordered(s'.table) && GroupInv(s');
    forall l | l in s.kids && l != k
      ensures KidInv(s', l) && (s.kids[l].scope.Some? ==> s.kids[l].scope.value < |s.table|)
    {
      assert KidInv(s, l);
      SameKidInv(s, s', l);
    }
  }

  /** The move concerns one child: no other child runs in its temporary nursery. */
  lemma MoveKeepsKid(s: Service, k: KidId, l: KidId)
    requires Inv(s) && Enabled(s, Started(k)) && l in s.kids && l != k
    ensures SameKid(s, Move(s, k), l)
  {
    assert KidInv(s, k) && KidInv(s, l);
    assert Apart(s, s.kids[k], s.kids[l]);
  }

  lemma MoveKeepsInv(s: Service, k: KidId)
    requires Inv(s) && Enabled(s, Started(k))
    ensures Inv(Move(s, k))
  {
    var s' := Move(s, k);
    assert KidInv(s, k);
    assert Ordered(s'.table) && GroupInv(s') && KidInv(s', k);
    forall l | l in s.kids && l != k ensures KidInv(s', l) {
      assert KidInv(s, l);
      MoveKeepsKid(s, k, l);
      SameKidInv(s, s', l);
    }
    assert forall l :: l in s.kids && l != k ==> Apart(s, s.kids[k], s.kids[l]) && Apart(s, s.kids[l], s.kids[k]);
  }

  lemma StartedKeepsInv(s: Service, k: KidId)
    requires Inv(s) && Enabled(s, Started(k))
    ensures Inv(Next(s, Started(k)))
  {
    if !EffectivelyCancelled(s.table, s.kids[k].home) {
      MoveKeepsInv(s, k);
    } else {
      var s' := Next(s, Started(k));
      assert KidInv(s, k) && KidInv(s', k);
      forall l | l in s.kids && l != k ensures KidInv(s', l) {
        assert KidInv(s, l);
        SameKidInv(s, s', l);
      }
    }
  }

  lemma HandShieldKeepsInv(s: Service)
    requires Inv(s) && Enabled(s, HandShield)
    ensures Inv(Next(s, HandShield))
  {
    var s', k := Next(s, HandShield), s.moving.value;
    assert KidInv(s, k) && KidInv(s', k);
    assert Ordered(s'.table) && GroupInv(s');
    forall l | l in s.kids && l != k ensures KidInv(s', l) {
      assert KidInv(s, l) && Apart(s, s.kids[l], s.kids[k]);
      SameKidInv(s, s', l);
    }
  }

  lemma BodyExitKeepsInv(s: Service)
    requires Inv(s) && Enabled(s, BodyExit)
    ensures Inv(Next(s, BodyExit))
  {
    var s' := Next(s, BodyExit);
    assert Ordered(s'.table) && GroupInv(s');
    forall k | k in s'.kids ensures KidInv(s', k) {
      assert KidInv(s, k);
    }
  }

  lemma ExitKeepsInv(s: Service, k: KidId)
    requires Inv(s) && Enabled(s, Exit(k))
    ensures Inv(Next(s, Exit(k)))
  {
    var s' := Next(s, Exit(k));
    forall l | l in s'.kids ensures KidInv(s', l) {
      assert KidInv(s, l);
      SameKidInv(s, s', l);
    }
  }

  lemma StepKeepsInv(s: Service, step: Step)
    requires Inv(s) && Enabled(s, step)
    ensures Inv(Next(s, step))
  {
    match step
    case StartSoon(k) => StartSoonKeepsInv(s, k);
    case Start(k, c) => StartKeepsInv(s, k, c);
    case FirstStep(k) => FirstStepKeepsInv(s, k);
    case Started(k) => StartedKeepsInv(s, k);
    case HandShield => HandShieldKeepsInv(s);
    case Exit(k) => ExitKeepsInv(s, k);
    case BodyExit => BodyExitKeepsInv(s);
    case _ => ForeignKeepsInv(s, step);
  }

  // ---- Runs ----

  ghost predicate Legal(s: Service, steps: seq<Step>)
    requires Inv(s)
    decreases steps
  {
    steps == [] || (
      && Enabled(s, steps[0])
      && (StepKeepsInv(s, steps[0]); Legal(Next(s, steps[0]), steps[1..])))
  }

  ghost function Final(s: Service, steps: seq<Step>): Service
    requires Inv(s) && Legal(s, steps)
    decreases steps
  {
    if steps == [] then s
    else
      StepKeepsInv(s, steps[0]);
      Final(Next(s, steps[0]), steps[1..])
  }

  lemma {:induction false} RunKeepsInv(s: Service, steps: seq<Step>)
    requires Inv(s) && Legal(s, steps)
    ensures Inv(Final(s, steps))
    decreases steps
  {
    if steps != [] {
      StepKeepsInv(s, steps[0]);
      RunKeepsInv(Next(s, steps[0]), steps[1..]);
    }
  }

  lemma RunBegins(s: Service, step: Step, rest: seq<Step>)
    requires Inv(s) && Enabled(s, step) && Inv(Next(s, step)) && Legal(Next(s, step), rest)
    ensures Legal(s, [step] + rest) && Final(s, [step] + rest) == Final(Next(s, step), rest)
  {
    assert ([step] + rest)[1..] == rest;
  }

  lemma {:induction false} RunEnds(s: Service, steps: seq<Step>, step: Step)
    requires Inv(s) && Legal(s, steps) && Inv(Final(s, steps)) && Enabled(Final(s, steps), step)
    requires Inv(Next(Final(s, steps), step))
    ensures Legal(s, steps + [step]) && Final(s, steps + [step]) == Next(Final(s, steps), step)
    decreases steps
  {
    if steps == [] {
      assert steps + [step] == [step];
    } else {
      StepKeepsInv(s, steps[0]);
      RunEnds(Next(s, steps[0]), steps[1..], step);
      assert (steps + [step])[1..] == steps[1..] + [step];
    }
  }

  // ---- Protection ----

  /** What cancels a child, in every reachable state: nothing while protected, else its home. */
  lemma ChildCancelledIff(s: Service, k: KidId)
    requires Inv(s) && k in s.kids && s.kids[k].scope.Some?
    ensures s.kids[k].scope.value < |s.table| && s.kids[k].home < |s.table|
    ensures EffectivelyCancelled(s.table, s.kids[k].scope.value) <==>
      (s.bodyExited || !s.Protected(k)) && EffectivelyCancelled(s.table, s.kids[k].home)
  {
    assert KidInv(s, k);
  }

  /** Moving things out of `from` changes nothing for the scopes that are older. */
  lemma {:induction false} ReparentOlder(t: Table, from: ScopeId, to: ScopeId, i: ScopeId)
    requires Ordered(t) && Ordered(Reparent(t, from, to)) && i <= from && i < |t|
    ensures EffectivelyCancelled(Reparent(t, from, to), i) <==> EffectivelyCancelled(t, i)
    decreases i
  {
    if t[i].parent.Some? {
      ReparentOlder(t, from, to, t[i].parent.value);
    }
  }

  /**
    In the middle of started() a moved child does not have its shield yet: it is cancelled
    at that moment exactly if the nursery was when started() was called.
    */
  lemma MovedIsExposedIff(s: Service, k: KidId)
    requires Inv(s) && Enabled(s, Started(k)) && !EffectivelyCancelled(s.table, s.kids[k].home)
    ensures var s' := Next(s, Started(k));
      && Inv(s') && k in s'.kids && s'.kids[k].scope.Some? && s'.kids[k].scope.value < |s'.table|
      && (EffectivelyCancelled(s'.table, s'.kids[k].scope.value) <==> EffectivelyCancelled(s.table, s.nursery))
  {
    assert KidInv(s, k);
    MoveKeepsInv(s, k);
    ChildCancelledIff(Move(s, k), k);
    ReparentOlder(s.table, s.kids[k].home, s.nursery, s.nursery);
  }

  /** What the documentation promises of child `k`: it is not cancelled before the body has exited. */
  ghost predicate SparedNow(s: Service, k: KidId)
    requires Inv(s)
  {
    k in s.kids && s.kids[k].Promised() && !s.bodyExited ==>
      (ChildCancelledIff(s, k); !EffectivelyCancelled(s.table, s.kids[k].scope.value))
  }

  /** A call of started() that moves the child into a nursery that is cancelled already. */
  ghost predicate Exposes(s: Service, step: Step, k: KidId)
    requires Inv(s) && Enabled(s, step)
  {
    && step == Started(k)
    && !s.bodyExited
    && EffectivelyCancelled(s.table, s.nursery)
    && (assert KidInv(s, k); !EffectivelyCancelled(s.table, s.kids[k].home))
  }

  /** A step brings a promised child into reach of a cancellation exactly if it is such a call. */
  lemma StepSparesIff(s: Service, step: Step, k: KidId)
    requires Inv(s) && Enabled(s, step)
    ensures Inv(Next(s, step))
    ensures SparedNow(Next(s, step), k) <==> !Exposes(s, step, k)
  {
    StepKeepsInv(s, step);
    var s' := Next(s, step);
    if step == Started(k) && s'.kids[k].moved && !s'.bodyExited {
      assert KidInv(s, k);
      MovedIsExposedIff(s, k);
    } else if k in s'.kids && s'.kids[k].Promised() {
      ChildCancelledIff(s', k);
    }
  }

  ghost predicate Spared(s: Service, steps: seq<Step>, k: KidId)
    requires Inv(s) && Legal(s, steps)
    decreases steps
  {
    && SparedNow(s, k)
    && (steps != [] ==> (StepKeepsInv(s, steps[0]); Spared(Next(s, steps[0]), steps[1..], k)))
  }

  ghost predicate NeverExposed(s: Service, steps: seq<Step>, k: KidId)
    requires Inv(s) && Legal(s, steps)
    decreases steps
  {
    steps == [] || (
      && !Exposes(s, steps[0], k)
      && (StepKeepsInv(s, steps[0]); NeverExposed(Next(s, steps[0]), steps[1..], k)))
  }

  lemma {:induction false} RunSparesIff(s: Service, steps: seq<Step>, k: KidId)
    requires Inv(s) && Legal(s, steps)
    ensures Spared(s, steps, k) <==> SparedNow(s, k) && NeverExposed(s, steps, k)
    decreases steps
  {
    if steps != [] {
      StepSparesIff(s, steps[0], k);
      RunSparesIff(Next(s, steps[0]), steps[1..], k);
    }
  }

  /**
    The ordering promise, over every interleaving and at every moment, the middle of
    started() included: no child that entered its scope, and no child that was moved, is
    cancelled by anything before the body has exited, if and only if no call of started()
    moves it into a nursery that is cancelled already.
    */
  lemma BodyFirst(outer: Table, steps: seq<Step>, k: KidId)
    requires Ordered(outer) && Inv(Initial(outer)) && Legal(Initial(outer), steps)
    ensures Spared(Initial(outer), steps, k) <==> NeverExposed(Initial(outer), steps, k)
  {
    RunSparesIff(Initial(outer), steps, k);
  }

  // ---- Tasks that joined a temporary nursery ----

  /** A scope of a task that runs in the nursery without a scope of the group. */
  predicate Bare(s: Service, i: ScopeId) {
    Foreign(s, i) && s.table[i].parent == Some(s.nursery) && !s.table[i].shield
  }

  /**
    Trio's started() moves everything in the temporary nursery. What another task put there
    comes into the nursery too, and gets no shield.
    */
  lemma JoinedIsMovedBare(s: Service, k: KidId, i: ScopeId)
    requires Inv(s) && Enabled(s, Started(k)) && !EffectivelyCancelled(s.table, s.kids[k].home)
    requires Foreign(s, i) && s.table[i].parent == Some(s.kids[k].home) && !s.table[i].shield
    ensures var s1 := Next(s, Started(k));
      Inv(s1) && Bare(s1, i) && Enabled(s1, HandShield) && Bare(Next(s1, HandShield), i)
  {
    assert KidInv(s, k);
    StepKeepsInv(s, Started(k));
    assert KidInv(Next(s, Started(k)), k);
  }

  lemma StepKeepsBare(s: Service, step: Step, i: ScopeId)
    requires Inv(s) && Enabled(s, step) && Bare(s, i) && step != ShieldScope(i, true)
    ensures Bare(Next(s, step), i)
  {
    if step.Started? {
      assert KidInv(s, step.kid);
    } else if step.HandShield? {
      assert KidInv(s, s.moving.value);
    }
  }

  /**
    From then on, and until other code shields it, such a task is cancelled exactly with the
    nursery or by itself, whether the body has exited or not.
    */
  lemma {:induction false} JoinedStaysBare(s: Service, steps: seq<Step>, i: ScopeId)
    requires Inv(s) && Legal(s, steps) && Bare(s, i) && ShieldScope(i, true) !in steps
    ensures var s' := Final(s, steps);
      && Inv(s') && Bare(s', i)
      && (EffectivelyCancelled(s'.table, i) <==>
            s'.table[i].cancelCalled || EffectivelyCancelled(s'.table, s'.nursery))
    decreases steps
  {
    if steps != [] {
      StepKeepsInv(s, steps[0]);
      StepKeepsBare(s, steps[0], i);
      JoinedStaysBare(Next(s, steps[0]), steps[1..], i);
    }
  }

  /** Inside a protected child only scopes of the child itself can cancel anything. */
  lemma OnlyOwnScopesCancel(s: Service, k: KidId, i: ScopeId)
    requires Inv(s) && !s.bodyExited && s.Protected(k)
    requires i < |s.table| && Inside(s.table, i, s.kids[k].scope.value)
    requires EffectivelyCancelled(s.table, i)
    ensures exists a :: (
      && 0 <= a < |s.table| && s.table[a].cancelCalled && Sees(s.table, i, a)
      && Inside(s.table, a, s.kids[k].scope.value) && a != s.kids[k].scope.value)
  {
    assert KidInv(s, k);
    CancelledIffSeen(s.table, i);
    var a :| 0 <= a < |s.table| && Sees(s.table, i, a) && s.table[a].cancelCalled;
    ShieldHides(s.table, i, s.kids[k].scope.value, a);
  }

  /** The group only ever delays cancellation; it never adds any. */
  lemma {:induction false} NeverMoreThanPlain(s: Service, i: ScopeId)
    requires Inv(s) && i < |s.table| && EffectivelyCancelled(s.table, i)
    ensures PlainCancelled(s.table, s.group.children, i)
    decreases i
  {
    if !s.table[i].cancelCalled {
      NeverMoreThanPlain(s, s.table[i].parent.value);
    }
  }

  /** After the body has exited, every scope anywhere is cancelled exactly as in a plain nursery. */
  lemma {:induction false} ProtectionEnds(s: Service, i: ScopeId)
    requires Inv(s) && s.bodyExited && i < |s.table|
    ensures EffectivelyCancelled(s.table, i) <==> PlainCancelled(s.table, s.group.children, i)
    decreases i
  {
    if s.table[i].parent.Some? {
      ProtectionEnds(s, s.table[i].parent.value);
    }
  }

  /** Over every run: once the body has exited it stays so, for late children and late started() too. */
  lemma {:induction false} ProtectionStaysOff(s: Service, steps: seq<Step>, i: ScopeId)
    requires Inv(s) && s.bodyExited && Legal(s, steps) && i < |Final(s, steps).table|
    ensures var s' := Final(s, steps);
      && Inv(s')
      && s'.bodyExited
      && (EffectivelyCancelled(s'.table, i) <==> PlainCancelled(s'.table, s'.group.children, i))
      && (i in s'.group.children ==> !s'.table[i].shield)
    decreases steps
  {
    if steps == [] {
      ProtectionEnds(s, i);
    } else {
      StepKeepsInv(s, steps[0]);
      ProtectionStaysOff(Next(s, steps[0]), steps[1..], i);
    }
  }

  /** A start() child is unprotected up to started(), and stays so if it is not moved. */
  lemma StartingChildIsPlain(s: Service, k: KidId)
    requires Inv(s) && k in s.kids && s.kids[k].scope.Some? && s.kids[k].viaStart && !s.kids[k].moved
    ensures s.kids[k].scope.value < |s.table| && s.kids[k].home < |s.table|
    ensures EffectivelyCancelled(s.table, s.kids[k].scope.value) <==>
      EffectivelyCancelled(s.table, s.kids[k].home)
  {
    ChildCancelledIff(s, k);
  }

  /**
    Both halves of started(): a child that is found cancelled stays where it is, without a
    shield; any other child is exposed exactly to the nursery and then protected.
    */
  lemma StartedProtectsIff(s: Service, k: KidId)
    requires Inv(s) && Enabled(s, Started(k))
    ensures s.kids[k].scope.value < |s.table|
    ensures var s1 := Next(s, Started(k));
      if EffectivelyCancelled(s.table, s.kids[k].scope.value) then
        && Inv(s1) && s1.moving.None? && k in s1.kids && !s1.kids[k].Promised()
        && s1.table == s.table
      else
        && Inv(s1) && Enabled(s1, HandShield)
        && var s2 := Next(s1, HandShield);
          && Inv(s2) && s2.Protected(k) && s2.kids[k].scope.value < |s2.table|
          && (s2.table[s2.kids[k].scope.value].shield <==> !s.bodyExited)
  {
    assert KidInv(s, k);
    StartingChildIsPlain(s, k);
    StartedKeepsInv(s, k);
    var s1 := Next(s, Started(k));
    assert KidInv(s1, k);
    if s1.moving.Some? {
      HandShieldKeepsInv(s1);
      assert KidInv(Next(s1, HandShield), k);
    }
  }

  lemma {:induction false} NoStartedNoExposure(s: Service, steps: seq<Step>, k: KidId)
    requires Inv(s) && Legal(s, steps) && Started(k) !in steps
    ensures NeverExposed(s, steps, k)
    decreases steps
  {
    if steps != [] {
      StepKeepsInv(s, steps[0]);
      NoStartedNoExposure(Next(s, steps[0]), steps[1..], k);
    }
  }
}
