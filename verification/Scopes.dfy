/** Trio's cancel scopes: a growing table in which every entered scope knows its parent. */
module Scopes {
  import opened Options

  type ScopeId = nat

  datatype Scope = Scope(parent: Option<ScopeId>, shield: bool, cancelCalled: bool)

  type Table = seq<Scope>

  /** Parents are older than their children. */
  ghost predicate Ordered(t: Table) {
    forall i :: 0 <= i < |t| && t[i].parent.Some? ==> t[i].parent.value < i
  }

  /** Cancelled itself, or by a cancelled scope further out with no shield in between. */
  ghost predicate EffectivelyCancelled(t: Table, i: ScopeId)
    requires Ordered(t) && i < |t|
    decreases i
  {
    || t[i].cancelCalled
    || (!t[i].shield && t[i].parent.Some? && EffectivelyCancelled(t, t[i].parent.value))
  }

  /** From inside scope `i` the scope `a` is seen: it encloses `i`, and nothing shields `i` from it. */
  ghost predicate Sees(t: Table, i: ScopeId, a: ScopeId)
    requires Ordered(t) && i < |t|
    decreases i
  {
    i == a || (!t[i].shield && t[i].parent.Some? && Sees(t, t[i].parent.value, a))
  }

  ghost predicate Inside(t: Table, i: ScopeId, a: ScopeId)
    requires Ordered(t) && i < |t|
    decreases i
  {
    i == a || (t[i].parent.Some? && Inside(t, t[i].parent.value, a))
  }

  /** Effective cancellation is being cancelled by some scope in sight. */
  lemma {:induction false} CancelledIffSeen(t: Table, i: ScopeId)
    requires Ordered(t) && i < |t|
    ensures EffectivelyCancelled(t, i) <==>
      exists a :: 0 <= a < |t| && Sees(t, i, a) && t[a].cancelCalled
    decreases i
  {
    if t[i].cancelCalled {
      assert Sees(t, i, i);
    } else if t[i].parent.Some? {
      var p := t[i].parent.value;
      CancelledIffSeen(t, p);
      if EffectivelyCancelled(t, p) && !t[i].shield {
        var a :| 0 <= a < |t| && Sees(t, p, a) && t[a].cancelCalled;
        assert Sees(t, i, a);
      }
    }
  }

  /** A shield hides everything outside of it from everything inside of it. */
  lemma {:induction false} ShieldHides(t: Table, i: ScopeId, s: ScopeId, a: ScopeId)
    requires Ordered(t) && i < |t| && s < |t| && t[s].shield
    requires Inside(t, i, s) && Sees(t, i, a)
    ensures a < |t| && Inside(t, a, s)
    decreases i
  {
    if i != a && i != s {
      ShieldHides(t, t[i].parent.value, s, a);
    }
  }

  // ---- Changes to the table ----

  function ShieldAll(t: Table, ids: set<ScopeId>, v: bool): (r: Table)
    ensures |r| == |t|
  {
    seq(|t|, i requires 0 <= i < |t| => if i in ids then t[i].(shield := v) else t[i])
  }

  function CancelAll(t: Table, ids: set<ScopeId>): (r: Table)
    ensures |r| == |t|
  {
    seq(|t|, i requires 0 <= i < |t| => if i in ids then t[i].(cancelCalled := true) else t[i])
  }

  /** Everything directly inside `from` is moved directly into `to`. */
  function Reparent(t: Table, from: ScopeId, to: ScopeId): (r: Table)
    ensures |r| == |t|
  {
    seq(|t|, i requires 0 <= i < |t| => if t[i].parent == Some(from) then t[i].(parent := Some(to)) else t[i])
  }
}
