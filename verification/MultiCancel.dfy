/** A group of cancel scopes that is shielded and cancelled as a unit. */
module MultiCancel {
  import opened Options
  import opened Scopes

  // ---- The group as a value ----

  datatype Group = Group(children: set<ScopeId>, shield: bool, cancelCalled: bool)

  datatype System = System(table: Table, group: Group)

  datatype Step =
    | SetShield(value: bool)
    | Cancel
    | OpenChild(shield: Option<bool>)
    // What others may do at any time: with a child of the group, with any other scope, ...
    | CancelOne(id: ScopeId)
    | ShieldOne(id: ScopeId, value: bool)
    | NewScope(scope: Scope)
    // ... and a child that nobody refers to any more disappears from the weak set.
    | Collect(id: ScopeId)

  predicate Enabled(s: System, step: Step) {
    match step
    case CancelOne(i) => i < |s.table|
    case ShieldOne(i, _) => i < |s.table|
    case _ => true
  }

  function Next(s: System, step: Step): System
    requires Enabled(s, step)
  {
    var t, g := s.table, s.group;
    match step
    case SetShield(v) => System(ShieldAll(t, g.children, v), g.(shield := v))
    case Cancel => if g.cancelCalled then s else System(CancelAll(t, g.children), g.(cancelCalled := true))
    case OpenChild(v) =>
      System(t + [Scope(None, if v.Some? then v.value else g.shield, g.cancelCalled)],
             g.(children := g.children + {|t|}))
    case CancelOne(i) => s.(table := t[i := t[i].(cancelCalled := true)])
    case ShieldOne(i, v) => s.(table := t[i := t[i].(shield := v)])
    case NewScope(scope) => s.(table := t + [scope])
    case Collect(i) => s.(group := g.(children := g.children - {i}))
  }

  ghost predicate Valid(s: System) {
    forall i :: i in s.group.children ==>
      i < |s.table| && (s.group.cancelCalled ==> s.table[i].cancelCalled)
  }

  predicate Legal(s: System, steps: seq<Step>)
    decreases steps
  {
    steps == [] || (Enabled(s, steps[0]) && Legal(Next(s, steps[0]), steps[1..]))
  }

  function Final(s: System, steps: seq<Step>): System
    requires Legal(s, steps)
    decreases steps
  {
    if steps == [] then s else Final(Next(s, steps[0]), steps[1..])
  }

  /** In every run a cancelled group has only cancelled children, late ones included. */
  lemma {:induction false} CancelledGroup(s: System, steps: seq<Step>)
    requires Valid(s) && Legal(s, steps)
    ensures Valid(Final(s, steps))
    ensures s.group.cancelCalled ==> Final(s, steps).group.cancelCalled
    decreases steps
  {
    if steps != [] {
      CancelledGroup(Next(s, steps[0]), steps[1..]);
    }
  }

  /** The group is cancelled by `Cancel` and by nothing else, and stays so. */
  lemma {:induction false} GroupCancelledIff(s: System, steps: seq<Step>)
    requires Legal(s, steps)
    ensures Final(s, steps).group.cancelCalled <==> s.group.cancelCalled || Cancel in steps
    decreases steps
  {
    if steps != [] {
      assert steps == [steps[0]] + steps[1..];
      GroupCancelledIff(Next(s, steps[0]), steps[1..]);
    }
  }

  /** After `Cancel` every child that is still there is cancelled, whether it was opened before or after. */
  lemma CancelReachesAll(s: System, steps: seq<Step>)
    requires Valid(s) && Legal(s, steps) && Cancel in steps
    ensures var s' := Final(s, steps);
      s'.group.cancelCalled && forall i :: i in s'.group.children ==> i < |s'.table| && s'.table[i].cancelCalled
  {
    GroupCancelledIff(s, steps);
    CancelledGroup(s, steps);
  }

  /** A child is cancelled by the group or by itself, and by nothing else. */
  lemma {:induction false} ChildCancelledIff(s: System, steps: seq<Step>, i: ScopeId)
    requires Valid(s) && Legal(s, steps) && i in s.group.children && Collect(i) !in steps
    ensures i in Final(s, steps).group.children && i < |Final(s, steps).table|
    ensures Final(s, steps).table[i].cancelCalled <==>
      s.table[i].cancelCalled || (Cancel in steps) || CancelOne(i) in steps
    decreases steps
  {
    if steps != [] {
      assert steps == [steps[0]] + steps[1..];
      ChildCancelledIff(Next(s, steps[0]), steps[1..], i);
    }
  }

  /** A child opened later has the state the group has then. */
  lemma LateChild(s: System, steps: seq<Step>, shield: Option<bool>)
    requires Valid(s) && Legal(s, steps)
    ensures var s1 := Final(s, steps);
      var s2, i := Next(s1, OpenChild(shield)), |s1.table|;
      && i in s2.group.children && i < |s2.table|
      && s2.table[i].cancelCalled == (s.group.cancelCalled || Cancel in steps)
      && s2.table[i].shield == if shield.Some? then shield.value else LastGroupShield(steps, s.group.shield)
  {
    GroupCancelledIff(s, steps);
    GroupShieldIs(s, steps);
  }

  /** The last setting made on the group. */
  function LastGroupShield(steps: seq<Step>, before: bool): bool {
    if steps == [] then before
    else LastGroupShield(steps[1..], if steps[0].SetShield? then steps[0].value else before)
  }

  lemma {:induction false} GroupShieldIs(s: System, steps: seq<Step>)
    requires Legal(s, steps)
    ensures Final(s, steps).group.shield == LastGroupShield(steps, s.group.shield)
    decreases steps
  {
    if steps != [] {
      GroupShieldIs(Next(s, steps[0]), steps[1..]);
    }
  }

  /** The last shield setting that reaches child `i`: the group's, or one made on the child itself. */
  function LastShield(steps: seq<Step>, i: ScopeId, before: bool): bool {
    if steps == [] then before
    else
      var last := steps[|steps| - 1];
      match last
      case SetShield(v) => v
      case ShieldOne(j, v) => if i == j then v else LastShield(steps[..|steps| - 1], i, before)
      case _ => LastShield(steps[..|steps| - 1], i, before)
  }

  predicate Collects(steps: seq<Step>, i: ScopeId) {
    Collect(i) in steps
  }

  lemma {:induction false} FinalSnoc(s: System, steps: seq<Step>)
    requires Legal(s, steps) && steps != []
    ensures var front, last := steps[..|steps| - 1], steps[|steps| - 1];
      && Legal(s, front)
      && Enabled(Final(s, front), last)
      && Final(s, steps) == Next(Final(s, front), last)
    decreases steps
  {
    var front := steps[..|steps| - 1];
    if |steps| > 1 {
      FinalSnoc(Next(s, steps[0]), steps[1..]);
      assert front[1..] == steps[1..][..|steps[1..]| - 1];
    } else {
      assert steps[1..] == [] && front == [];
    }
  }

  /** Children may choose their own shielding, and the next change of the group overrides it. */
  lemma {:induction false} ShieldOverrides(s: System, steps: seq<Step>, i: ScopeId)
    requires Valid(s) && Legal(s, steps) && i in s.group.children && !Collects(steps, i)
    ensures i in Final(s, steps).group.children && i < |Final(s, steps).table|
    ensures Final(s, steps).table[i].shield == LastShield(steps, i, s.table[i].shield)
    decreases |steps|
  {
    if steps != [] {
      FinalSnoc(s, steps);
      ShieldOverrides(s, steps[..|steps| - 1], i);
    }
  }

  // ---- The objects ----

  /** Trio's scopes, shared by everybody. */
  class ScopeTable {
    var scopes: Table

    constructor (scopes: Table)
      ensures this.scopes == scopes
    {
      this.scopes := scopes;
    }

    method Open(scope: Scope) returns (id: ScopeId)
      modifies this
      ensures id == |old(scopes)| && scopes == old(scopes) + [scope]
    {
      id := |scopes|;
      scopes := scopes + [scope];
    }
  }

  class MultiCancelScope {
    const table: ScopeTable
    var childScopes: set<ScopeId>
    var shield: bool
    var cancelCalled: bool

    ghost function State(): System
      reads this, table
    {
      System(table.scopes, Group(childScopes, shield, cancelCalled))
    }

    constructor (table: ScopeTable, shield: bool, cancelCalled: bool)
      ensures this.table == table && State() == System(table.scopes, Group({}, shield, cancelCalled))
      ensures Valid(State())
      ensures childScopes == {} && this.shield == shield && this.cancelCalled == cancelCalled
    {
      this.table, this.childScopes, this.shield, this.cancelCalled := table, {}, shield, cancelCalled;
    }

    method SetShield(newValue: bool)
      requires Valid(State())
      modifies this, table
      ensures State() == Next(old(State()), Step.SetShield(newValue)) && Valid(State())
      // In its own terms: the children, the default for later ones, and nothing else.
      ensures shield == newValue && cancelCalled == old(cancelCalled) && childScopes == old(childScopes)
      ensures |table.scopes| == |old(table.scopes)|
      ensures forall i :: 0 <= i < |table.scopes| ==>
        table.scopes[i] == (
          if i in childScopes then old(table.scopes)[i].(shield := newValue) else old(table.scopes)[i])
    {
      shield := newValue;
      ghost var t := table.scopes;
      var todo := childScopes;
      while todo != {}
        invariant todo <= childScopes && childScopes == old(childScopes)
        invariant shield == newValue && cancelCalled == old(cancelCalled)
        invariant table.scopes == ShieldAll(t, childScopes - todo, newValue)
        decreases todo
      {
        var scope :| scope in todo;
        table.scopes := table.scopes[scope := table.scopes[scope].(shield := newValue)];
        todo := todo - {scope};
      }
    }

    method Cancel()
      requires Valid(State())
      modifies this, table
      ensures State() == Next(old(State()), Step.Cancel) && Valid(State())
      ensures cancelCalled && shield == old(shield) && childScopes == old(childScopes)
      ensures |table.scopes| == |old(table.scopes)|
      ensures forall i :: 0 <= i < |table.scopes| ==>
        table.scopes[i] == (
          if i in childScopes then old(table.scopes)[i].(cancelCalled := true) else old(table.scopes)[i])
    {
      if !cancelCalled {
        ghost var t := table.scopes;
        var todo := childScopes;
        while todo != {}
          invariant todo <= childScopes && childScopes == old(childScopes)
          invariant shield == old(shield) && !cancelCalled
          invariant table.scopes == CancelAll(t, childScopes - todo)
          decreases todo
        {
          var scope :| scope in todo;
          table.scopes := table.scopes[scope := table.scopes[scope].(cancelCalled := true)];
          todo := todo - {scope};
        }
        cancelCalled := true;
      }
    }

    method OpenChild(ownShield: Option<bool>) returns (scope: ScopeId)
      requires Valid(State())
      modifies this, table
      ensures State() == Next(old(State()), Step.OpenChild(ownShield)) && Valid(State())
      ensures scope == |old(table.scopes)| && childScopes == old(childScopes) + {scope}
      ensures cancelCalled == old(cancelCalled) && shield == old(shield)
      ensures |table.scopes| == scope + 1 && table.scopes[..scope] == old(table.scopes)
      ensures table.scopes[scope].cancelCalled == cancelCalled && table.scopes[scope].parent.None?
      ensures table.scopes[scope].shield == if ownShield.Some? then ownShield.value else shield
    {
      var initial := if ownShield.Some? then ownShield.value else shield;
      scope := table.Open(Scope(None, initial, false));
      if cancelCalled {
        table.scopes := table.scopes[scope := table.scopes[scope].(cancelCalled := true)];
      }
      childScopes := childScopes + {scope};
    }
  }
}
