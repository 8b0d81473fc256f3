/** The functions that `open_service_nursery` puts on a nursery, and what happens at its end. */
module ServiceNurseryObject {
  import opened Options
  import opened Scopes
  import opened MC = MultiCancel
  import M = ServiceNurseryModel
  import P = ServiceNurseryProofs

  type KidId = M.KidId

  class ServiceNursery {
    const table: ScopeTable
    const nursery: ScopeId
    const childTaskScopes: MultiCancelScope
    var kids: map<KidId, M.Kid>
    var bodyExited: bool
    // Set only while `WrapStarted` is under way.
    ghost var moving: Option<KidId>

    ghost function State(): M.Service
      reads this, table, childTaskScopes
    {
      M.Service(table.scopes, Group(childTaskScopes.childScopes, childTaskScopes.shield, childTaskScopes.cancelCalled),
                nursery, bodyExited, kids, moving)
    }

    ghost predicate Ready()
      reads this, table, childTaskScopes
    {
      childTaskScopes.table == table && M.Inv(State())
    }

    /** `table` holds the scopes around the nursery, the innermost last. */
    constructor (table: ScopeTable)
      requires Ordered(table.scopes)
      modifies table
      ensures this.table == table && fresh(childTaskScopes)
      ensures Ready() && State() == M.Initial(old(table.scopes))
      ensures nursery == |old(table.scopes)| && table.scopes[..nursery] == old(table.scopes)
      ensures |table.scopes| == nursery + 1
      ensures table.scopes[nursery] == Scope(if nursery == 0 then None else Some(nursery - 1), false, false)
      ensures childTaskScopes.shield && kids == map[] && !bodyExited && moving.None?
    {
      P.InitialInv(table.scopes);
      this.table := table;
      var parent := if table.scopes == [] then None else Some(|table.scopes| - 1);
      var id := table.Open(Scope(parent, false, false));
      this.nursery := id;
      this.childTaskScopes := new MultiCancelScope(table, true, false);
      this.kids, this.bodyExited, this.moving := map[], false, None;
    }

    /** The replaced `start_soon`: the child will begin with `RunChild`. */
    method StartSoon(kid: KidId)
      requires Ready() && moving.None? && kid !in kids
      modifies `kids
      ensures Ready() && State() == M.Next(old(State()), M.StartSoon(kid))
    {
      P.StepKeepsInv(State(), M.StartSoon(kid));
      kids := kids[kid := M.Kid(nursery, false, None, false, false)];
    }

    /** The replaced `start`, called inside the scope `caller`: the child begins with `RunStarting`. */
    method Start(kid: KidId, caller: ScopeId)
      requires Ready() && moving.None? && kid !in kids && caller < |table.scopes|
      modifies `kids, table
      ensures Ready() && State() == M.Next(old(State()), M.Start(kid, caller))
    {
      P.StepKeepsInv(State(), M.Start(kid, caller));
      var home := table.Open(Scope(Some(caller), false, false));
      kids := kids[kid := M.Kid(home, true, None, false, false)];
    }

    /** `with child_task_scopes.open_child(...)` at the beginning of a child. */
    method EnterChild(kid: KidId, ownShield: Option<bool>)
      requires Ready() && moving.None? && kid in kids && kids[kid].scope.None?
      requires ownShield == if kids[kid].viaStart then Some(false) else None
      modifies `kids, table, childTaskScopes
      ensures Ready() && State() == M.Next(old(State()), M.FirstStep(kid))
    {
      P.StepKeepsInv(State(), M.FirstStep(kid));
      var scope := childTaskScopes.OpenChild(ownShield);
      table.scopes := table.scopes[scope := table.scopes[scope].(parent := Some(kids[kid].home))];
      kids := kids[kid := kids[kid].(scope := Some(scope))];
    }

    /** The wrapper around a child of `start_soon`. */
    method RunChild(kid: KidId)
      requires Ready() && moving.None? && kid in kids && kids[kid].scope.None? && !kids[kid].viaStart
      modifies `kids, table, childTaskScopes
      ensures Ready() && State() == M.Next(old(State()), M.FirstStep(kid))
    {
      EnterChild(kid, None);
    }

    /** The wrapper around a child of `start`, which is not shielded yet. */
    method RunStarting(kid: KidId)
      requires Ready() && moving.None? && kid in kids && kids[kid].scope.None? && kids[kid].viaStart
      modifies `kids, table, childTaskScopes
      ensures Ready() && State() == M.Next(old(State()), M.FirstStep(kid))
    {
      EnterChild(kid, Some(false));
    }

    /** Trio's own `started()`; Trio moves the child unless its temporary nursery is cancelled. */
    method TrioStarted(kid: KidId, moves: bool)
      requires Ready() && moving.None? && kid in kids && kids[kid].viaStart && kids[kid].scope.Some?
      requires !kids[kid].started && kids[kid].home < |table.scopes|
      requires moves == !EffectivelyCancelled(table.scopes, kids[kid].home)
      modifies `kids, `moving, table
      ensures Ready() && State() == M.Next(old(State()), M.Started(kid))
    {
      P.StepKeepsInv(State(), M.Started(kid));
      var k := kids[kid];
      if moves {
        table.scopes := Reparent(table.scopes, k.home, nursery);
        kids, moving := kids[kid := k.(home := nursery, started := true, moved := true)], Some(kid);
      } else {
        kids := kids[kid := k.(started := true)];
      }
    }

    /**
      The `started()` that a child of `start` is given. `middle` is what others see when Trio
      has moved the child: that is when Trio delivers cancellations to it.
      */
    method WrapStarted(kid: KidId, moves: bool) returns (ghost middle: M.Service)
      requires Ready() && moving.None? && kid in kids && kids[kid].viaStart && kids[kid].scope.Some?
      requires !kids[kid].started && kids[kid].home < |table.scopes|
      requires moves == !EffectivelyCancelled(table.scopes, kids[kid].home)
      modifies `kids, `moving, table
      ensures Ready() && moving.None?
      ensures middle == M.Next(old(State()), M.Started(kid)) && M.Inv(middle)
      ensures middle.moving == if moves then Some(kid) else None
      ensures State() == if moves then M.Next(middle, M.HandShield) else middle
    {
      assert M.KidInv(State(), kid);
      TrioStarted(kid, moves);
      middle := State();
      if kids[kid].home != nursery {
        return;
      }
      P.StepKeepsInv(middle, M.HandShield);
      var scope := kids[kid].scope.value;
      assert M.KidInv(middle, kid);
      table.scopes := table.scopes[scope := table.scopes[scope].(shield := childTaskScopes.shield)];
      moving := None;
    }

    /** The `finally` clause of the body. */
    method ExitBody()
      requires Ready() && moving.None? && !bodyExited
      modifies `bodyExited, table, childTaskScopes
      ensures Ready() && State() == M.Next(old(State()), M.BodyExit)
    {
      P.StepKeepsInv(State(), M.BodyExit);
      childTaskScopes.SetShield(false);
      bodyExited := true;
    }
  }
}
