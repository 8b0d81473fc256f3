/**
  A service nursery among all other scopes. Every child runs inside a scope of the group
  `childTaskScopes`; the group is shielded until the body of the nursery exits.
  */
module ServiceNurseryModel {
  import opened Options
  import opened Scopes
  import MultiCancel

  type KidId = nat

  /**
    A child task. `home` is the scope of the nursery it runs in: this nursery, or the
    temporary one of a start() that has not completed. `scope` is its member of the group.
    */
  datatype Kid = Kid(home: ScopeId, viaStart: bool, scope: Option<ScopeId>, started: bool, moved: bool) {
    /** The children that the documentation promises to protect, from here on. */
    predicate Promised() {
      scope.Some? && (!viaStart || moved)
    }
  }

  /** `moving` is the child that started() has just moved, before it is given its shield. */
  datatype Service = Service(
    table: Table,
    group: MultiCancel.Group,
    nursery: ScopeId,
    bodyExited: bool,
    kids: map<KidId, Kid>,
    moving: Option<KidId>)
  {
    function System(): MultiCancel.System {
      MultiCancel.System(table, group)
    }

    /** The children that have the shield of the group. */
    predicate Protected(k: KidId) {
      k in kids && kids[k].Promised() && moving != Some(k)
    }
  }

  datatype Step =
    // Other code: any scope may be opened, cancelled and shielded, except the group's own.
    | NewScope(parent: Option<ScopeId>, shield: bool)
    | CancelScope(id: ScopeId)
    | ShieldScope(id: ScopeId, value: bool)
    // A started() of another nursery, which moves everything in its temporary nursery `from`.
    | MoveScopes(from: ScopeId, to: ScopeId)
    // Spawning, from anywhere: `caller` is the scope in which start() opens its own nursery.
    | StartSoon(kid: KidId)
    | Start(kid: KidId, caller: ScopeId)
    // The child enters its scope of the group.
    | FirstStep(kid: KidId)
    // task_status.started(), called by any task: what Trio does, and what follows at once for
    // a child that was moved. Trio delivers pending cancellations within the first half.
    | Started(kid: KidId)
    | HandShield
    | Exit(kid: KidId)
    | BodyExit

  predicate Foreign(s: Service, i: ScopeId) {
    i < |s.table| && i !in s.group.children
  }

  ghost predicate Enabled(s: Service, step: Step) {
    && (s.moving.Some? <==> step.HandShield?)
    && match step
       case NewScope(p, _) => p.Some? ==> p.value < |s.table|
       case CancelScope(i) => Foreign(s, i)
       case ShieldScope(i, _) => Foreign(s, i)
       case MoveScopes(i, j) =>
         && Foreign(s, i) && Foreign(s, j) && j < i && i != s.nursery
         && forall k :: k in s.kids ==> s.kids[k].home != i
       case StartSoon(k) => k !in s.kids
       case Start(k, c) => k !in s.kids && c < |s.table|
       case FirstStep(k) => k in s.kids && s.kids[k].scope.None?
       case Started(k) => k in s.kids && s.kids[k].viaStart && s.kids[k].scope.Some? && !s.kids[k].started
       case HandShield => true
       case Exit(k) => k in s.kids
       case BodyExit => !s.bodyExited
  }

  /** What Trio's started() moves, with everything else inside the temporary nursery. */
  function Move(s: Service, k: KidId): Service
    requires k in s.kids
  {
    var kid := s.kids[k];
    s.(table := Reparent(s.table, kid.home, s.nursery),
       kids := s.kids[k := kid.(home := s.nursery, started := true, moved := true)],
       moving := Some(k))
  }

  ghost function Next(s: Service, step: Step): Service
    requires Inv(s) && Enabled(s, step)
  {
    match step
    case NewScope(p, v) => s.(table := s.table + [Scope(p, v, false)])
    case CancelScope(i) => s.(table := s.table[i := s.table[i].(cancelCalled := true)])
    case ShieldScope(i, v) => s.(table := s.table[i := s.table[i].(shield := v)])
    case MoveScopes(i, j) => s.(table := Reparent(s.table, i, j))
    case StartSoon(k) => s.(kids := s.kids[k := Kid(s.nursery, false, None, false, false)])
    case Start(k, c) =>
      s.(table := s.table + [Scope(Some(c), false, false)],
         kids := s.kids[k := Kid(|s.table|, true, None, false, false)])
    case FirstStep(k) =>
      var kid := s.kids[k];
      var grown := MultiCancel.Next(s.System(), MultiCancel.OpenChild(if kid.viaStart then Some(false) else None));
      var id := |s.table|;
      s.(table := grown.table[id := grown.table[id].(parent := Some(kid.home))],
         group := grown.group,
         kids := s.kids[k := kid.(scope := Some(id))])
    case Started(k) =>
      // Trio moves a starting child unless its temporary nursery is already cancelled.
      if EffectivelyCancelled(s.table, s.kids[k].home) then s.(kids := s.kids[k := s.kids[k].(started := true)])
      else Move(s, k)
    case HandShield =>
      var id := s.kids[s.moving.value].scope.value;
      s.(table := s.table[id := s.table[id].(shield := s.group.shield)], moving := None)
    case Exit(k) => s.(kids := s.kids - {k})
    case BodyExit =>
      var bared := MultiCancel.Next(s.System(), MultiCancel.SetShield(false));
      s.(table := bared.table, group := bared.group, bodyExited := true)
  }

  /** The group's scopes: never cancelled, and unshielded once the body has exited. */
  ghost predicate GroupInv(s: Service) {
    && !s.group.cancelCalled
    && s.group.shield == !s.bodyExited
    && (forall i :: i in s.group.children ==>
          i < |s.table| && !s.table[i].cancelCalled && (s.bodyExited ==> !s.table[i].shield))
  }

  ghost predicate KidInv(s: Service, k: KidId)
    requires k in s.kids
  {
    var kid := s.kids[k];
    && Foreign(s, kid.home)
    && (if kid.viaStart && !kid.moved then s.nursery < kid.home else kid.home == s.nursery)
    && (kid.moved ==> kid.started)
    && (kid.started ==> kid.viaStart && kid.scope.Some?)
    && (kid.scope.Some? ==>
          && kid.scope.value in s.group.children
          && kid.scope.value < |s.table|
          && s.table[kid.scope.value].parent == Some(kid.home)
          && s.table[kid.scope.value].shield == (s.Protected(k) && !s.bodyExited))
  }

  /** Children have scopes of their own, and starting ones have temporary nurseries of their own. */
  predicate Apart(s: Service, a: Kid, b: Kid) {
    && (a.scope.Some? ==> a.scope != b.scope)
    && (a.home != s.nursery ==> a.home != b.home)
  }

  ghost predicate KidsInv(s: Service) {
    && (forall k :: k in s.kids ==> KidInv(s, k))
    && (forall k, l :: k in s.kids && l in s.kids && k != l ==> Apart(s, s.kids[k], s.kids[l]))
    && (s.moving.Some? ==> s.moving.value in s.kids && s.kids[s.moving.value].moved)
  }

  ghost predicate Inv(s: Service) {
    Ordered(s.table) && Foreign(s, s.nursery) && GroupInv(s) && KidsInv(s)
  }

  /** A service nursery just opened inside the last of some scopes. */
  function Initial(outer: Table): Service {
    Service(outer + [Scope(if outer == [] then None else Some(|outer| - 1), false, false)],
            MultiCancel.Group({}, true, false), |outer|, false, map[], None)
  }

  // ---- What the properties speak about ----

  /** Cancellation as it would be without the group, that is in a plain nursery. */
  ghost predicate PlainCancelled(t: Table, group: set<ScopeId>, i: ScopeId)
    requires Ordered(t) && i < |t|
    decreases i
  {
    if i in group then t[i].parent.Some? && PlainCancelled(t, group, t[i].parent.value)
    else
      || t[i].cancelCalled
      || (!t[i].shield && t[i].parent.Some? && PlainCancelled(t, group, t[i].parent.value))
  }
}
