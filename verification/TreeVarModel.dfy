/**
  One tree variable over a changing task tree, twice: `World` computes values lazily from
  cached states as the source does, `Eager` freezes and copies them at once, as documented.
  */
module TreeVarModel {
  import opened Options

  /** A value stored in the variable. Values are moved around and never inspected. */
  type Payload(==, !new)

  /** `None` is the source's MISSING marker. */
  type Value = Option<Payload>

  // Tasks and nurseries are numbered in the order of their creation.
  type Task = nat
  type Nursery = nat

  // ---- The task tree, kept by Trio ----

  datatype TaskInfo = TaskInfo(parent: Option<Nursery>, eventual: Option<Nursery>, live: bool) {
    /** The nursery a value is inherited from: the eventual parent while a start() is under way. */
    function Home(): Option<Nursery> {
      if eventual.Some? then eventual else parent
    }
  }

  /**
    `target` is set in the temporary nursery of a start() that has not completed: started() will
    move its tasks there. `since` is the number of tasks there were when the nursery opened.
    */
  datatype NurseryInfo = NurseryInfo(owner: Task, open: bool, target: Option<Nursery>, since: nat)

  datatype Tree = Tree(tasks: seq<TaskInfo>, nurseries: seq<NurseryInfo>) {
    predicate Live(t: Task) {
      t < |tasks| && tasks[t].live
    }

    predicate Open(n: Nursery) {
      n < |nurseries| && nurseries[n].open
    }

    /** The open nurseries of a task. */
    function ChildNurseries(t: Task): set<Nursery> {
      set n | 0 <= n < |nurseries| && nurseries[n].open && nurseries[n].owner == t
    }
  }

  ghost predicate NurseryRooted(tree: Tree, n: Nursery)
    requires n < |tree.nurseries|
  {
    var info := tree.nurseries[n];
    && info.owner < info.since <= |tree.tasks|
    && (info.target.Some? ==>
          info.target.value < |tree.nurseries| && tree.nurseries[info.target.value].since <= info.since)
  }

  ghost predicate YoungerThan(tree: Tree, t: Task, n: Option<Nursery>) {
    n.Some? ==> n.value < |tree.nurseries| && tree.nurseries[n.value].since <= t
  }

  /** Tasks are younger than the nurseries they belong to, and nurseries younger than their owners. */
  ghost predicate Rooted(tree: Tree) {
    && (forall n :: 0 <= n < |tree.nurseries| ==> NurseryRooted(tree, n))
    && (forall t :: 0 <= t < |tree.tasks| ==>
          YoungerThan(tree, t, tree.tasks[t].parent) && YoungerThan(tree, t, tree.tasks[t].eventual))
  }

  /** The task whose value a task without a state inherits. */
  ghost function ParentTask(tree: Tree, t: Task): (p: Task)
    requires Rooted(tree) && t < |tree.tasks| && tree.tasks[t].Home().Some?
    ensures tree.tasks[t].Home().value < |tree.nurseries|
    ensures p == tree.nurseries[tree.tasks[t].Home().value].owner && p < t
  {
    var n := tree.tasks[t].Home().value;
    assert YoungerThan(tree, t, Some(n)) && NurseryRooted(tree, n);
    tree.nurseries[n].owner
  }

  ghost function Owner(tree: Tree, n: Nursery): (p: Task)
    requires Rooted(tree) && n < |tree.nurseries|
    ensures p == tree.nurseries[n].owner && p < tree.nurseries[n].since <= |tree.tasks|
  {
    assert NurseryRooted(tree, n);
    tree.nurseries[n].owner
  }

  ghost predicate NurseryEnclosed(tree: Tree, n: Nursery)
    requires n < |tree.nurseries|
  {
    var info := tree.nurseries[n];
    tree.Live(info.owner) && (info.target.Some? ==> tree.Open(info.target.value))
  }

  ghost predicate TaskEnclosed(tree: Tree, t: Task)
    requires t < |tree.tasks|
  {
    var info := tree.tasks[t];
    && (info.parent.Some? ==> tree.Open(info.parent.value))
    && (info.eventual.Some? ==>
          && tree.Open(info.eventual.value)
          && info.parent.Some?
          && tree.nurseries[info.parent.value].target == info.eventual)
  }

  /** The nurseries of a live task are open, and so are the owner and the target of an open nursery. */
  ghost predicate Enclosed(tree: Tree) {
    && (forall n :: 0 <= n < |tree.nurseries| && tree.nurseries[n].open ==> NurseryEnclosed(tree, n))
    && (forall t :: 0 <= t < |tree.tasks| && tree.tasks[t].live ==> TaskEnclosed(tree, t))
  }

  // ---- The lazy variable ----

  /** The state a task owns: its value and what the listed nurseries hand to their children. */
  datatype Saved = Saved(value: Value, forChildren: map<Nursery, Value>) {
    function ForChild(n: Nursery): Value {
      if n in forChildren then forChildren[n] else value
    }
  }

  /** The tasks that own a state. A state copied from another task's context does not count. */
  type Cache = map<Task, Saved>

  datatype World = World(tree: Tree, cache: Cache)

  /** The value `get` would find in a task, computed without touching any cache. */
  ghost function TaskValue(tree: Tree, cache: Cache, t: Task): Value
    requires Rooted(tree) && t < |tree.tasks|
    decreases t, 0
  {
    if t in cache then cache[t].value
    else
      match tree.tasks[t].Home()
      case None => None
      case Some(n) =>
        assert ParentTask(tree, t) < t;
        NurseryValue(tree, cache, n)
  }

  /** The value a new child task of a nursery would start from. */
  ghost function NurseryValue(tree: Tree, cache: Cache, n: Nursery): Value
    requires Rooted(tree) && n < |tree.nurseries|
    decreases tree.nurseries[n].owner, 1
  {
    var p := Owner(tree, n);
    if p in cache then cache[p].ForChild(n) else TaskValue(tree, cache, p)
  }

  /** The caches after `_fetch`: the task and its ancestors up to the first cached one have states. */
  ghost function FillUp(tree: Tree, cache: Cache, t: Task): (filled: Cache)
    requires Rooted(tree) && t < |tree.tasks|
    ensures t in filled
    ensures forall d :: d in cache ==> d in filled && filled[d] == cache[d]
    ensures forall d :: d in filled && d !in cache ==> d <= t
    decreases t
  {
    if t in cache then cache
    else
      match tree.tasks[t].Home()
      case None => cache[t := Saved(None, map[])]
      case Some(n) =>
        var p := ParentTask(tree, t);
        var above := FillUp(tree, cache, p);
        above[t := Saved(above[p].ForChild(n), map[])]
  }

  /** What `save_current_for_children` makes of a state. */
  function SaveFor(s: Saved, children: set<Nursery>): Saved {
    s.(forChildren := map n | n in children + s.forChildren.Keys :: s.ForChild(n))
  }

  ghost function Assign(w: World, t: Task, v: Value): World
    requires Rooted(w.tree) && t < |w.tree.tasks|
  {
    var filled := FillUp(w.tree, w.cache, t);
    w.(cache := filled[t := SaveFor(filled[t], w.tree.ChildNurseries(t)).(value := v)])
  }

  // ---- Steps of the whole program ----

  /** What `set` returns: the value to go back to, bound to the context of the task that set it. */
  datatype Token = Token(owner: Task, oldValue: Value)

  datatype Step =
    | OpenNursery(task: Task)
    | CloseNursery(nursery: Nursery)
    // start_soon(), and start() called in task `caller`, which opens a temporary nursery for the child.
    | Spawn(parent: Nursery)
    | Start(caller: Task, target: Nursery)
    // The call of started() that ends the start() with that temporary nursery.
    | Started(temporary: Nursery)
    | Exit(task: Task)
    | Forget(task: Task, nursery: Nursery)
    | Get(task: Task)
    | GetInTask(task: Task)
    | GetInNursery(nursery: Nursery)
    | Set(task: Task, value: Payload)
    | Reset(task: Task, token: Token)

  /** What a step shows its caller; `set` shows the old value inside its token. */
  datatype Observation = Silent | Saw(value: Value) | WrongContext

  predicate Enabled(tree: Tree, step: Step) {
    match step
    case OpenNursery(t) => tree.Live(t)
    case CloseNursery(n) =>
      && tree.Open(n)
      && (forall t :: 0 <= t < |tree.tasks| && tree.tasks[t].live ==>
            tree.tasks[t].parent != Some(n) && tree.tasks[t].eventual != Some(n))
      && (forall m :: 0 <= m < |tree.nurseries| && tree.nurseries[m].open ==> tree.nurseries[m].target != Some(n))
    case Spawn(n) => tree.Open(n)
    case Start(t, n) => tree.Live(t) && tree.Open(n)
    case Started(n) => tree.Open(n) && tree.nurseries[n].target.Some?
    case Exit(t) =>
      tree.Live(t) && forall n :: 0 <= n < |tree.nurseries| && tree.nurseries[n].open ==> tree.nurseries[n].owner != t
    case Forget(t, n) => !tree.Open(n)
    case Get(t) => tree.Live(t)
    case GetInTask(t) => tree.Live(t)
    case GetInNursery(n) => tree.Open(n)
    case Set(t, _) => tree.Live(t)
    case Reset(t, _) => tree.Live(t)
  }

  /** A live child of a temporary nursery, which started() moves: the new task or one that joined it. */
  predicate Moves(tree: Tree, n: Nursery, t: Task) {
    tree.Live(t) && tree.tasks[t].parent == Some(n)
  }

  function MoveAll(tree: Tree, n: Nursery): Tree
    requires n < |tree.nurseries|
  {
    Tree(
      seq(|tree.tasks|, t requires 0 <= t < |tree.tasks| =>
        if Moves(tree, n, t) then TaskInfo(tree.nurseries[n].target, None, true) else tree.tasks[t]),
      tree.nurseries[n := tree.nurseries[n].(target := None)])
  }

  function NextTree(tree: Tree, step: Step): Tree
    requires Enabled(tree, step)
  {
    match step
    case OpenNursery(t) => tree.(nurseries := tree.nurseries + [NurseryInfo(t, true, None, |tree.tasks|)])
    case CloseNursery(n) => tree.(nurseries := tree.nurseries[n := tree.nurseries[n].(open := false)])
    case Spawn(n) => tree.(tasks := tree.tasks + [TaskInfo(Some(n), None, true)])
    case Start(t, n) =>
      Tree(tree.tasks + [TaskInfo(Some(|tree.nurseries|), Some(n), true)],
           tree.nurseries + [NurseryInfo(t, true, Some(n), |tree.tasks|)])
    case Started(n) => MoveAll(tree, n)
    case Exit(t) => tree.(tasks := tree.tasks[t := tree.tasks[t].(live := false)])
    case _ => tree
  }

  ghost function Next(w: World, step: Step): World
    requires Rooted(w.tree) && Enabled(w.tree, step)
  {
    match step
    case Forget(t, n) =>
      if t in w.cache
      then w.(cache := w.cache[t := w.cache[t].(forChildren := w.cache[t].forChildren - {n})])
      else w
    case Get(t) => w.(cache := FillUp(w.tree, w.cache, t))
    case Set(t, v) => Assign(w, t, Some(v))
    case Reset(t, k) => if k.owner != t then w else Assign(w, t, k.oldValue)
    case _ => w.(tree := NextTree(w.tree, step))
  }

  ghost function Observe(w: World, step: Step): Observation
    requires Rooted(w.tree) && Enabled(w.tree, step)
  {
    match step
    case Get(t) => Saw(FillUp(w.tree, w.cache, t)[t].value)
    case Set(t, _) => Saw(FillUp(w.tree, w.cache, t)[t].value)
    case GetInTask(t) => Saw(TaskValue(w.tree, w.cache, t))
    case GetInNursery(n) => Saw(NurseryValue(w.tree, w.cache, n))
    case Reset(t, k) => if k.owner != t then WrongContext else Silent
    case _ => Silent
  }

  // ---- The eager variable ----

  datatype Eager = Eager(inTask: seq<Value>, inNursery: seq<Value>)

  predicate Fits(e: Eager, tree: Tree) {
    |e.inTask| == |tree.tasks| && |e.inNursery| == |tree.nurseries|
  }

  /** A nursery freezes its owner's value; a task starts from the value of its eventual parent. */
  function EagerNext(e: Eager, tree: Tree, step: Step): Eager
    requires Fits(e, tree) && Enabled(tree, step)
  {
    match step
    case OpenNursery(t) => e.(inNursery := e.inNursery + [e.inTask[t]])
    case Spawn(n) => e.(inTask := e.inTask + [e.inNursery[n]])
    case Start(t, n) => Eager(e.inTask + [e.inNursery[n]], e.inNursery + [e.inTask[t]])
    case Set(t, v) => e.(inTask := e.inTask[t := Some(v)])
    case Reset(t, k) => if k.owner != t then e else e.(inTask := e.inTask[t := k.oldValue])
    case _ => e
  }

  function EagerObserve(e: Eager, tree: Tree, step: Step): Observation
    requires Fits(e, tree) && Enabled(tree, step)
  {
    match step
    case Get(t) => Saw(e.inTask[t])
    case Set(t, _) => Saw(e.inTask[t])
    case GetInTask(t) => Saw(e.inTask[t])
    case GetInNursery(n) => Saw(e.inNursery[n])
    case Reset(t, k) => if k.owner != t then WrongContext else Silent
    case _ => Silent
  }

  // ---- Invariants and the refinement relation ----

  ghost predicate Wf(w: World) {
    && Rooted(w.tree) && Enclosed(w.tree)
    && (forall t :: t in w.cache ==> t < |w.tree.tasks|)
    && (forall t, n :: t in w.cache && n in w.cache[t].forChildren ==> n < |w.tree.nurseries|)
  }

  /** Every live task and every open nursery has the value of the eager variable. */
  ghost predicate Refines(w: World, e: Eager) {
    && Wf(w) && Fits(e, w.tree)
    && (forall t: Task :: w.tree.Live(t) ==> TaskValue(w.tree, w.cache, t) == e.inTask[t])
    && (forall n: Nursery :: w.tree.Open(n) ==> NurseryValue(w.tree, w.cache, n) == e.inNursery[n])
  }

  /** The main task, before the variable was ever used. */
  function InitialWorld(): World {
    World(Tree([TaskInfo(None, None, true)], []), map[])
  }

  function InitialEager(): Eager {
    Eager([None], [])
  }

  // ---- Runs ----

  predicate Legal(tree: Tree, steps: seq<Step>)
    decreases steps
  {
    steps == [] || (Enabled(tree, steps[0]) && Legal(NextTree(tree, steps[0]), steps[1..]))
  }

  function EagerFinal(e: Eager, tree: Tree, steps: seq<Step>): Eager
    requires Fits(e, tree) && Legal(tree, steps)
    decreases steps
  {
    if steps == [] then e
    else EagerFinal(EagerNext(e, tree, steps[0]), NextTree(tree, steps[0]), steps[1..])
  }

  function EagerTrace(e: Eager, tree: Tree, steps: seq<Step>): seq<Observation>
    requires Fits(e, tree) && Legal(tree, steps)
    decreases steps
  {
    if steps == [] then []
    else [EagerObserve(e, tree, steps[0])]
         + EagerTrace(EagerNext(e, tree, steps[0]), NextTree(tree, steps[0]), steps[1..])
  }

  function FinalTree(tree: Tree, steps: seq<Step>): Tree
    requires Legal(tree, steps)
    decreases steps
  {
    if steps == [] then tree else FinalTree(NextTree(tree, steps[0]), steps[1..])
  }
}
