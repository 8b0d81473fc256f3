/** The lazy variable refines the eager one, whatever is cached and whoever spawned whom. */
module TreeVarProofs {
  import opened Options
  import opened TreeVarModel

  // ---- Caching is invisible ----

  /** Giving one task the state it would compute anyway changes no value anywhere. */
  lemma {:induction false} OneEntryInvisible(tree: Tree, cache: Cache, t: Task, d: Task)
    requires Rooted(tree) && t < |tree.tasks| && d < |tree.tasks| && t !in cache
    ensures var cache' := cache[t := Saved(TaskValue(tree, cache, t), map[])];
      TaskValue(tree, cache', d) == TaskValue(tree, cache, d)
    decreases d
  {
    if d !in cache && d != t && tree.tasks[d].Home().Some? {
      OneEntryInvisible(tree, cache, t, ParentTask(tree, d));
    }
  }

  ghost predicate SameValues(tree: Tree, cache: Cache, cache': Cache)
    requires Rooted(tree)
  {
    && (forall d :: 0 <= d < |tree.tasks| ==> TaskValue(tree, cache', d) == TaskValue(tree, cache, d))
    && (forall n :: 0 <= n < |tree.nurseries| ==> NurseryValue(tree, cache', n) == NurseryValue(tree, cache, n))
  }

  /**
    `_fetch` finds the value that a cache-free look-up computes, and the states it leaves in
    the task and its ancestors change the value of no task and no nursery.
    */
  lemma {:induction false} FillInvisible(tree: Tree, cache: Cache, t: Task)
    requires Rooted(tree) && t < |tree.tasks|
    ensures FillUp(tree, cache, t)[t].value == TaskValue(tree, cache, t)
    ensures SameValues(tree, cache, FillUp(tree, cache, t))
    decreases t
  {
    if t !in cache {
      var above := cache;
      if tree.tasks[t].Home().Some? {
        var p := ParentTask(tree, t);
        FillInvisible(tree, cache, p);
        above := FillUp(tree, cache, p);
      }
      assert FillUp(tree, cache, t) == above[t := Saved(TaskValue(tree, above, t), map[])];
      forall d | 0 <= d < |tree.tasks|
        ensures TaskValue(tree, FillUp(tree, cache, t), d) == TaskValue(tree, above, d)
      {
        OneEntryInvisible(tree, above, t, d);
      }
      forall n | 0 <= n < |tree.nurseries|
        ensures NurseryValue(tree, FillUp(tree, cache, t), n) == NurseryValue(tree, above, n)
      {
        OneEntryInvisible(tree, above, t, Owner(tree, n));
      }
    }
  }

  /** The tasks from `t` up to, and without, the first one that has a state. */
  ghost predicate Stateless(tree: Tree, cache: Cache, t: Task, d: Task)
    requires Rooted(tree) && t < |tree.tasks|
    decreases t
  {
    && t !in cache
    && (d == t || (tree.tasks[t].Home().Some? && Stateless(tree, cache, ParentTask(tree, t), d)))
  }

  /** These are the tasks that a look-up in `t` gives a state to; the old states stay. */
  lemma {:induction false} FillsExactly(tree: Tree, cache: Cache, t: Task, d: Task)
    requires Rooted(tree) && t < |tree.tasks|
    ensures d in FillUp(tree, cache, t) <==> d in cache || Stateless(tree, cache, t, d)
    ensures d in cache ==> FillUp(tree, cache, t)[d] == cache[d]
    decreases t
  {
    if t !in cache && tree.tasks[t].Home().Some? {
      FillsExactly(tree, cache, ParentTask(tree, t), d);
    }
  }

  /** A task that looks the variable up or sets it owns a state afterwards. */
  lemma UseLeavesState(w: World, step: Step)
    requires Wf(w) && Enabled(w.tree, step) && (step.Get? || step.Set?)
    ensures var w' := Next(w, step);
      && step.task in w'.cache
      && (step.Get? ==> w'.cache[step.task].value == TaskValue(w.tree, w.cache, step.task))
      && (step.Set? ==> w'.cache[step.task].value == Some(step.value))
  {
    FillInvisible(w.tree, w.cache, step.task);
  }

  ghost function FillAll(tree: Tree, cache: Cache, ts: seq<Task>): Cache
    requires Rooted(tree) && forall i :: 0 <= i < |ts| ==> ts[i] < |tree.tasks|
    decreases ts
  {
    if ts == [] then cache else FillAll(tree, FillUp(tree, cache, ts[0]), ts[1..])
  }

  /** Any number of look-ups, in any tasks and in any order. */
  lemma {:induction false} FillAllInvisible(tree: Tree, cache: Cache, ts: seq<Task>)
    requires Rooted(tree) && forall i :: 0 <= i < |ts| ==> ts[i] < |tree.tasks|
    ensures SameValues(tree, cache, FillAll(tree, cache, ts))
    decreases ts
  {
    if ts != [] {
      FillInvisible(tree, cache, ts[0]);
      FillAllInvisible(tree, FillUp(tree, cache, ts[0]), ts[1..]);
    }
  }

  // ---- Assignment touches one task ----

  /** A new state of `t` that hands the open nurseries what the old one did. */
  ghost predicate HandsSame(tree: Tree, t: Task, before: Saved, after: Saved) {
    forall n :: n in tree.ChildNurseries(t) ==> after.ForChild(n) == before.ForChild(n)
  }

  /** Replacing the state of `t` by such a state changes no other live task and no open nursery. */
  lemma {:induction false} LocalChange(tree: Tree, cache: Cache, t: Task, s: Saved, d: Task)
    requires Rooted(tree) && Enclosed(tree) && t in cache && HandsSame(tree, t, cache[t], s)
    requires tree.Live(d) && d != t
    ensures TaskValue(tree, cache[t := s], d) == TaskValue(tree, cache, d)
    decreases d
  {
    if d !in cache && tree.tasks[d].Home().Some? {
      var n, p := tree.tasks[d].Home().value, ParentTask(tree, d);
      assert TaskEnclosed(tree, d) && NurseryEnclosed(tree, n);
      if p != t {
        LocalChange(tree, cache, t, s, p);
      } else {
        assert n in tree.ChildNurseries(t);
      }
    }
  }

  lemma LocalChangeFrames(tree: Tree, cache: Cache, t: Task, s: Saved)
    requires Rooted(tree) && Enclosed(tree) && t in cache && HandsSame(tree, t, cache[t], s)
    ensures ChangesOnly(tree, t, cache, cache[t := s])
  {
    forall d: Task | tree.Live(d) && d != t
      ensures TaskValue(tree, cache[t := s], d) == TaskValue(tree, cache, d)
    {
      LocalChange(tree, cache, t, s, d);
    }
    forall n: Nursery | tree.Open(n)
      ensures NurseryValue(tree, cache[t := s], n) == NurseryValue(tree, cache, n)
    {
      assert NurseryEnclosed(tree, n);
      if Owner(tree, n) == t {
        assert n in tree.ChildNurseries(t);
      } else {
        LocalChange(tree, cache, t, s, Owner(tree, n));
      }
    }
  }

  lemma AssignWf(w: World, t: Task, v: Value)
    requires Wf(w) && w.tree.Live(t)
    ensures Wf(Assign(w, t, v)) && Assign(w, t, v).tree == w.tree
  {
    FillWf(w, t);
  }

  /** Between the two caches only the value of task `t` differs. */
  ghost predicate ChangesOnly(tree: Tree, t: Task, cache: Cache, cache': Cache)
    requires Rooted(tree)
  {
    && (forall d: Task :: tree.Live(d) && d != t ==> TaskValue(tree, cache', d) == TaskValue(tree, cache, d))
    && (forall n: Nursery :: tree.Open(n) ==> NurseryValue(tree, cache', n) == NurseryValue(tree, cache, n))
  }

  /** `set` and `reset` change the value of their own task and of nothing else. */
  lemma AssignFrames(w: World, t: Task, v: Value)
    requires Wf(w) && w.tree.Live(t)
    ensures TaskValue(w.tree, Assign(w, t, v).cache, t) == v
    ensures ChangesOnly(w.tree, t, w.cache, Assign(w, t, v).cache)
  {
    var filled := FillUp(w.tree, w.cache, t);
    FillInvisible(w.tree, w.cache, t);
    LocalChangeFrames(w.tree, filled, t,
      SaveFor(filled[t], w.tree.ChildNurseries(t)).(value := v));
  }

  lemma {:induction false} FillWf(w: World, t: Task)
    requires Wf(w) && t < |w.tree.tasks|
    ensures Wf(w.(cache := FillUp(w.tree, w.cache, t)))
    decreases t
  {
    if t !in w.cache && w.tree.tasks[t].Home().Some? {
      FillWf(w, ParentTask(w.tree, t));
    }
  }

  // ---- Steps of the tree ----

  /** Steps that add a task or a nursery, or close one; all old tasks and nurseries keep their place. */
  predicate Grows(step: Step) {
    step.OpenNursery? || step.CloseNursery? || step.Spawn? || step.Start? || step.Exit?
  }

  /** The tasks and nurseries of `tree` are where they were, open or not, live or not. */
  predicate SamePlaces(tree: Tree, tree': Tree) {
    && |tree.tasks| <= |tree'.tasks| && |tree.nurseries| <= |tree'.nurseries|
    && (forall t :: 0 <= t < |tree.tasks| ==>
          tree'.tasks[t].parent == tree.tasks[t].parent && tree'.tasks[t].eventual == tree.tasks[t].eventual)
    && (forall n :: 0 <= n < |tree.nurseries| ==>
          tree'.nurseries[n] == tree.nurseries[n].(open := tree'.nurseries[n].open))
  }

  lemma GrowsInPlace(tree: Tree, step: Step)
    requires Enabled(tree, step) && Grows(step)
    ensures SamePlaces(tree, NextTree(tree, step))
  {
  }

  lemma OldRooted(tree: Tree, tree': Tree)
    requires Rooted(tree) && SamePlaces(tree, tree')
    ensures forall n :: 0 <= n < |tree.nurseries| ==> NurseryRooted(tree', n)
    ensures forall t :: 0 <= t < |tree.tasks| ==>
      YoungerThan(tree', t, tree'.tasks[t].parent) && YoungerThan(tree', t, tree'.tasks[t].eventual)
  {
    forall n | 0 <= n < |tree.nurseries| ensures NurseryRooted(tree', n) {
      assert NurseryRooted(tree, n);
    }
    forall t | 0 <= t < |tree.tasks|
      ensures YoungerThan(tree', t, tree'.tasks[t].parent) && YoungerThan(tree', t, tree'.tasks[t].eventual)
    {
      assert YoungerThan(tree, t, tree.tasks[t].parent) && YoungerThan(tree, t, tree.tasks[t].eventual);
    }
  }

  lemma GrowsRooted(tree: Tree, step: Step)
    requires Rooted(tree) && Enabled(tree, step) && Grows(step)
    ensures Rooted(NextTree(tree, step))
  {
    var tree' := NextTree(tree, step);
    GrowsInPlace(tree, step);
    OldRooted(tree, tree');
    if step.Spawn? {
      assert NurseryRooted(tree, step.parent);
    } else if step.Start? {
      assert NurseryRooted(tree, step.target);
      assert NurseryRooted(tree', |tree.nurseries|);
    } else if step.OpenNursery? {
      assert NurseryRooted(tree', |tree.nurseries|);
    }
  }

  lemma GrowsEnclosed(tree: Tree, step: Step)
    requires Enclosed(tree) && Enabled(tree, step) && Grows(step)
    ensures Enclosed(NextTree(tree, step))
  {
    var tree' := NextTree(tree, step);
    forall n | 0 <= n < |tree.nurseries| && tree'.nurseries[n].open ensures NurseryEnclosed(tree', n) {
      assert NurseryEnclosed(tree, n);
    }
    forall t | 0 <= t < |tree.tasks| && tree'.tasks[t].live ensures TaskEnclosed(tree', t) {
      assert TaskEnclosed(tree, t);
    }
  }

  /** What is added below leaves every older value alone. */
  lemma {:induction false} GrowsFrames(tree: Tree, tree': Tree, cache: Cache, d: Task)
    requires Rooted(tree) && Rooted(tree') && SamePlaces(tree, tree') && d < |tree.tasks|
    ensures TaskValue(tree', cache, d) == TaskValue(tree, cache, d)
    decreases d
  {
    if d !in cache && tree.tasks[d].Home().Some? {
      assert ParentTask(tree', d) == ParentTask(tree, d);
      GrowsFrames(tree, tree', cache, ParentTask(tree, d));
    }
  }

  lemma MoveRooted(tree: Tree, n: Nursery)
    requires Rooted(tree) && n < |tree.nurseries| && tree.nurseries[n].target.Some?
    ensures Rooted(MoveAll(tree, n))
  {
    var tree' := MoveAll(tree, n);
    assert NurseryRooted(tree, n);
    forall m | 0 <= m < |tree.nurseries| ensures NurseryRooted(tree', m) {
      assert NurseryRooted(tree, m);
    }
    forall t | 0 <= t < |tree.tasks|
      ensures YoungerThan(tree', t, tree'.tasks[t].parent) && YoungerThan(tree', t, tree'.tasks[t].eventual)
    {
      assert YoungerThan(tree, t, tree.tasks[t].parent) && YoungerThan(tree, t, tree.tasks[t].eventual);
    }
  }

  lemma MoveEnclosed(tree: Tree, n: Nursery)
    requires Enclosed(tree) && tree.Open(n) && tree.nurseries[n].target.Some?
    ensures Enclosed(MoveAll(tree, n))
  {
    var tree' := MoveAll(tree, n);
    assert NurseryEnclosed(tree, n);
    forall m | 0 <= m < |tree.nurseries| && tree'.nurseries[m].open ensures NurseryEnclosed(tree', m) {
      assert NurseryEnclosed(tree, m);
    }
    forall t | 0 <= t < |tree.tasks| && tree'.tasks[t].live ensures TaskEnclosed(tree', t) {
      assert TaskEnclosed(tree, t);
    }
  }

  lemma TreeStepWf(w: World, step: Step)
    requires Wf(w) && Enabled(w.tree, step)
    ensures Wf(World(NextTree(w.tree, step), w.cache))
  {
    if step.Started? {
      MoveRooted(w.tree, step.temporary);
      MoveEnclosed(w.tree, step.temporary);
    } else if Grows(step) {
      GrowsInPlace(w.tree, step);
      GrowsRooted(w.tree, step);
      GrowsEnclosed(w.tree, step);
    }
  }

  lemma NextWf(w: World, step: Step)
    requires Wf(w) && Enabled(w.tree, step)
    ensures Wf(Next(w, step)) && Next(w, step).tree == NextTree(w.tree, step)
  {
    match step
    case Get(t) => FillWf(w, t);
    case Set(t, v) => AssignWf(w, t, Some(v));
    case Reset(t, k) => AssignWf(w, t, k.oldValue);
    case Forget(_, _) =>
    case _ => TreeStepWf(w, step);
  }

  // ---- What started() does ----

  /** Everything older than a temporary nursery stays where it is when its tasks are moved. */
  lemma {:induction false} OlderThanMove(tree: Tree, cache: Cache, n: Nursery, d: Task)
    requires Rooted(tree) && n < |tree.nurseries| && Rooted(MoveAll(tree, n))
    requires d < |tree.tasks| && d < tree.nurseries[n].since
    ensures TaskValue(MoveAll(tree, n), cache, d) == TaskValue(tree, cache, d)
    decreases d
  {
    assert YoungerThan(tree, d, tree.tasks[d].parent);
    assert !Moves(tree, n, d);
    if d !in cache && tree.tasks[d].Home().Some? {
      assert ParentTask(MoveAll(tree, n), d) == ParentTask(tree, d);
      OlderThanMove(tree, cache, n, ParentTask(tree, d));
    }
  }

  /** The nursery that takes the tasks over has the value it had. */
  lemma TargetKeepsValue(tree: Tree, cache: Cache, n: Nursery)
    requires Rooted(tree) && n < |tree.nurseries| && tree.nurseries[n].target.Some?
    ensures var m := tree.nurseries[n].target.value;
      && m < |tree.nurseries| && Rooted(MoveAll(tree, n))
      && NurseryValue(MoveAll(tree, n), cache, m) == NurseryValue(tree, cache, m)
  {
    MoveRooted(tree, n);
    assert NurseryRooted(tree, n);
    var m := tree.nurseries[n].target.value;
    assert MoveAll(tree, n).nurseries[m].owner == tree.nurseries[m].owner;
    OlderThanMove(tree, cache, n, Owner(tree, m));
  }

  /** A task that joined a temporary nursery and has not used the variable yet. */
  predicate Unsettled(tree: Tree, cache: Cache, n: Nursery, t: Task) {
    Moves(tree, n, t) && tree.tasks[t].eventual.None? && t !in cache
  }

  /** `started()` finds no such task, or the nursery it is moved to has the same value. */
  ghost predicate Undisturbed(w: World, step: Step)
    requires Wf(w) && Enabled(w.tree, step)
  {
    step.Started? ==>
      var n := step.temporary;
      var m := (assert NurseryRooted(w.tree, n); w.tree.nurseries[n].target.value);
      || NurseryValue(w.tree, w.cache, n) == NurseryValue(w.tree, w.cache, m)
      || forall t: Task :: !Unsettled(w.tree, w.cache, n, t)
  }

  /** Such a task has the value of the nursery it is in, before and after the move. */
  lemma UnsettledValue(w: World, n: Nursery, t: Task)
    requires Wf(w) && Enabled(w.tree, Started(n)) && Unsettled(w.tree, w.cache, n, t)
    ensures TaskValue(w.tree, w.cache, t) == NurseryValue(w.tree, w.cache, n)
    ensures var m := w.tree.nurseries[n].target.value;
      && m < |w.tree.nurseries| && Rooted(MoveAll(w.tree, n))
      && TaskValue(MoveAll(w.tree, n), w.cache, t) == NurseryValue(w.tree, w.cache, m)
  {
    TargetKeepsValue(w.tree, w.cache, n);
    assert MoveAll(w.tree, n).tasks[t].Home() == w.tree.nurseries[n].target;
  }

  /** Otherwise nobody's value changes. */
  lemma {:induction false} UndisturbedFrames(w: World, n: Nursery, d: Task)
    requires Wf(w) && Enabled(w.tree, Started(n)) && Undisturbed(w, Started(n)) && d < |w.tree.tasks|
    ensures Rooted(MoveAll(w.tree, n))
    ensures TaskValue(MoveAll(w.tree, n), w.cache, d) == TaskValue(w.tree, w.cache, d)
    decreases d
  {
    var tree, tree' := w.tree, MoveAll(w.tree, n);
    MoveRooted(tree, n);
    if Unsettled(tree, w.cache, n, d) {
      UnsettledValue(w, n, d);
    } else if d !in w.cache && tree.tasks[d].Home().Some? {
      assert tree.tasks[d].live ==> TaskEnclosed(tree, d);
      assert tree'.tasks[d].Home() == tree.tasks[d].Home();
      assert ParentTask(tree', d) == ParentTask(tree, d);
      UndisturbedFrames(w, n, ParentTask(tree, d));
    }
  }

  /** `started()` keeps every value exactly if it is undisturbed. */
  lemma StartedRefinesIff(w: World, e: Eager, n: Nursery)
    requires Refines(w, e) && Enabled(w.tree, Started(n))
    ensures Refines(Next(w, Started(n)), e) <==> Undisturbed(w, Started(n))
  {
    var w' := Next(w, Started(n));
    NextWf(w, Started(n));
    if Undisturbed(w, Started(n)) {
      forall d: Task | w'.tree.Live(d) ensures TaskValue(w'.tree, w'.cache, d) == e.inTask[d] {
        UndisturbedFrames(w, n, d);
        assert w.tree.Live(d);
      }
      forall m: Nursery | w'.tree.Open(m) ensures NurseryValue(w'.tree, w'.cache, m) == e.inNursery[m] {
        UndisturbedFrames(w, n, Owner(w.tree, m));
        assert w.tree.Open(m) && Owner(w'.tree, m) == Owner(w.tree, m);
      }
    } else {
      var t: Task :| Unsettled(w.tree, w.cache, n, t);
      UnsettledValue(w, n, t);
      assert w.tree.Live(t) && w'.tree.Live(t);
    }
  }

  // ---- Refinement ----

  /** The values of old nurseries after a step that only grows the tree. */
  lemma GrowsFramesNursery(tree: Tree, tree': Tree, cache: Cache, n: Nursery)
    requires Rooted(tree) && Rooted(tree') && SamePlaces(tree, tree') && n < |tree.nurseries|
    ensures NurseryValue(tree', cache, n) == NurseryValue(tree, cache, n)
  {
    assert Owner(tree', n) == Owner(tree, n);
    GrowsFrames(tree, tree', cache, Owner(tree, n));
  }

  /** A new task starts from the value its eventual parent nursery had all along. */
  lemma HomeValue(w: World, e: Eager, step: Step)
    requires Refines(w, e) && Enabled(w.tree, step) && (step.Spawn? || step.Start?)
    ensures Rooted(NextTree(w.tree, step)) && |NextTree(w.tree, step).tasks| == |w.tree.tasks| + 1
    ensures TaskValue(NextTree(w.tree, step), w.cache, |w.tree.tasks|)
         == e.inNursery[if step.Start? then step.target else step.parent]
  {
    var n := if step.Start? then step.target else step.parent;
    GrowsInPlace(w.tree, step);
    GrowsRooted(w.tree, step);
    assert NextTree(w.tree, step).tasks[|w.tree.tasks|].Home() == Some(n);
    GrowsFramesNursery(w.tree, NextTree(w.tree, step), w.cache, n);
  }

  /** A new nursery freezes the value its owner has. */
  lemma NewNurseryValue(w: World, step: Step)
    requires Wf(w) && Enabled(w.tree, step) && (step.OpenNursery? || step.Start?)
    ensures var t, tree' := if step.Start? then step.caller else step.task, NextTree(w.tree, step);
      && Rooted(tree') && |tree'.nurseries| == |w.tree.nurseries| + 1
      && NurseryValue(tree', w.cache, |w.tree.nurseries|) == TaskValue(w.tree, w.cache, t)
  {
    var t, tree', n := if step.Start? then step.caller else step.task, NextTree(w.tree, step), |w.tree.nurseries|;
    GrowsInPlace(w.tree, step);
    GrowsRooted(w.tree, step);
    assert Owner(tree', n) == t;
    assert t in w.cache ==> n !in w.cache[t].forChildren;
    GrowsFrames(w.tree, tree', w.cache, t);
  }

  lemma GrowsTask(w: World, e: Eager, step: Step, d: Task)
    requires Refines(w, e) && Enabled(w.tree, step) && Grows(step)
    requires Rooted(NextTree(w.tree, step)) && NextTree(w.tree, step).Live(d)
    ensures d < |EagerNext(e, w.tree, step).inTask|
    ensures TaskValue(NextTree(w.tree, step), w.cache, d) == EagerNext(e, w.tree, step).inTask[d]
  {
    if d < |w.tree.tasks| {
      GrowsInPlace(w.tree, step);
      GrowsFrames(w.tree, NextTree(w.tree, step), w.cache, d);
      assert w.tree.Live(d);
    } else {
      HomeValue(w, e, step);
    }
  }

  lemma GrowsNursery(w: World, e: Eager, step: Step, n: Nursery)
    requires Refines(w, e) && Enabled(w.tree, step) && Grows(step)
    requires Rooted(NextTree(w.tree, step)) && NextTree(w.tree, step).Open(n)
    ensures n < |EagerNext(e, w.tree, step).inNursery|
    ensures NurseryValue(NextTree(w.tree, step), w.cache, n) == EagerNext(e, w.tree, step).inNursery[n]
  {
    if n < |w.tree.nurseries| {
      GrowsInPlace(w.tree, step);
      GrowsFramesNursery(w.tree, NextTree(w.tree, step), w.cache, n);
      assert w.tree.Open(n);
    } else {
      NewNurseryValue(w, step);
    }
  }

  lemma GrowsFits(e: Eager, tree: Tree, step: Step)
    requires Fits(e, tree) && Enabled(tree, step)
    ensures Fits(EagerNext(e, tree, step), NextTree(tree, step))
  {
  }

  lemma GrowsRefines(w: World, e: Eager, step: Step)
    requires Refines(w, e) && Enabled(w.tree, step) && Grows(step)
    ensures Refines(Next(w, step), EagerNext(e, w.tree, step))
  {
    TreeStepWf(w, step);
    GrowsFits(e, w.tree, step);
    var w', e' := Next(w, step), EagerNext(e, w.tree, step);
    assert w' == World(NextTree(w.tree, step), w.cache);
    forall d: Task | w'.tree.Live(d) ensures TaskValue(w'.tree, w'.cache, d) == e'.inTask[d] {
      GrowsTask(w, e, step, d);
    }
    forall n: Nursery | w'.tree.Open(n) ensures NurseryValue(w'.tree, w'.cache, n) == e'.inNursery[n] {
      GrowsNursery(w, e, step, n);
    }
  }

  /** The value of a task is what `get` finds there and what `set` puts into its token. */
  lemma ObserveRefines(w: World, e: Eager, step: Step)
    requires Refines(w, e) && Enabled(w.tree, step)
    ensures Observe(w, step) == EagerObserve(e, w.tree, step)
  {
    if step.Get? || step.Set? {
      FillInvisible(w.tree, w.cache, step.task);
    }
  }

  lemma AssignRefines(w: World, e: Eager, t: Task, v: Value)
    requires Refines(w, e) && w.tree.Live(t)
    ensures Refines(Assign(w, t, v), e.(inTask := e.inTask[t := v]))
  {
    AssignWf(w, t, v);
    AssignFrames(w, t, v);
  }

  lemma GetRefines(w: World, e: Eager, t: Task)
    requires Refines(w, e) && w.tree.Live(t)
    ensures Refines(w.(cache := FillUp(w.tree, w.cache, t)), e)
  {
    FillWf(w, t);
    FillInvisible(w.tree, w.cache, t);
  }

  lemma ForgetRefines(w: World, e: Eager, step: Step)
    requires Refines(w, e) && Enabled(w.tree, step) && step.Forget?
    ensures Refines(Next(w, step), e)
  {
    if step.task in w.cache {
      LocalChangeFrames(w.tree, w.cache, step.task, Next(w, step).cache[step.task]);
    }
  }

  /** One step: the observations agree, and so do the states reached exactly if it is undisturbed. */
  lemma StepRefinesIff(w: World, e: Eager, step: Step)
    requires Refines(w, e) && Enabled(w.tree, step)
    ensures Observe(w, step) == EagerObserve(e, w.tree, step)
    ensures Refines(Next(w, step), EagerNext(e, w.tree, step)) <==> Undisturbed(w, step)
  {
    ObserveRefines(w, e, step);
    match step
    case Get(t) => GetRefines(w, e, t);
    case Set(t, v) => AssignRefines(w, e, t, Some(v));
    case Reset(t, k) => AssignRefines(w, e, t, k.oldValue);
    case Forget(_, _) => ForgetRefines(w, e, step);
    case Started(n) => StartedRefinesIff(w, e, n);
    case GetInTask(_) =>
    case GetInNursery(_) =>
    case _ => GrowsRefines(w, e, step);
  }

  // ---- Runs ----

  ghost function Final(w: World, steps: seq<Step>): World
    requires Wf(w) && Legal(w.tree, steps)
    decreases steps
  {
    if steps == [] then w
    else
      NextWf(w, steps[0]);
      Final(Next(w, steps[0]), steps[1..])
  }

  ghost function Trace(w: World, steps: seq<Step>): seq<Observation>
    requires Wf(w) && Legal(w.tree, steps)
    decreases steps
  {
    if steps == [] then []
    else
      NextWf(w, steps[0]);
      [Observe(w, steps[0])] + Trace(Next(w, steps[0]), steps[1..])
  }

  ghost predicate UndisturbedRun(w: World, steps: seq<Step>)
    requires Wf(w) && Legal(w.tree, steps)
    decreases steps
  {
    steps == [] || (
      && Undisturbed(w, steps[0])
      && (NextWf(w, steps[0]); UndisturbedRun(Next(w, steps[0]), steps[1..])))
  }

  /** At every moment of the run all live tasks and open nurseries have their eager values. */
  ghost predicate AlwaysRefines(w: World, e: Eager, steps: seq<Step>)
    requires Wf(w) && Fits(e, w.tree) && Legal(w.tree, steps)
    decreases steps
  {
    && Refines(w, e)
    && (steps != [] ==>
          (NextWf(w, steps[0]); AlwaysRefines(Next(w, steps[0]), EagerNext(e, w.tree, steps[0]), steps[1..])))
  }

  /**
    The documented meaning of a tree variable: over a whole run the lazy variable has the
    values of the eager one, exactly if no started() disturbs it; and then everything it
    shows is what the eager one shows.
    */
  lemma {:induction false} RunRefines(w: World, e: Eager, steps: seq<Step>)
    requires Refines(w, e) && Legal(w.tree, steps)
    ensures AlwaysRefines(w, e, steps) <==> UndisturbedRun(w, steps)
    ensures UndisturbedRun(w, steps) ==>
      && Trace(w, steps) == EagerTrace(e, w.tree, steps)
      && Refines(Final(w, steps), EagerFinal(e, w.tree, steps))
    decreases steps
  {
    if steps != [] {
      StepRefinesIff(w, e, steps[0]);
      NextWf(w, steps[0]);
      var w', e' := Next(w, steps[0]), EagerNext(e, w.tree, steps[0]);
      if Undisturbed(w, steps[0]) {
        RunRefines(w', e', steps[1..]);
      } else if Fits(e', w'.tree) {
        assert !AlwaysRefines(w', e', steps[1..]);
      }
    }
  }

  lemma ProgramRefines(steps: seq<Step>)
    requires Legal(InitialWorld().tree, steps)
    ensures Wf(InitialWorld()) && Fits(InitialEager(), InitialWorld().tree)
    ensures AlwaysRefines(InitialWorld(), InitialEager(), steps) <==> UndisturbedRun(InitialWorld(), steps)
    ensures UndisturbedRun(InitialWorld(), steps) ==>
      Trace(InitialWorld(), steps) == EagerTrace(InitialEager(), InitialWorld().tree, steps)
  {
    InitialRefines();
    RunRefines(InitialWorld(), InitialEager(), steps);
  }

  lemma InitialRefines()
    ensures Refines(InitialWorld(), InitialEager())
  {
  }

  // ---- Programs that leave temporary nurseries alone ----

  /** The step lets no task join a temporary nursery while the start() that opened it is under way. */
  predicate LeavesAlone(tree: Tree, step: Step)
    requires Enabled(tree, step)
  {
    && (step.Spawn? ==> tree.nurseries[step.parent].target.None?)
    && (step.Start? ==> tree.nurseries[step.target].target.None?)
  }

  predicate LeavesTemporariesAlone(tree: Tree, steps: seq<Step>)
    requires Legal(tree, steps)
    decreases steps
  {
    steps == [] || (LeavesAlone(tree, steps[0]) && LeavesTemporariesAlone(NextTree(tree, steps[0]), steps[1..]))
  }

  /** Then a temporary nursery holds its starting task only, and its target is not temporary. */
  ghost predicate Tidy(tree: Tree) {
    && (forall n :: 0 <= n < |tree.nurseries| && tree.nurseries[n].target.Some? ==> TidyNursery(tree, n))
    && (forall t :: 0 <= t < |tree.tasks| && tree.tasks[t].live ==> TidyTask(tree, t))
  }

  predicate TidyNursery(tree: Tree, n: Nursery) {
    && n < |tree.nurseries| && tree.nurseries[n].target.Some?
    && tree.nurseries[n].target.value < |tree.nurseries|
    && tree.nurseries[tree.nurseries[n].target.value].target.None?
  }

  predicate TidyTask(tree: Tree, t: Task) {
    && t < |tree.tasks|
    && (tree.tasks[t].parent.Some? ==>
          && tree.tasks[t].parent.value < |tree.nurseries|
          && (tree.nurseries[tree.tasks[t].parent.value].target.Some? ==> tree.tasks[t].eventual.Some?))
  }

  lemma StepKeepsTidy(tree: Tree, step: Step)
    requires Tidy(tree) && Enabled(tree, step) && LeavesAlone(tree, step)
    ensures Tidy(NextTree(tree, step))
  {
    var tree' := NextTree(tree, step);
    if step.Started? {
      assert TidyNursery(tree, step.temporary);
    }
    forall n | 0 <= n < |tree.nurseries| && tree'.nurseries[n].target.Some? ensures TidyNursery(tree', n) {
      assert TidyNursery(tree, n);
    }
    forall t | 0 <= t < |tree.tasks| && tree'.tasks[t].live ensures TidyTask(tree', t) {
      assert TidyTask(tree, t);
    }
  }

  lemma TidyIsUndisturbed(w: World, step: Step)
    requires Wf(w) && Tidy(w.tree) && Enabled(w.tree, step)
    ensures Undisturbed(w, step)
  {
    if step.Started? {
      forall t: Task | Moves(w.tree, step.temporary, t)
        ensures !Unsettled(w.tree, w.cache, step.temporary, t)
      {
        assert TidyTask(w.tree, t);
      }
    }
  }

  lemma {:induction false} TidyRun(w: World, steps: seq<Step>)
    requires Wf(w) && Tidy(w.tree) && Legal(w.tree, steps) && LeavesTemporariesAlone(w.tree, steps)
    ensures UndisturbedRun(w, steps)
    decreases steps
  {
    if steps != [] {
      TidyIsUndisturbed(w, steps[0]);
      NextWf(w, steps[0]);
      StepKeepsTidy(w.tree, steps[0]);
      TidyRun(Next(w, steps[0]), steps[1..]);
    }
  }

  /** For such programs the lazy variable is the eager one, with no condition on its use. */
  lemma UsualProgramRefines(steps: seq<Step>)
    requires Legal(InitialWorld().tree, steps) && LeavesTemporariesAlone(InitialWorld().tree, steps)
    ensures Wf(InitialWorld()) && Fits(InitialEager(), InitialWorld().tree)
    ensures AlwaysRefines(InitialWorld(), InitialEager(), steps)
    ensures Trace(InitialWorld(), steps) == EagerTrace(InitialEager(), InitialWorld().tree, steps)
  {
    InitialRefines();
    TidyRun(InitialWorld(), steps);
    ProgramRefines(steps);
  }

  // ---- Consequences over whole runs ----

  predicate Assigns(step: Step, t: Task) {
    || (step.Set? && step.task == t)
    || (step.Reset? && step.task == t && step.token.owner == t)
  }

  /** Some step of the run assigns in task `t`. */
  predicate AssignsIn(steps: seq<Step>, t: Task) {
    steps != [] && (Assigns(steps[0], t) || AssignsIn(steps[1..], t))
  }

  lemma {:induction false} EagerStable(e: Eager, tree: Tree, steps: seq<Step>)
    requires Fits(e, tree) && Legal(tree, steps)
    ensures Fits(EagerFinal(e, tree, steps), FinalTree(tree, steps))
    ensures e.inNursery <= EagerFinal(e, tree, steps).inNursery
    ensures |e.inTask| <= |EagerFinal(e, tree, steps).inTask|
    ensures forall t :: 0 <= t < |e.inTask| && !AssignsIn(steps, t) ==>
      EagerFinal(e, tree, steps).inTask[t] == e.inTask[t]
    decreases steps
  {
    if steps != [] {
      var e1, tree1 := EagerNext(e, tree, steps[0]), NextTree(tree, steps[0]);
      EagerStable(e1, tree1, steps[1..]);
    }
  }

  lemma {:induction false} FinalHasTree(w: World, steps: seq<Step>)
    requires Wf(w) && Legal(w.tree, steps)
    ensures Wf(Final(w, steps)) && Final(w, steps).tree == FinalTree(w.tree, steps)
    decreases steps
  {
    if steps != [] {
      NextWf(w, steps[0]);
      FinalHasTree(Next(w, steps[0]), steps[1..]);
    }
  }

  const START := InitialWorld()

  /** The state a program has reached. */
  ghost function After(program: seq<Step>): (w: World)
    requires Legal(START.tree, program)
    ensures Wf(w) && w.tree == FinalTree(START.tree, program)
  {
    FinalHasTree(START, program);
    Final(START, program)
  }

  lemma AfterBegins(w: World, step: Step, rest: seq<Step>)
    requires Wf(w) && Enabled(w.tree, step) && Wf(Next(w, step)) && Next(w, step).tree == NextTree(w.tree, step)
    requires Legal(NextTree(w.tree, step), rest)
    ensures Legal(w.tree, [step] + rest) && Final(w, [step] + rest) == Final(Next(w, step), rest)
  {
    assert ([step] + rest)[1..] == rest;
  }

  const JOINED_TREE := Tree(
    [TaskInfo(None, None, true), TaskInfo(Some(1), Some(0), true), TaskInfo(Some(1), None, true)],
    [NurseryInfo(0, true, None, 1), NurseryInfo(0, true, Some(0), 1)])

  /** The first `set` of the main task, inside its one nursery. */
  lemma FirstSet(w: World, x: Payload)
    requires w.tree.tasks == [TaskInfo(None, None, true)] && w.tree.nurseries == [NurseryInfo(0, true, None, 1)]
    requires Wf(w) && w.cache == map[]
    ensures Next(w, Set(0, x)).cache == map[0 := Saved(Some(x), map[0 := None])]
  {
    assert FillUp(w.tree, w.cache, 0) == map[0 := Saved(None, map[])];
    assert w.tree.ChildNurseries(0) == {0};
    assert SaveFor(Saved(None, map[]), {0}).forChildren == map[0 := None];
  }

  const OPENED := Tree([TaskInfo(None, None, true)], [NurseryInfo(0, true, None, 1)])

  /** A child is started in that nursery, and another task joins the temporary nursery. */
  lemma JoinRun(x: Payload)
    ensures var w, rest := World(OPENED, map[0 := Saved(Some(x), map[0 := None])]), [Start(0, 0), Spawn(1)];
      && Wf(w) && Legal(w.tree, rest)
      && Final(w, rest) == World(JOINED_TREE, map[0 := Saved(Some(x), map[0 := None])])
  {
    var w := World(OPENED, map[0 := Saved(Some(x), map[0 := None])]);
    NextWf(w, Start(0, 0));
    var w1 := Next(w, Start(0, 0));
    NextWf(w1, Spawn(1));
    assert Next(w1, Spawn(1)).tree == JOINED_TREE;
    AfterBegins(w1, Spawn(1), []);
    AfterBegins(w, Start(0, 0), [Spawn(1)]);
    assert [Start(0, 0)] + [Spawn(1)] == [Start(0, 0), Spawn(1)];
  }

  lemma JoinedRun(x: Payload)
    ensures var program := [OpenNursery(0), Set(0, x), Start(0, 0), Spawn(1)];
      && Legal(START.tree, program)
      && After(program) == World(JOINED_TREE, map[0 := Saved(Some(x), map[0 := None])])
  {
    var rest := [Start(0, 0), Spawn(1)];
    NextWf(START, OpenNursery(0));
    var w1 := Next(START, OpenNursery(0));
    assert w1 == World(OPENED, map[]);
    NextWf(w1, Set(0, x));
    FirstSet(w1, x);
    JoinRun(x);
    AfterBegins(w1, Set(0, x), rest);
    AfterBegins(START, OpenNursery(0), [Set(0, x)] + rest);
    assert [OpenNursery(0)] + ([Set(0, x)] + rest) == [OpenNursery(0), Set(0, x), Start(0, 0), Spawn(1)];
  }

  /**
    Disturbance is reachable: the task joined the temporary nursery of a start() and has not
    used the variable; it has the value x before started() moves it, and none after it.
    */
  lemma JoinedTaskLosesValue(x: Payload)
    ensures var program := [OpenNursery(0), Set(0, x), Start(0, 0), Spawn(1)];
      && Legal(START.tree, program)
      && var w := After(program);
        && Enabled(w.tree, Started(1)) && w.tree.Live(2)
        && TaskValue(w.tree, w.cache, 2) == Some(x)
        && !Undisturbed(w, Started(1))
        && var w' := Next(w, Started(1));
          Wf(w') && w'.tree.Live(2) && TaskValue(w'.tree, w'.cache, 2) == None
  {
    JoinedRun(x);
    var w := After([OpenNursery(0), Set(0, x), Start(0, 0), Spawn(1)]);
    NextWf(w, Started(1));
    assert Unsettled(w.tree, w.cache, 1, 2);
    UnsettledValue(w, 1, 2);
  }

  /** The values a state has, as an eager variable. */
  ghost function Values(w: World): (e: Eager)
    requires Wf(w)
    ensures Refines(w, e)
  {
    Eager(seq(|w.tree.tasks|, t requires 0 <= t < |w.tree.tasks| => TaskValue(w.tree, w.cache, t)),
          seq(|w.tree.nurseries|, n requires 0 <= n < |w.tree.nurseries| => NurseryValue(w.tree, w.cache, n)))
  }

  /** Carrying on from any state changes the values as it changes the eager ones. */
  lemma Continue(w: World, more: seq<Step>)
    requires Wf(w) && Legal(w.tree, more) && UndisturbedRun(w, more)
    ensures Refines(Final(w, more), EagerFinal(Values(w), w.tree, more))
    ensures Final(w, more).tree == FinalTree(w.tree, more)
  {
    RunRefines(w, Values(w), more);
    FinalHasTree(w, more);
  }

  /**
    Snapshots never move: as long as a nursery stays open, the value it hands to new children
    is the one it had, whoever sets, resets, spawns or moves in between.
    */
  lemma NurseryIsFrozen(program: seq<Step>, more: seq<Step>, n: Nursery)
    requires Legal(START.tree, program) && Legal(FinalTree(START.tree, program), more)
    requires UndisturbedRun(After(program), more)
    requires FinalTree(START.tree, program).Open(n)
    requires FinalTree(FinalTree(START.tree, program), more).Open(n)
    ensures var w, w' := After(program), Final(After(program), more);
      && Wf(w') && w'.tree.Open(n)
      && NurseryValue(w'.tree, w'.cache, n) == NurseryValue(w.tree, w.cache, n)
  {
    Continue(After(program), more);
    EagerStable(Values(After(program)), After(program).tree, more);
  }

  /** A task's value only changes by its own `set` and `reset`. */
  lemma TaskIsPrivate(program: seq<Step>, more: seq<Step>, t: Task)
    requires Legal(START.tree, program) && Legal(FinalTree(START.tree, program), more)
    requires UndisturbedRun(After(program), more)
    requires FinalTree(START.tree, program).Live(t) && !AssignsIn(more, t)
    requires FinalTree(FinalTree(START.tree, program), more).Live(t)
    ensures var w, w' := After(program), Final(After(program), more);
      && Wf(w') && w'.tree.Live(t)
      && TaskValue(w'.tree, w'.cache, t) == TaskValue(w.tree, w.cache, t)
  {
    Continue(After(program), more);
    EagerStable(Values(After(program)), After(program).tree, more);
  }

  lemma StateKept(w: World, step: Step, t: Task)
    requires Wf(w) && Enabled(w.tree, step) && t in w.cache && !Assigns(step, t)
    ensures t in Next(w, step).cache && Next(w, step).cache[t].value == w.cache[t].value
  {
  }

  /** Once a task has used the variable this holds without any condition, whatever is moved. */
  lemma {:induction false} UsedVariableIsPrivate(w: World, more: seq<Step>, t: Task)
    requires Wf(w) && Legal(w.tree, more) && t in w.cache && !AssignsIn(more, t)
    ensures Wf(Final(w, more)) && t in Final(w, more).cache
    ensures TaskValue(Final(w, more).tree, Final(w, more).cache, t) == TaskValue(w.tree, w.cache, t)
    decreases more
  {
    FinalHasTree(w, more);
    if more != [] {
      StateKept(w, more[0], t);
      NextWf(w, more[0]);
      UsedVariableIsPrivate(Next(w, more[0]), more[1..], t);
    }
  }

  /** The state inside `being(v)` entered by task `t`, after its body has run so far. */
  ghost function Inside(program: seq<Step>, t: Task, v: Payload, body: seq<Step>): (w: World)
    requires Legal(START.tree, program) && FinalTree(START.tree, program).Live(t)
    requires Legal(FinalTree(START.tree, program), body)
    ensures Wf(w) && w.tree == FinalTree(FinalTree(START.tree, program), body)
  {
    NextWf(After(program), Set(t, v));
    FinalHasTree(Next(After(program), Set(t, v)), body);
    Final(Next(After(program), Set(t, v)), body)
  }

  /** `reset` with any token of the task. */
  lemma ResetRestores(w: World, t: Task, v: Value)
    requires Wf(w) && w.tree.Live(t)
    ensures var after := Next(w, Reset(t, Token(t, v)));
      && Wf(after) && after.tree == w.tree
      && TaskValue(after.tree, after.cache, t) == v
      && forall n: Nursery :: w.tree.Open(n) ==>
           NurseryValue(after.tree, after.cache, n) == NurseryValue(w.tree, w.cache, n)
  {
    AssignWf(w, t, v);
    AssignFrames(w, t, v);
  }

  /** Nurseries that stay open while `t` sets the variable and `body` runs keep their values. */
  lemma SnapshotsInside(program: seq<Step>, t: Task, v: Payload, body: seq<Step>, n: Nursery)
    requires Legal(START.tree, program) && FinalTree(START.tree, program).Live(t)
    requires Legal(FinalTree(START.tree, program), body)
    requires Wf(Next(After(program), Set(t, v))) && UndisturbedRun(Next(After(program), Set(t, v)), body)
    requires After(program).tree.Open(n) && Inside(program, t, v, body).tree.Open(n)
    ensures NurseryValue(Inside(program, t, v, body).tree, Inside(program, t, v, body).cache, n)
         == NurseryValue(After(program).tree, After(program).cache, n)
  {
    AssignFrames(After(program), t, Some(v));
    var w1 := Next(After(program), Set(t, v));
    Continue(w1, body);
    EagerStable(Values(w1), w1.tree, body);
  }

  /**
    `being`: entering sets and keeps the token, leaving resets with it. Whatever happened
    inside, the task is back at the value it had, and its snapshots are untouched.
    */
  lemma BeingRestores(program: seq<Step>, t: Task, v: Payload, body: seq<Step>)
    requires Legal(START.tree, program) && FinalTree(START.tree, program).Live(t)
    requires Legal(FinalTree(START.tree, program), body)
    requires FinalTree(FinalTree(START.tree, program), body).Live(t)
    ensures var w, token := After(program), Token(t, Observe(After(program), Set(t, v)).value);
      var after := Next(Inside(program, t, v, body), Reset(t, token));
      && Wf(after) && after.tree.Live(t)
      && TaskValue(after.tree, after.cache, t) == TaskValue(w.tree, w.cache, t)
      && Wf(Next(w, Set(t, v)))
      && (UndisturbedRun(Next(w, Set(t, v)), body) ==>
            forall n: Nursery :: w.tree.Open(n) && after.tree.Open(n) ==>
              NurseryValue(after.tree, after.cache, n) == NurseryValue(w.tree, w.cache, n))
  {
    var w := After(program);
    NextWf(w, Set(t, v));
    FillInvisible(w.tree, w.cache, t);
    var inside := Inside(program, t, v, body);
    ResetRestores(inside, t, TaskValue(w.tree, w.cache, t));
    if UndisturbedRun(Next(w, Set(t, v)), body) {
      forall n: Nursery | w.tree.Open(n) && inside.tree.Open(n)
        ensures NurseryValue(inside.tree, inside.cache, n) == NurseryValue(w.tree, w.cache, n)
      {
        SnapshotsInside(program, t, v, body, n);
      }
    }
  }
}
