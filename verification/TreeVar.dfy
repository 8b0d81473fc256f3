/**
  The variable as an object. States are heap objects: a task that was spawned starts with
  its spawner's context, so many tasks may share one state, and only the task that a state
  names may use or change it.
  */
module TreeVarObject {
  import opened Options
  import opened TreeVarModel
  import opened TreeVarProofs

  /** What a look-up gives: a value, or the source's LookupError. */
  datatype Lookup = Found(payload: Payload) | LookupError

  /** The value, else the caller's default, else the variable's own default. */
  function Resolve(value: Value, argument: Value, own: Value): Lookup {
    if value.Some? then Found(value.value)
    else if argument.Some? then Found(argument.value)
    else if own.Some? then Found(own.value)
    else LookupError
  }

  lemma FillUpOnce(tree: Tree, cache: Cache, t: Task)
    requires Rooted(tree) && t < |tree.tasks| && t !in cache
    ensures match tree.tasks[t].Home()
      case None => FillUp(tree, cache, t) == cache[t := Saved(None, map[])]
      case Some(n) =>
        var p := ParentTask(tree, t);
        var above := FillUp(tree, cache, p);
        t !in above && FillUp(tree, cache, t) == above[t := Saved(above[p].ForChild(n), map[])]
  {
  }

  class VarState {
    const task: Task
    var valueForTask: Value
    var valueForChildren: map<Nursery, Value>

    constructor (task: Task, value: Value)
      ensures this.task == task && AsSaved() == Saved(value, map[])
    {
      this.task, this.valueForTask, this.valueForChildren := task, value, map[];
    }

    function AsSaved(): Saved
      reads this
    {
      Saved(valueForTask, valueForChildren)
    }

    /** The weak dictionary loses the entry of a nursery that is gone. */
    method Forget(nursery: Nursery)
      modifies this`valueForChildren
      ensures AsSaved() == old(AsSaved()).(forChildren := old(valueForChildren) - {nursery})
    {
      valueForChildren := valueForChildren - {nursery};
    }

    method SaveCurrentForChildren(tree: Tree)
      modifies this`valueForChildren
      ensures AsSaved() == SaveFor(old(AsSaved()), tree.ChildNurseries(task))
    {
      var todo := tree.ChildNurseries(task);
      while todo != {}
        invariant todo <= tree.ChildNurseries(task)
        invariant valueForChildren.Keys == old(valueForChildren.Keys) + (tree.ChildNurseries(task) - todo)
        invariant forall n :: n in valueForChildren ==> valueForChildren[n] == old(AsSaved()).ForChild(n)
        decreases todo
      {
        var n :| n in todo;
        if n !in valueForChildren {
          valueForChildren := valueForChildren[n := valueForTask];
        }
        todo := todo - {n};
      }
    }
  }

  class TreeVar {
    const dflt: Value
    // The entry of this variable in the context of each task.
    var contexts: map<Task, VarState>

    constructor (dflt: Value)
      ensures this.dflt == dflt && contexts == map[] && Owned() == map[]
    {
      this.dflt, this.contexts := dflt, map[];
    }

    /** The states that count: those found in the context of the task they name. */
    ghost function Owned(): Cache
      reads this, set t | t in contexts :: contexts[t]
    {
      map t | t in contexts && contexts[t].task == t :: contexts[t].AsSaved()
    }

    /** Only existing tasks have contexts, and only existing tasks are named by states. */
    ghost predicate Within(tree: Tree)
      reads this, set t | t in contexts :: contexts[t]
    {
      forall t :: t in contexts ==> t < |tree.tasks| && contexts[t].task < |tree.tasks|
    }

    /** The value if there is one, else what the caller offers, else the default, else an error. */
    ghost predicate Answers(r: Lookup, value: Value, argument: Value) {
      && (value.Some? ==> r == Found(value.value))
      && (value.None? && argument.Some? ==> r == Found(argument.value))
      && (value.None? && argument.None? && dflt.Some? ==> r == Found(dflt.value))
      && (r == LookupError <==> value.None? && argument.None? && dflt.None?)
    }

    /** The context of a new task is a copy of the spawner's. No task's own state changes hands. */
    method CopyContext(tree: Tree, step: Step, spawner: Task) returns (child: Task)
      requires (step.Spawn? || step.Start?) && Enabled(tree, step) && Within(tree)
      modifies this`contexts
      ensures child == |tree.tasks| && Within(NextTree(tree, step))
      ensures Owned() == old(Owned())
      ensures spawner in old(contexts) ==> child in contexts && contexts[child] == old(contexts)[spawner]
      ensures spawner !in old(contexts) ==> contexts == old(contexts)
      ensures forall t :: t in old(contexts) ==> t in contexts && contexts[t] == old(contexts)[t]
      ensures contexts.Keys <= old(contexts).Keys + {child}
      ensures contexts.Values <= old(contexts.Values)
    {
      child := |tree.tasks|;
      if spawner in contexts {
        contexts := contexts[child := contexts[spawner]];
      }
    }

    /** A new state, put into the context of the task it names if that is wanted. */
    method NewState(forTask: Task, value: Value, caching: bool) returns (state: VarState)
      requires forTask !in Owned()
      modifies this`contexts
      ensures fresh(state) && state.task == forTask && state.AsSaved() == Saved(value, map[])
      ensures contexts == if caching then old(contexts)[forTask := state] else old(contexts)
      ensures Owned() == if caching then old(Owned())[forTask := Saved(value, map[])] else old(Owned())
    {
      state := new VarState(forTask, value);
      if caching {
        contexts := contexts[forTask := state];
      }
    }

    /** With `caching` false (a call from `get_in`) the contexts stay as they are. */
    method Fetch(tree: Tree, forTask: Task, caching: bool) returns (state: VarState)
      requires Rooted(tree) && forTask < |tree.tasks|
      modifies this`contexts
      ensures state.task == forTask
      ensures state.AsSaved() == FillUp(tree, old(Owned()), forTask)[forTask]
      ensures fresh(state) || state in old(contexts.Values)
      ensures fresh(contexts.Values - old(contexts.Values))
      ensures forall t :: t in contexts ==>
        || (t in old(contexts) && contexts[t] == old(contexts)[t])
        || (t <= forTask && contexts[t].task == t)
      ensures !caching ==> contexts == old(contexts)
      ensures caching ==> forTask in contexts && contexts[forTask] == state
      ensures caching ==> Owned() == FillUp(tree, old(Owned()), forTask)
      decreases forTask
    {
      if forTask in contexts && contexts[forTask].task == forTask {
        return contexts[forTask];
      }
      FillUpOnce(tree, Owned(), forTask);
      var home := tree.tasks[forTask].Home();
      var inherited: Value := None;
      if home.Some? {
        assert ParentTask(tree, forTask) < forTask;
        var parentState := Fetch(tree, tree.nurseries[home.value].owner, caching);
        inherited := parentState.AsSaved().ForChild(home.value);
      }
      state := NewState(forTask, inherited, caching);
    }

    method Get(tree: Tree, thisTask: Task, argument: Value) returns (r: Lookup)
      requires Rooted(tree) && tree.Live(thisTask) && Within(tree)
      modifies this`contexts
      ensures Within(tree) && r == Resolve(TaskValue(tree, old(Owned()), thisTask), argument, dflt)
      ensures Answers(r, TaskValue(tree, old(Owned()), thisTask), argument)
      ensures World(tree, Owned()) == Next(World(tree, old(Owned())), Step.Get(thisTask))
      ensures thisTask in contexts && contexts[thisTask].task == thisTask
      ensures fresh(contexts.Values - old(contexts.Values))
    {
      assert FillUp(tree, Owned(), thisTask)[thisTask].value == TaskValue(tree, Owned(), thisTask) by {
        FillInvisible(tree, Owned(), thisTask);
      }
      var state := Fetch(tree, thisTask, true);
      r := Resolve(state.valueForTask, argument, dflt);
    }

    /** Saves the value for the open nurseries and replaces it. */
    method Store(tree: Tree, state: VarState, value: Value)
      requires state.task in contexts && contexts[state.task] == state
      modifies state
      ensures Owned() == old(Owned())[state.task :=
        SaveFor(old(state.AsSaved()), tree.ChildNurseries(state.task)).(value := value)]
    {
      state.SaveCurrentForChildren(tree);
      state.valueForTask := value;
    }

    /** What `set` and `reset` have in common. */
    method Replace(tree: Tree, thisTask: Task, value: Value) returns (previous: Value)
      requires Rooted(tree) && tree.Live(thisTask) && Within(tree)
      modifies this`contexts, contexts.Values
      ensures Within(tree) && previous == FillUp(tree, old(Owned()), thisTask)[thisTask].value
      ensures World(tree, Owned()) == Assign(World(tree, old(Owned())), thisTask, value)
      ensures fresh(contexts.Values - old(contexts.Values))
    {
      var state := Fetch(tree, thisTask, true);
      previous := state.valueForTask;
      Store(tree, state, value);
    }

    method Set(tree: Tree, thisTask: Task, value: Payload) returns (token: Token)
      requires Rooted(tree) && tree.Live(thisTask) && Within(tree)
      modifies this`contexts, contexts.Values
      ensures Within(tree) && token == Token(thisTask, TaskValue(tree, old(Owned()), thisTask))
      ensures World(tree, Owned()) == Next(World(tree, old(Owned())), Step.Set(thisTask, value))
      ensures fresh(contexts.Values - old(contexts.Values))
    {
      assert FillUp(tree, Owned(), thisTask)[thisTask].value == TaskValue(tree, Owned(), thisTask) by {
        FillInvisible(tree, Owned(), thisTask);
      }
      var previous := Replace(tree, thisTask, Some(value));
      token := Token(thisTask, previous);
    }

    method Reset(tree: Tree, thisTask: Task, token: Token) returns (ok: bool)
      requires Rooted(tree) && tree.Live(thisTask) && Within(tree)
      modifies this`contexts, contexts.Values
      ensures Within(tree) && (ok <==> token.owner == thisTask)
      ensures World(tree, Owned()) == Next(World(tree, old(Owned())), Step.Reset(thisTask, token))
      ensures fresh(contexts.Values - old(contexts.Values))
    {
      ok := token.owner == thisTask;
      if ok {
        var _ := Replace(tree, thisTask, token.oldValue);
      }
    }

    /** An entry for a closed nursery disappears from the state of a task. */
    method Forget(tree: Tree, task: Task, nursery: Nursery)
      requires Rooted(tree) && Enabled(tree, Step.Forget(task, nursery)) && Within(tree)
      modifies contexts.Values
      ensures World(tree, Owned()) == Next(World(tree, old(Owned())), Step.Forget(task, nursery))
    {
      if task in contexts && contexts[task].task == task {
        contexts[task].Forget(nursery);
      }
    }

    method GetInTask(tree: Tree, task: Task, argument: Value) returns (r: Lookup)
      requires Rooted(tree) && tree.Live(task) && Within(tree)
      modifies this`contexts
      ensures contexts == old(contexts) && Owned() == old(Owned())
      ensures r == Resolve(TaskValue(tree, old(Owned()), task), argument, dflt)
      ensures Answers(r, TaskValue(tree, old(Owned()), task), argument)
    {
      assert FillUp(tree, Owned(), task)[task].value == TaskValue(tree, Owned(), task) by {
        FillInvisible(tree, Owned(), task);
      }
      var state := Fetch(tree, task, false);
      r := Resolve(state.valueForTask, argument, dflt);
    }

    method GetInNursery(tree: Tree, nursery: Nursery, argument: Value) returns (r: Lookup)
      requires Rooted(tree) && tree.Open(nursery) && Within(tree)
      modifies this`contexts
      ensures contexts == old(contexts) && Owned() == old(Owned())
      ensures r == Resolve(NurseryValue(tree, old(Owned()), nursery), argument, dflt)
      ensures Answers(r, NurseryValue(tree, old(Owned()), nursery), argument)
    {
      var owner := tree.nurseries[nursery].owner;
      assert Owner(tree, nursery) == owner;
      assert FillUp(tree, Owned(), owner)[owner].value == TaskValue(tree, Owned(), owner) by {
        FillInvisible(tree, Owned(), owner);
      }
      var state := Fetch(tree, owner, false);
      r := Resolve(state.AsSaved().ForChild(nursery), argument, dflt);
    }
  }
}
