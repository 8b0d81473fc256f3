/** Whole programs that use one variable object, and what they see. */
module TreeVarProgram {
  import opened Options
  import opened TreeVarModel
  import opened TreeVarProofs
  import opened TreeVarObject

  /**
    One call in a program: the step, the task that spawns (for a step that makes a task, any
    task at all) and the default that a look-up passes.
    */
  datatype Call = Call(step: Step, spawner: Task, argument: Value)

  datatype Answer = NoAnswer | Looked(result: Lookup) | GotToken(token: Token) | Refused

  /** What a caller gets when the variable has the value that is observed. */
  function AnswerTo(call: Call, seen: Observation, dflt: Value): Answer {
    match seen
    case Silent => NoAnswer
    case WrongContext => Refused
    case Saw(value) =>
      if call.step.Set? then GotToken(Token(call.step.task, value))
      else Looked(Resolve(value, call.argument, dflt))
  }

  function AnswersTo(calls: seq<Call>, seen: seq<Observation>, dflt: Value): seq<Answer>
    requires |seen| == |calls|
  {
    seq(|calls|, i requires 0 <= i < |calls| => AnswerTo(calls[i], seen[i], dflt))
  }

  function StepsOf(calls: seq<Call>): seq<Step> {
    seq(|calls|, i requires 0 <= i < |calls| => calls[i].step)
  }

  lemma {:induction false} TraceLength(w: World, steps: seq<Step>)
    requires Wf(w) && Legal(w.tree, steps)
    ensures |Trace(w, steps)| == |steps|
    decreases steps
  {
    if steps != [] {
      NextWf(w, steps[0]);
      TraceLength(Next(w, steps[0]), steps[1..]);
    }
  }

  lemma {:induction false} EagerTraceLength(e: Eager, tree: Tree, steps: seq<Step>)
    requires Fits(e, tree) && Legal(tree, steps)
    ensures |EagerTrace(e, tree, steps)| == |steps|
    decreases steps
  {
    if steps != [] {
      EagerTraceLength(EagerNext(e, tree, steps[0]), NextTree(tree, steps[0]), steps[1..]);
    }
  }

  /** One call of a program, on the object. */
  method Do(v: TreeVar, tree: Tree, call: Call) returns (answer: Answer)
    requires Wf(World(tree, v.Owned())) && v.Within(tree) && Enabled(tree, call.step)
    modifies v`contexts, v.contexts.Values
    ensures v.Within(NextTree(tree, call.step))
    ensures fresh(v.contexts.Values - old(v.contexts.Values))
    ensures World(NextTree(tree, call.step), v.Owned()) == Next(World(tree, old(v.Owned())), call.step)
    ensures answer == AnswerTo(call, Observe(World(tree, old(v.Owned())), call.step), v.dflt)
  {
    answer := NoAnswer;
    match call.step
    case Get(t) =>
      ObserveValue(World(tree, v.Owned()), call.step);
      var r := v.Get(tree, t, call.argument);
      answer := Looked(r);
    case Set(t, value) =>
      ObserveValue(World(tree, v.Owned()), call.step);
      var token := v.Set(tree, t, value);
      answer := GotToken(token);
    case Reset(t, token) =>
      var ok := v.Reset(tree, t, token);
      answer := if ok then NoAnswer else Refused;
    case GetInTask(t) =>
      var r := v.GetInTask(tree, t, call.argument);
      answer := Looked(r);
    case GetInNursery(n) =>
      var r := v.GetInNursery(tree, n, call.argument);
      answer := Looked(r);
    case Forget(t, n) => v.Forget(tree, t, n);
    case Spawn(_) => var _ := v.CopyContext(tree, call.step, call.spawner);
    case Start(_, _) => var _ := v.CopyContext(tree, call.step, call.spawner);
    case _ =>
  }

  lemma ObserveValue(w: World, step: Step)
    requires Rooted(w.tree) && Enabled(w.tree, step) && (step.Get? || step.Set?)
    ensures Observe(w, step) == Saw(TaskValue(w.tree, w.cache, step.task))
  {
    FillInvisible(w.tree, w.cache, step.task);
  }

  lemma AnswersCons(calls: seq<Call>, first: Observation, rest: seq<Observation>, dflt: Value)
    requires |calls| == |rest| + 1
    ensures AnswersTo(calls, [first] + rest, dflt)
         == [AnswerTo(calls[0], first, dflt)] + AnswersTo(calls[1..], rest, dflt)
  {
  }

  /** The steps of a run that is cut before its first step. */
  lemma RunStep(w: World, calls: seq<Call>, dflt: Value)
    requires Wf(w) && calls != [] && Legal(w.tree, StepsOf(calls))
    ensures var step, w' := calls[0].step, Next(w, calls[0].step);
      && Enabled(w.tree, step) && Wf(w') && w'.tree == NextTree(w.tree, step)
      && Legal(w'.tree, StepsOf(calls[1..]))
      && Final(w, StepsOf(calls)) == Final(w', StepsOf(calls[1..]))
      && |Trace(w, StepsOf(calls))| == |calls| && |Trace(w', StepsOf(calls[1..]))| == |calls| - 1
      && AnswersTo(calls, Trace(w, StepsOf(calls)), dflt)
           == [AnswerTo(calls[0], Observe(w, step), dflt)]
              + AnswersTo(calls[1..], Trace(w', StepsOf(calls[1..])), dflt)
  {
    var steps := StepsOf(calls);
    assert steps[0] == calls[0].step && steps[1..] == StepsOf(calls[1..]);
    NextWf(w, steps[0]);
    TraceLength(w, steps);
    TraceLength(Next(w, steps[0]), steps[1..]);
    AnswersCons(calls, Observe(w, steps[0]), Trace(Next(w, steps[0]), steps[1..]), dflt);
  }

  /**
    Any program on the object, whoever spawns whom, and thus whichever states are shared: it
    takes the run of the model, and gets the answers that go with what the run observes.
    */
  method RunCalls(v: TreeVar, tree: Tree, calls: seq<Call>) returns (answers: seq<Answer>)
    requires Wf(World(tree, v.Owned())) && v.Within(tree) && Legal(tree, StepsOf(calls))
    modifies v`contexts, v.contexts.Values
    ensures v.Within(FinalTree(tree, StepsOf(calls)))
    ensures fresh(v.contexts.Values - old(v.contexts.Values))
    ensures World(FinalTree(tree, StepsOf(calls)), v.Owned()) == Final(World(tree, old(v.Owned())), StepsOf(calls))
    ensures |Trace(World(tree, old(v.Owned())), StepsOf(calls))| == |calls|
    ensures answers == AnswersTo(calls, Trace(World(tree, old(v.Owned())), StepsOf(calls)), v.dflt)
    decreases |calls|
  {
    TraceLength(World(tree, v.Owned()), StepsOf(calls));
    if calls == [] {
      return [];
    }
    RunStep(World(tree, v.Owned()), calls, v.dflt);
    var first := Do(v, tree, calls[0]);
    assert StepsOf(calls)[1..] == StepsOf(calls[1..]);
    var rest := RunCalls(v, NextTree(tree, calls[0].step), calls[1..]);
    answers := [first] + rest;
  }

  /** What a run observes in a task that has a state and does not assign before. */
  lemma {:induction false} TraceAt(w: World, steps: seq<Step>, t: Task, j: nat)
    requires Wf(w) && Legal(w.tree, steps) && j < |steps| && steps[j] in {Get(t), GetInTask(t)}
    requires t in w.cache && !AssignsIn(steps[..j], t)
    ensures |Trace(w, steps)| == |steps| && Trace(w, steps)[j] == Saw(w.cache[t].value)
    decreases j
  {
    TraceLength(w, steps);
    NextWf(w, steps[0]);
    if j > 0 {
      assert steps[..j][0] == steps[0] && steps[..j][1..] == steps[1..][..j - 1];
      StateKept(w, steps[0], t);
      TraceAt(Next(w, steps[0]), steps[1..], t, j - 1);
    }
  }

  /** The same when the task gets its state in the first step. */
  lemma TraceAfterUse(w: World, steps: seq<Step>, t: Task, j: nat)
    requires Wf(w) && Legal(w.tree, steps) && 0 < j < |steps| && (steps[0].Get? || steps[0].Set?)
    requires steps[0].task == t && steps[j] in {Get(t), GetInTask(t)} && !AssignsIn(steps[1..j], t)
    ensures |Trace(w, steps)| == |steps|
    ensures Trace(w, steps)[j] == Saw(if steps[0].Set? then Some(steps[0].value) else TaskValue(w.tree, w.cache, t))
  {
    TraceLength(w, steps);
    NextWf(w, steps[0]);
    UseLeavesState(w, steps[0]);
    assert steps[1..j] == steps[1..][..j - 1];
    TraceAt(Next(w, steps[0]), steps[1..], t, j - 1);
    assert Trace(w, steps)[j] == Trace(Next(w, steps[0]), steps[1..])[j - 1];
  }

  /**
    After `set(v)` a task finds v, whatever default it passes, and get_in finds it there, until
    the task assigns again: in every program, whatever is spawned, moved or set elsewhere.
    */
  lemma SetIsSeen(w: World, calls: seq<Call>, t: Task, v: Payload, j: nat, dflt: Value)
    requires Wf(w) && Legal(w.tree, StepsOf(calls)) && 0 < j < |calls| && calls[0].step == Set(t, v)
    requires calls[j].step in {Get(t), GetInTask(t)} && !AssignsIn(StepsOf(calls)[1..j], t)
    ensures |Trace(w, StepsOf(calls))| == |calls|
    ensures AnswersTo(calls, Trace(w, StepsOf(calls)), dflt)[j] == Looked(Found(v))
  {
    TraceAfterUse(w, StepsOf(calls), t, j);
  }

  /** And what it has once looked up it finds again, even if it was moved in between. */
  lemma GetIsRepeated(w: World, calls: seq<Call>, t: Task, j: nat, dflt: Value)
    requires Wf(w) && Legal(w.tree, StepsOf(calls)) && 0 < j < |calls| && calls[0].step == Get(t)
    requires calls[j].step in {Get(t), GetInTask(t)} && !AssignsIn(StepsOf(calls)[1..j], t)
    requires calls[j].argument == calls[0].argument
    ensures |Trace(w, StepsOf(calls))| == |calls|
    ensures var answers := AnswersTo(calls, Trace(w, StepsOf(calls)), dflt);
      answers[j] == answers[0]
  {
    var steps := StepsOf(calls);
    TraceAfterUse(w, steps, t, j);
    ObserveValue(w, steps[0]);
    assert Trace(w, steps)[0] == Observe(w, steps[0]);
  }

  /** The documented meaning, of the object: in an undisturbed program it is the eager variable. */
  method RunProgram(calls: seq<Call>, dflt: Value) returns (v: TreeVar, answers: seq<Answer>)
    requires Legal(START.tree, StepsOf(calls))
    ensures fresh(v) && v.dflt == dflt && v.Within(FinalTree(START.tree, StepsOf(calls)))
    ensures World(FinalTree(START.tree, StepsOf(calls)), v.Owned()) == After(StepsOf(calls))
    ensures |Trace(START, StepsOf(calls))| == |EagerTrace(InitialEager(), START.tree, StepsOf(calls))| == |calls|
    ensures answers == AnswersTo(calls, Trace(START, StepsOf(calls)), dflt)
    ensures UndisturbedRun(START, StepsOf(calls)) ==>
      && answers == AnswersTo(calls, EagerTrace(InitialEager(), START.tree, StepsOf(calls)), dflt)
      && Refines(World(FinalTree(START.tree, StepsOf(calls)), v.Owned()),
                 EagerFinal(InitialEager(), START.tree, StepsOf(calls)))
  {
    v := new TreeVar(dflt);
    assert World(START.tree, v.Owned()) == START;
    InitialRefines();
    RunRefines(START, InitialEager(), StepsOf(calls));
    EagerTraceLength(InitialEager(), START.tree, StepsOf(calls));
    answers := RunCalls(v, START.tree, calls);
  }
}
