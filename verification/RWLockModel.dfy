/**
  The readers-writer lock as a state machine over values: one `Step` is everything one
  call does between two awaits. The results of the loops in the source are given in
  closed form; the class in RWLock.dfy runs the loops themselves.
  */
module RWLockModel {
  import opened Options

  /** The identity of a task. */
  type Task = nat

  /** One entry of the ordered dictionary of waiting tasks. */
  datatype Waiter = Waiter(task: Task, forWrite: bool)

  datatype Lock = Lock(
    writer: Option<Task>,
    readers: set<Task>,
    waiting: seq<Waiter>,
    waitingWriters: int,
    readBiased: bool)
  {
    predicate Holds(t: Task) {
      writer == Some(t) || t in readers
    }

    predicate Held() {
      writer.Some? || readers != {}
    }
  }

  datatype Step =
    | AcquireNowait(task: Task, forWrite: bool)
    | Acquire(task: Task, forWrite: bool)
    | Release(task: Task)
    | CancelWaiter(task: Task)
    | SetReadBiased(newValue: bool)

  /** How the call ended: it returned, it left its task blocked in the queue, or it raised. */
  datatype Outcome = Returned | Blocked | WouldBlock | AlreadyHeld | NotOwner

  /** What a step does: the new lock, and the tasks it reschedules in call order. */
  datatype Effect = Effect(lock: Lock, rescheduled: seq<Task>, outcome: Outcome)

  function Initial(readBiased: bool): Lock {
    Lock(None, {}, [], 0, readBiased)
  }

  // ---- The wait queue ----

  predicate Queued(q: seq<Waiter>, t: Task) {
    exists i :: 0 <= i < |q| && q[i].task == t
  }

  predicate Distinct(q: seq<Waiter>) {
    forall i, j :: 0 <= i < j < |q| ==> q[i].task != q[j].task
  }

  predicate HasReader(q: seq<Waiter>) {
    exists i :: 0 <= i < |q| && !q[i].forWrite
  }

  function CountWriters(q: seq<Waiter>): nat {
    if q == [] then 0 else (if q[0].forWrite then 1 else 0) + CountWriters(q[1..])
  }

  function WritersOf(q: seq<Waiter>): seq<Waiter> {
    if q == [] then []
    else if q[0].forWrite then [q[0]] + WritersOf(q[1..])
    else WritersOf(q[1..])
  }

  function ReaderTasks(q: seq<Waiter>): seq<Task> {
    if q == [] then []
    else if q[0].forWrite then ReaderTasks(q[1..])
    else [q[0].task] + ReaderTasks(q[1..])
  }

  function TasksOf(q: seq<Waiter>): seq<Task> {
    seq(|q|, i requires 0 <= i < |q| => q[i].task)
  }

  function ToSet(ts: seq<Task>): set<Task> {
    set t | t in ts
  }

  /** The number of readers in front of the first writer. */
  function ReaderPrefix(q: seq<Waiter>): (n: nat)
    ensures n <= |q|
    ensures forall i :: 0 <= i < n ==> !q[i].forWrite
    ensures n < |q| ==> q[n].forWrite
  {
    if q == [] || q[0].forWrite then 0 else 1 + ReaderPrefix(q[1..])
  }

  /** The queue without the entry of `t`: deletion from an ordered dictionary. */
  function Without(q: seq<Waiter>, t: Task): seq<Waiter> {
    if q == [] then []
    else if q[0].task == t then q[1..]
    else [q[0]] + Without(q[1..], t)
  }

  function Position(q: seq<Waiter>, t: Task): (p: nat)
    requires Queued(q, t)
    ensures p < |q| && q[p].task == t
    ensures forall i :: 0 <= i < p ==> q[i].task != t
  {
    if q[0].task == t then 0 else 1 + Position(q[1..], t)
  }

  // ---- The steps ----

  function TryAcquire(s: Lock, t: Task, forWrite: bool): Effect {
    if s.Holds(t) then Effect(s, [], AlreadyHeld)
    else if s.writer.Some? then Effect(s, [], WouldBlock)
    else if forWrite && s.readers == {} then Effect(s.(writer := Some(t)), [], Returned)
    else if !forWrite && (s.readBiased || s.waitingWriters == 0) then
      Effect(s.(readers := s.readers + {t}), [], Returned)
    else Effect(s, [], WouldBlock)
  }

  function AcquireOrWait(s: Lock, t: Task, forWrite: bool): Effect {
    var e := TryAcquire(s, t, forWrite);
    if e.outcome.WouldBlock? then
      Effect(s.(waiting := s.waiting + [Waiter(t, forWrite)],
                waitingWriters := s.waitingWriters + if forWrite then 1 else 0), [], Blocked)
    else e
  }

  /** Every waiting reader gets the lock, whoever holds it; the writers keep their order. */
  function WakeAllReaders(s: Lock): Effect {
    var woken := ReaderTasks(s.waiting);
    Effect(s.(readers := s.readers + ToSet(woken), waiting := WritersOf(s.waiting)), woken, Returned)
  }

  /** What the hand-off loop of a release gives away once no writer holds the lock. */
  function HandOff(s: Lock): Effect {
    var q := s.waiting;
    if q == [] then Effect(s, [], Returned)
    else if q[0].forWrite then
      if s.readers == {} then
        Effect(s.(writer := Some(q[0].task), waiting := q[1..], waitingWriters := s.waitingWriters - 1),
               [q[0].task], Returned)
      else Effect(s, [], Returned)
    else if s.readBiased then WakeAllReaders(s)
    else
      var k := ReaderPrefix(q);
      Effect(s.(readers := s.readers + ToSet(TasksOf(q[..k])), waiting := q[k..]), TasksOf(q[..k]), Returned)
  }

  function ReleaseBy(s: Lock, t: Task): Effect {
    if s.writer == Some(t) then HandOff(s.(writer := None))
    else if t in s.readers then
      var s1 := s.(readers := s.readers - {t});
      if s1.readers == {} && s1.writer.None? then HandOff(s1) else Effect(s1, [], Returned)
    else Effect(s, [], NotOwner)
  }

  /** The abort callback of a waiting task: it leaves the queue and wakes nobody. */
  function Cancel(s: Lock, t: Task): Effect
    requires Queued(s.waiting, t)
  {
    var w := s.waiting[Position(s.waiting, t)].forWrite;
    Effect(s.(waiting := Without(s.waiting, t),
              waitingWriters := s.waitingWriters - if w then 1 else 0), [], Returned)
  }

  function SetBias(s: Lock, newValue: bool): Effect {
    var e := if newValue && !s.readBiased then WakeAllReaders(s) else Effect(s, [], Returned);
    e.(lock := e.lock.(readBiased := newValue))
  }

  /** A blocked task runs no code, and only a blocked task can be aborted. */
  predicate Enabled(s: Lock, step: Step) {
    match step
    case AcquireNowait(t, _) => !Queued(s.waiting, t)
    case Acquire(t, _) => !Queued(s.waiting, t)
    case Release(t) => !Queued(s.waiting, t)
    case CancelWaiter(t) => Queued(s.waiting, t)
    case SetReadBiased(_) => true
  }

  function Next(s: Lock, step: Step): Effect
    requires Enabled(s, step)
  {
    match step
    case AcquireNowait(t, w) => TryAcquire(s, t, w)
    case Acquire(t, w) => AcquireOrWait(s, t, w)
    case Release(t) => ReleaseBy(s, t)
    case CancelWaiter(t) => Cancel(s, t)
    case SetReadBiased(v) => SetBias(s, v)
  }

  // ---- Runs ----

  predicate Legal(s: Lock, steps: seq<Step>)
    decreases steps
  {
    steps == [] || (Enabled(s, steps[0]) && Legal(Next(s, steps[0]).lock, steps[1..]))
  }

  function Final(s: Lock, steps: seq<Step>): Lock
    requires Legal(s, steps)
    decreases steps
  {
    if steps == [] then s else Final(Next(s, steps[0]).lock, steps[1..])
  }

  // ---- What the properties speak about ----

  /** Queued tasks are distinct and hold nothing, and the writer count is exact. */
  ghost predicate WellQueued(s: Lock) {
    && Distinct(s.waiting)
    && (forall i :: 0 <= i < |s.waiting| ==> !s.Holds(s.waiting[i].task))
    && s.waitingWriters == CountWriters(s.waiting)
    && (s.writer.Some? ==> s.writer.value !in s.readers)
  }

  /** Kept by every step without exception: moreover nobody waits for a free lock. */
  ghost predicate Consistent(s: Lock) {
    && WellQueued(s)
    && (s.waiting != [] ==> s.Held())
  }

  predicate Exclusive(s: Lock) {
    s.writer.Some? ==> s.readers == {}
  }

  /** In read-biased mode readers only ever wait for a writer that holds the lock. */
  predicate BiasHonoured(s: Lock) {
    s.readBiased && s.writer.None? ==> !HasReader(s.waiting)
  }

  ghost predicate Inv(s: Lock) {
    Consistent(s) && Exclusive(s) && BiasHonoured(s)
  }

  /** The bias switch that wakes readers although a writer holds the lock. */
  predicate UnsafeSwitch(s: Lock, step: Step) {
    && step == SetReadBiased(true)
    && !s.readBiased
    && s.writer.Some?
    && HasReader(s.waiting)
  }

  predicate NoUnsafeSwitch(s: Lock, steps: seq<Step>)
    requires Legal(s, steps)
    decreases steps
  {
    steps == [] || (!UnsafeSwitch(s, steps[0]) && NoUnsafeSwitch(Next(s, steps[0]).lock, steps[1..]))
  }

  /** A release that reaches the hand-off loop with no writer left. */
  predicate IsHandOff(s: Lock, step: Step) {
    step.Release? && (s.writer == Some(step.task) || (s.writer.None? && s.readers == {step.task}))
  }

  function HandOffs(s: Lock, steps: seq<Step>): nat
    requires Legal(s, steps)
    decreases steps
  {
    if steps == [] then 0
    else (if IsHandOff(s, steps[0]) then 1 else 0) + HandOffs(Next(s, steps[0]).lock, steps[1..])
  }

  /** Some step of the run hands the lock to `t`. */
  predicate GrantedDuring(s: Lock, steps: seq<Step>, t: Task)
    requires Legal(s, steps)
    decreases steps
  {
    && steps != []
    && (t in Next(s, steps[0]).rescheduled || GrantedDuring(Next(s, steps[0]).lock, steps[1..], t))
  }
}
