# Verified model of tricycle

tricycle is a small library of helpers for Trio: a readers-writer lock, buffered and
line-oriented receive streams, a context variable that is inherited along the task tree,
and a nursery whose background tasks are cancelled last. This project models those four
components in Dafny 4.11 and proves what their documentation promises, or, where the
code does something else, exactly when the promise holds. `dafny verify dfyconfig.toml`
checks everything.

Each component comes in three layers. A *model* file describes states as values and one
atomic step as a function. *Proof* files prove properties of single steps and, by
induction, of every run. An *object* file has the class with the source's fields,
updated in place by the source's loops and branches; the contract of each method says
that it takes exactly the corresponding step of the model, so that what is proved about
runs holds for any sequence of method calls.

| component | model | proofs | objects |
|---|---|---|---|
| `RWLock` | RWLockModel, RWLockHistory | RWLockQueue, RWLockSafety, RWLockEffects, RWLockFairness, RWLockOrder | RWLock |
| `BufferedReceiveStream` | BufferedStream | BufferedStream | BufferedStream, Transport |
| `TextReceiveStream` | Decoding, Lines | Decoding, Lines, Newlines | TextStream |
| `TreeVar` | TreeVarModel | TreeVarProofs | TreeVar, TreeVarProgram |
| `MultiCancelScope` | Scopes, MultiCancel | Scopes, MultiCancel | MultiCancel |
| `open_service_nursery` | ServiceNurseryModel | ServiceNurseryProofs, ServiceNurseryExamples | ServiceNursery |

## The readers-writer lock

A step is one call up to the point where its task blocks or returns; a blocked task
takes no step, and cancelling it runs the abort callback. Every step keeps the queue
consistent (distinct tasks that hold nothing, an exact writer count, nobody waiting for
a free lock) and wakes exactly those it grants, each once. RWLockEffects says of each
task separately when an attempt succeeds, who holds the lock in which mode after a step,
who waits, and who is served. Two promises of the class documentation fail in the code;
each is proved to hold exactly under a condition on the step.

* Mutual exclusion. The `read_biased` setter wakes the waiting readers without looking
  at the writer, although the documentation speaks of a lock that readers hold. A step
  keeps mutual exclusion if and only if it is not a switch from `False` to `True` while
  a writer holds the lock and a reader waits, and a run has it at every moment if and
  only if no step is one. `UnsafeSwitchReachable` is a run that does it.
* "If task A tried to acquire the lock before task B did, task B won't get it first." In
  every run, all grants come in arrival order and before all who wait, at every moment,
  if and only if no step overtakes. In a lock that is not read-biased the only step that
  does is a reader that asks while no writer holds the lock, somebody waits and no
  writer is counted. The abort callback makes this possible, since it wakes nobody:
  cancelling the writer at the head of the queue under readers strands the reader behind
  it, and `CancelledWriterStrandsReader` is a run in which a later reader then passes
  it. In a run without such a cancellation nobody overtakes (`UnstrandedIsFifo`).

In read-biased mode readers pass writers by design. Among themselves readers are served
in order if and only if no reader overtakes a reader, which stays so across all mode
switches in runs without a stranding cancellation and without an unsafe switch. Writers
get the lock in the order of their arrival in every run whatsoever.

While mutual exclusion holds, a waiter at position p that is not cancelled gets the lock
after at most p + 1 hand-offs, whatever arrives, is cancelled or is switched meanwhile.

The documentation of `statistics` lists a boolean `locked` and a string `state`; the
code returns only `locked`, a string that says "read", "write" or, for a free lock,
nothing. While a reader holds the lock it says "read", even when a writer holds it too.

## The streams

The transport may split its data anywhere, and any of its calls may raise without taking
data. The buffered stream acts on one byte sequence, the unread part of the buffer
followed by what the transport still has; every call that does not raise is a function
of that sequence, and a call that raises leaves it alone. A call of either stream raises
what is not its own error only if the transport or a checkpoint did, which the transport
counts. `MakeCalls` stands for a client that makes any calls, and says so of all of them
together. The chunk size shows only in the requests made and in the bound on what is
read ahead.

The codec under the text stream is any state machine that reads byte by byte, can be
flushed, and leaves its state alone when it fails. The newline decoder above it is
Python's `io.IncrementalNewlineDecoder`. `TextAhead` is the text that a decoder state
and the bytes ahead of it stand for; `ChunkingIsInvisible` says that decoding in any
chunks gives that text. Without a chosen newline the lines are those of the decoded text
with LF in the place of whatever newline each ends with (`LinesTranslated`). A line is
the part of the text ahead up to its first newline or to the limit, so it does not
depend on the chunks either. The contract of `ReceiveLine` speaks of the text under any
codec that extends the present one. Taken with the present codec it says what a call
returns, and that a line in front of a decoding error is a whole one; taken with a more
lenient error handler it says that after a decoding error the stream can be read on with
that handler as if it had been in use from the beginning. `SetErrors` sets any handler
of the codec: what is still undecoded then has the text that the new handler gives it.

Two details differ from comments in the source. At the end of the stream `_raw_chunk`
stays `b""` instead of going back to `None`. And decoder output before the end may end
in CR: with two CRs in a row the first is passed on and the second held back. What
holds, and suffices, is that such a CR is never followed by LF (`OutputEndsInCr`).

## The tree variable

`Eager` is the documented meaning: a nursery freezes the value of its task when it
opens, and a new task starts from the value of the nursery that will be its parent.
`World` is what the code does: states are created on demand by looking up the tree, kept
in contexts that are copied from the spawner, and the values of nurseries are saved just
before a change. In the class the states are heap objects that many contexts may share;
`RunCalls` makes any sequence of calls on one object, with any task as the spawner at
each spawn, and takes the run of the model, so that everything below holds of the object
as well (`RunProgram`).

start() opens a temporary nursery for its child. Trio's started() moves every task of
that nursery, also one that somebody else put there and that has no eventual parent; a
started() that Trio ignores, because the temporary nursery is cancelled, changes
nothing. `RunRefines` proves of every run of opening, closing, starting, moving,
exiting, get, set, reset and get_in: all live tasks and open nurseries have the same
values in both at every moment, if and only if each started() finds that every task it
moves without an eventual parent has used the variable already, or that the two
nurseries have the same value. Then everything shown is the same too.
`JoinedTaskLosesValue` is a program where a moved task loses its value;
`UsualProgramRefines` says that nothing of the kind happens in programs that put no
other tasks into temporary nurseries.

Assumed of Trio: a task has its own context; the nursery a live task inherits from is
open, and no nursery is open whose task has exited. An entry for a closed nursery may
disappear at any time.

## The service nursery

Scopes form Trio's scope tree; a scope is effectively cancelled if it or a scope it can
see past shields is cancelled. Steps are: a child is spawned, enters its scope, or calls
`started()` (from any task; Trio moves it or not), other code opens, cancels or shields
any scope outside the group, `started()` of other nurseries moves scopes, and the body
exits. A child's scope is effectively cancelled if and only if its home nursery is and
the child does not have the shield; the children that have it are those that entered
through `start_soon` or were moved by `started()`, until the body exits. Afterwards
every scope is cancelled exactly as in a plain nursery.

`started()` is two steps. Trio moves the child and delivers cancellations to it; only
then does the wrapper hand it the shield. At that moment the child is cancelled if and
only if the nursery was when `started()` was called. So the documented promise, that
nothing in the nursery is cancelled before the body has exited, holds of a child that
was spawned with the `start_soon` or `start` of the nursery, in a run, if and only if no
`started()` moves it into a nursery that is cancelled already (`BodyFirst`).
`MovedIntoCancelledNursery` is a run that does: the nursery is cancelled, its body waits
for `start()` inside a shield, and another task calls `started()`.

For other tasks the promise fails. A task that was put into the temporary nursery of a
`start()` beside the child is moved along with it and gets no shield: until somebody
shields it, it is cancelled exactly with the nursery or by itself (`JoinedStaysBare`),
and `JoinedTaskIsNotSpared` is a run in which that happens before the body has exited.

## Model

| member | source | states |
|---|---|---|
| RWLockObject.RWLock.AcquireNowait | tricycle/_rwlock.py:96-120 | an attempt takes the lock, is refused, or fails for a holder, and changes nothing otherwise |
| RWLockObject.RWLock.Acquire | tricycle/_rwlock.py:123-150 | like acquire_nowait, but a refused task is queued last and counted if it is a writer |
| RWLockObject.RWLock.AbortWaiter | tricycle/_rwlock.py:143-146 | a cancelled waiter leaves the queue, the order of the rest stays, nobody is woken |
| RWLockObject.RWLock.WakeAll | tricycle/_rwlock.py:200-205 | all waiting readers are granted in order, the writers keep theirs |
| RWLockObject.RWLock.HandOffLoop | tricycle/_rwlock.py:170-198 | the loop terminates and grants the head writer, or the maximal reader prefix, or with the bias all readers |
| RWLockObject.RWLock.Release | tricycle/_rwlock.py:153-198 | a holder gives the lock up and hands it on when it was the last one; anybody else gets an error |
| RWLockObject.RWLock.SetReadBiased | tricycle/_rwlock.py:217-222 | switching the bias on wakes all readers, whoever holds the lock |
| RWLockObject.RWLock.GetStatistics | tricycle/_rwlock.py:266-291 | the reported counts are the numbers of queued readers and writers; if anybody waits the lock is held |
| RWLockSafety.StepConsistent | tricycle/_rwlock.py:109-148 | every step keeps the queue distinct and disjoint from the holders, the count exact, and nobody waiting for a free lock |
| RWLockSafety.StepKeepsInvIff | tricycle/_rwlock.py:219-222 | a step keeps mutual exclusion if and only if it is not the unsafe bias switch |
| RWLockSafety.RunKeepsInv | tricycle/_rwlock.py:30-32 | consistency in every run, mutual exclusion and the biased-mode invariant in every run without the unsafe switch |
| RWLockSafety.AlwaysExclusiveIff | tricycle/_rwlock.py:30-32 | in every run mutual exclusion holds at every moment if and only if no step is the unsafe switch |
| RWLockSafety.MutualExclusion | tricycle/_rwlock.py:30-32 | both from a fresh lock in either mode |
| RWLockSafety.UnsafeSwitchReachable | tricycle/_rwlock.py:219-222 | a run after which a writer and a reader hold the lock together |
| RWLockSafety.FreeLockIsGranted | tricycle/_rwlock.py:112-120 | an attempt on a lock that nobody holds succeeds, in the mode asked for |
| RWLockSafety.WakesExactlyTheGranted | tricycle/_rwlock.py:161-205 | the tasks rescheduled by a step are exactly those moved from the queue to the holders, each once |
| RWLockEffects.AttemptEnds | tricycle/_rwlock.py:109-150 | an attempt fails for a holder; it succeeds at once if and only if no writer holds the lock and, for a writer, no reader does, or, for a reader, no writer waits or the lock is biased; otherwise it raises or waits last, and changes nothing else |
| RWLockEffects.ReleaseEnds | tricycle/_rwlock.py:161-169 | a release ends the hold of its task, whoever else holds the lock, or reports that there is none and changes nothing |
| RWLockEffects.WriterAfter | tricycle/_rwlock.py:109-205 | the writer after a step is the one before unless it released, or the task served that asked to write |
| RWLockEffects.ReaderAfter | tricycle/_rwlock.py:109-205 | the readers after a step are those before without the one that released, and the tasks served that asked to read |
| RWLockEffects.HoldersAfter | tricycle/_rwlock.py:109-205 | after a step exactly those hold the lock who did and did not release it, or are served by it |
| RWLockEffects.QueueAfter | tricycle/_rwlock.py:136-205 | after a step exactly those wait who did and were neither served nor cancelled, and an arrival that blocks |
| RWLockEffects.ServedIff | tricycle/_rwlock.py:170-205 | a waiter is served if and only if the last holder releases and it is first in line as the mode has it, or it is a reader and the bias is switched on |
| RWLockEffects.ModeAfter | tricycle/_rwlock.py:217-222 | the bias has the value set last and is changed by nothing else |
| RWLockFairness.StepKeepsHeadIff | tricycle/_rwlock.py:143-146 | in either mode a reader gets to the head of the queue under readers if and only if the writer before it is cancelled |
| RWLockOrder.StepKeepsOrderIff | tricycle/_rwlock.py:115-118 | a step keeps all grants in arrival order and before all who wait if and only if it does not let anybody overtake: a reader admitted past a queue, or readers woken from behind a writer |
| RWLockOrder.GrantsInArrivalOrder | tricycle/_rwlock.py:34-38 | FIFO: in every run, in any mode, the order holds at every moment if and only if no step overtakes |
| RWLockOrder.FreshLockIsFifo | tricycle/_rwlock.py:34-38 | the same from a fresh lock in either mode |
| RWLockOrder.UnstrandedOvertakesNobody | tricycle/_rwlock.py:111-120 | from a queue with a writer at its head, runs without a stranding cancellation and an unsafe switch let no reader overtake a reader, and if never biased nobody overtake anybody |
| RWLockOrder.UnstrandedIsFifo | tricycle/_rwlock.py:34-38 | without a stranding cancellation and an unsafe switch readers are in order across all mode switches, and all are in order if the lock is never biased |
| RWLockOrder.StepKeepsReadersIff | tricycle/_rwlock.py:117-118 | a step keeps the order among readers if and only if it does not admit a reader while a reader waits |
| RWLockOrder.ReadersServedInOrder | tricycle/_rwlock.py:34-38 | in every run readers are served in arrival order at every moment if and only if no such step occurs |
| RWLockFairness.WriterNeverOvertakes | tricycle/_rwlock.py:115-116 | in every mode a new writer was at the head of the queue, or the queue was empty |
| RWLockFairness.CancelledWriterStrandsReader | tricycle/_rwlock.py:143-146 | a run in which a reader that came later gets the lock while an earlier one waits |
| RWLockFairness.StepMovesUp | tricycle/_rwlock.py:170-198 | a step grants a waiter or keeps its place, and a hand-off moves it up |
| RWLockFairness.BoundedBypass | tricycle/_rwlock.py:161-198 | a waiter at position p that is not cancelled holds the lock after at most p + 1 hand-offs |
| RWLockOrder.WritersServedInOrder | tricycle/_rwlock.py:34-38 | in every run, in any mode and with any cancellation, writers get the lock in arrival order |
| RWLockOrder.FreshLockServesWritersInOrder | tricycle/_rwlock.py:34-38 | the same from a fresh lock |
| RWLockOrder.EveryGrantIsLogged | tricycle/_rwlock.py:109-120 | the record the orders speak of misses nobody: each step adds the tickets of exactly the tasks that newly hold the lock |
| TransportStream.Transport.ReceiveSome | tricycle/_streams.py:53-53 | the transport returns a non-empty prefix of what is left, nothing only at the end, or raises and keeps everything |
| BufferedStream.BufferedReceiveStream.Receive | tricycle/_streams.py:48-62 | returns the next bytes of the logical sequence, or raises and leaves it alone; bounds the buffer and what is read ahead |
| BufferedStream.BufferedReceiveStream.ReceiveAllOrNone | tricycle/_streams.py:82-91 | None exactly at the end, an error exactly at an unclean end, and then nothing is consumed; else all the bytes asked for |
| BufferedStream.BufferedReceiveStream.ReceiveExactly | tricycle/_streams.py:107-111 | exactly the bytes asked for, or an error that consumes nothing |
| BufferedStream.BufferedReceiveStream.Unget | tricycle/_streams.py:113-119 | the data is put in front of the logical sequence, however much of it had been read |
| BufferedStream.BufferedReceiveStream.Refill | tricycle/_streams.py:48-58 | refills until the bytes are there or the data ends, leaves the logical sequence alone, and never grows the buffer beyond the bound |
| BufferedStream.MakeCalls | tricycle/_streams.py:30-119 | over any sequence of calls the results and what remains depend on the data alone; successful receives without unget leave at most chunk_size - 1 bytes unread |
| BufferedStream.DeliveredPartitions | tricycle/_streams.py:48-62 | over any calls without unget, what was handed out followed by what remains is the data |
| BufferedStream.RewindingPartitions | tricycle/_streams.py:48-119 | the same with ungets of the bytes read last: what was taken for good followed by what remains is the data |
| BufferedStream.ExactReceives | tricycle/_streams.py:93-111 | receives of given sizes all succeed if and only if the data is long enough, and then cut it into those pieces |
| BufferedStream.ReceiveSplits | tricycle/_streams.py:30-46 | reading in two goes is reading in one |
| BufferedStream.UngetUndoes | tricycle/_streams.py:113-119 | unget undoes a receive, and what is put back comes out first |
| Decoding.DecodeMovesText | tricycle/_streams.py:335-344 | decoding a chunk moves exactly its text from what lies ahead to what is decoded |
| Decoding.FlushMovesText | tricycle/_streams.py:328-334 | the final call yields all text left; it yields nothing if and only if nothing was left |
| Decoding.DecodeFails | tricycle/_streams.py:347-351 | a chunk fails to decode only if the input has an error |
| Decoding.ChunkingIsInvisible | tricycle/_streams.py:185-197 | for every chunking of the input, decoding succeeds if and only if the input is free of errors, and gives its text |
| Decoding.ReplacesTranslate | tricycle/_streams.py:140-144 | replacing CRLF and then CR is turning every newline into LF |
| Decoding.OutputEndsInCr | tricycle/_streams.py:284-287 | decoded text that ends in CR is followed by a CR that is held back, so a CRLF is never split |
| Decoding.FilterEndsInCrIff | tricycle/_streams.py:284-287 | before the end, output ends in CR if and only if the text to be put out ends in two CRs |
| Decoding.FilterCanEndInCr | tricycle/_streams.py:284-287 | an input for which it does |
| Decoding.CleanExtends | tricycle/_streams.py:215-221 | on input without errors a more lenient error handler makes no difference |
| Lines.NewlineEndIsFirst | tricycle/_streams.py:140-144 | the end of the first line is the end of the leftmost newline of the mode |
| Lines.FindUniversal | tricycle/_streams.py:288-303 | the first CR and the first LF give the end of the first newline of any kind |
| Lines.FindSeparator | tricycle/_streams.py:308-311 | the search for the separator gives the end of the first line |
| Lines.LineFromPart | tricycle/_streams.py:279-319 | the line found in what has arrived is the line of the whole text |
| Lines.LineIsRight | tricycle/_streams.py:252-266 | for every limit the line is from the beginning of the text, not too long, has no newline before its end, does not cut a CRLF, and ends at a newline, the limit or the end of the text |
| Lines.LimitedThenRest | tricycle/_streams.py:258-266 | with a limit the line is not longer, and shorter only if it ends with a newline or the text does |
| Lines.LinesPartition | tricycle/_streams.py:244-250 | the lines of a text concatenate to it, none is empty, and each but the last ends at its own first newline |
| Decoding.TextIsFedAndFlushed | tricycle/_streams.py:328-344 | the text of the input is what decoding all of it at once and the final call give, clean if and only if both succeed |
| Newlines.FirstTranslated | tricycle/_streams.py:140-144 | the first line of a translated text is the first line of the text with LF in the place of its newline |
| Newlines.LinesTranslated | tricycle/_streams.py:140-144 | and so are all its lines |
| TextStream.TextReceiveStream.constructor | tricycle/_streams.py:161-209 | what lies ahead of a new stream is the decoded text of all its bytes, translated if and only if newline is None, and lines end at the newline chosen, else at LF |
| TextStream.TextReceiveStream.SearchAnyNewline | tricycle/_streams.py:288-303 | in universal mode the first CR and the first LF give the end of the first newline before a position |
| TextStream.TextReceiveStream.SearchNewline | tricycle/_streams.py:284-311 | finds the end of the first newline before a position |
| TextStream.TextReceiveStream.Search | tricycle/_streams.py:279-319 | decides from the buffer where the line ends, or that more data is needed |
| TextStream.TextReceiveStream.ReceiveRaw | tricycle/_streams.py:322-326 | receives a chunk only if none is waiting, and keeps the undecoded bytes |
| TextStream.TextReceiveStream.DecodeData | tricycle/_streams.py:335-351 | a decoded chunk leaves the text ahead the same; a failure changes nothing |
| TextStream.TextReceiveStream.DecodeFinal | tricycle/_streams.py:328-334 | the final call leaves the text ahead the same and recognizes the end |
| TextStream.TextReceiveStream.TakeLine | tricycle/_streams.py:361-370 | the line is cut off the text ahead, compaction is invisible |
| TextStream.TextReceiveStream.ReceiveLine | tricycle/_streams.py:252-372 | terminates with the line of the text ahead, or fails and loses nothing; empty only at the end; whole in front of a decoding error; an error is kept for a retry |
| TextStream.TextReceiveStream.SetErrors | tricycle/_streams.py:219-221 | any error handler may be set; what lies ahead under each handler stays the same |
| TextStream.TextReceiveStream.Iterate | tricycle/_streams.py:244-250 | iteration yields exactly the lines of the text ahead and stops at its end, or at a failure after a prefix of them |
| TreeVarProofs.OneEntryInvisible | tricycle/_tree_var.py:143-154 | caching the state of one task changes no value |
| TreeVarProofs.FillInvisible | tricycle/_tree_var.py:115-154 | _fetch finds the value of the cache-free look-up, and what it caches changes no task and no nursery |
| TreeVarProofs.FillAllInvisible | tricycle/_tree_var.py:115-154 | the same for look-ups in any tasks and any order |
| TreeVarProofs.FillsExactly | tricycle/_tree_var.py:115-154 | _fetch gives a state to the task and its ancestors up to the first that has one, and to nobody else |
| TreeVarProofs.UseLeavesState | tricycle/_tree_var.py:164-181 | a task that gets or sets the variable owns a state with its value afterwards |
| TreeVarProofs.LocalChangeFrames | tricycle/_tree_var.py:49-58 | a changed state that hands the open nurseries the same values changes no other task |
| TreeVarProofs.AssignFrames | tricycle/_tree_var.py:176-189 | set and reset give their task the new value and leave every other live task and every open nursery alone |
| TreeVarProofs.HomeValue | tricycle/_tree_var.py:131-142 | a new task starts from the value of its eventual parent nursery, else of its parent |
| TreeVarProofs.StartedRefinesIff | tricycle/_tree_var.py:131-142 | started() keeps all values if and only if every task it moves without an eventual parent owns a state or the two nurseries have the same value |
| TreeVarProofs.StepRefinesIff | tricycle/_tree_var.py:115-189 | every step shows what the eager variable shows, and keeps the refinement if and only if it is not such a started() |
| TreeVarProofs.RunRefines | tricycle/_tree_var.py:69-92 | over every run the lazy variable has the eager values at every moment if and only if no started() disturbs it, and then is observationally the eager one |
| TreeVarProofs.ProgramRefines | tricycle/_tree_var.py:69-92 | the same for every program from its start |
| TreeVarProofs.UsualProgramRefines | tricycle/_tree_var.py:69-92 | the eager values without any condition in programs that put no other tasks into temporary nurseries |
| TreeVarProofs.JoinedTaskLosesValue | tricycle/_tree_var.py:131-142 | a program in which started() changes the value of a task it moves |
| TreeVarProofs.NurseryIsFrozen | tricycle/_tree_var.py:42-44 | in undisturbed runs the value of a nursery is the same as long as it is open |
| TreeVarProofs.TaskIsPrivate | tricycle/_tree_var.py:34-39 | in undisturbed runs the value of a task changes only by its own set and reset |
| TreeVarProofs.UsedVariableIsPrivate | tricycle/_tree_var.py:34-39 | the same in every run for a task that has used the variable |
| TreeVarProofs.BeingRestores | tricycle/_tree_var.py:191-200 | leaving being() restores the value, whatever happened inside, and in undisturbed runs its snapshots are the ones it had |
| TreeVarObject.VarState.SaveCurrentForChildren | tricycle/_tree_var.py:49-58 | open nurseries without an entry get the present value, the others keep theirs |
| TreeVarObject.TreeVar.CopyContext | tricycle/_tree_var.py:34-37 | a copied context gives the new task no state of its own and takes none from anybody |
| TreeVarObject.TreeVar.Fetch | tricycle/_tree_var.py:115-154 | terminates with the state of the task, creating fresh states up the tree where they are missing, or without caching changes nothing |
| TreeVarObject.TreeVar.Forget | tricycle/_tree_var.py:42-47 | the entry of a closed nursery may vanish, as in the step of the model |
| TreeVarObject.TreeVar.Get | tricycle/_tree_var.py:164-174 | the value of the task, else the argument, else the variable's default, else an error |
| TreeVarObject.TreeVar.Set | tricycle/_tree_var.py:176-181 | takes the step of the model and returns the old value in a token of this task |
| TreeVarObject.TreeVar.Reset | tricycle/_tree_var.py:183-189 | goes back to the token's value, or refuses a token of another context and changes nothing |
| TreeVarObject.TreeVar.GetInTask | tricycle/_tree_var.py:212-244 | the value get() would give in that task, with no context changed |
| TreeVarObject.TreeVar.GetInNursery | tricycle/_tree_var.py:217-244 | the value a new child of that nursery would start with, with no context changed |
| TreeVarProgram.Do | tricycle/_tree_var.py:164-244 | one call on the object takes the step of the model and answers with what it observes |
| TreeVarProgram.RunCalls | tricycle/_tree_var.py:115-189 | any calls on one object, with any spawners and thus any sharing of states, take the run of the model and get its answers |
| TreeVarProgram.SetIsSeen | tricycle/_tree_var.py:164-181 | after set(v) every get and get_in of the task answers v, whatever default is passed, until it assigns again |
| TreeVarProgram.GetIsRepeated | tricycle/_tree_var.py:164-174 | what a task has looked up it finds again until it assigns, even if it was moved in between |
| TreeVarProgram.RunProgram | tricycle/_tree_var.py:69-92 | a program on a new object gets the answers of the eager variable if it is undisturbed, and ends with its values |
| MultiCancel.MultiCancelScope.SetShield | tricycle/_multi_cancel.py:59-63 | all children and the default for later ones get the new shield |
| MultiCancel.MultiCancelScope.Cancel | tricycle/_multi_cancel.py:65-74 | all children are cancelled, once |
| MultiCancel.MultiCancelScope.OpenChild | tricycle/_multi_cancel.py:76-90 | a new child has the shield asked for or the group's, and is cancelled if the group is |
| MultiCancel.GroupCancelledIff | tricycle/_multi_cancel.py:65-74 | over every run the group is cancelled if and only if it was before or cancel() was called |
| MultiCancel.CancelReachesAll | tricycle/_multi_cancel.py:65-90 | after cancel() every child still there is cancelled, opened before or after |
| MultiCancel.ChildCancelledIff | tricycle/_multi_cancel.py:65-74 | over every run a child is cancelled if and only if it was, or cancel() was called on it or on the group |
| MultiCancel.LateChild | tricycle/_multi_cancel.py:76-90 | a child opened after any run has the shield asked for, else the last one set on the group, and is cancelled if and only if the group is |
| MultiCancel.CancelledGroup | tricycle/_multi_cancel.py:65-90 | in every run a cancelled group has only cancelled children |
| MultiCancel.ShieldOverrides | tricycle/_multi_cancel.py:48-56 | over every run a child's shield is the last one set on it or on the group |
| Scopes.CancelledIffSeen | tricycle/_multi_cancel.py:59-63 | a scope is effectively cancelled if and only if a scope in sight past shields is cancelled |
| Scopes.ShieldHides | tricycle/_multi_cancel.py:59-63 | from inside a shield nothing outside of it is seen |
| ServiceNurseryProofs.NurseryIsInside | tricycle/_service_nursery.py:93-94 | a new nursery lies inside the innermost scope around it and is cancelled exactly with it |
| ServiceNurseryProofs.TemporaryIsInside | tricycle/_service_nursery.py:131-131 | the child of start() begins in a nursery that is cancelled exactly with the scope of the call |
| ServiceNurseryProofs.StepKeepsInv | tricycle/_service_nursery.py:93-138 | every step keeps children, scopes and the group in agreement |
| ServiceNurseryProofs.RunKeepsInv | tricycle/_service_nursery.py:93-138 | and so does every interleaving of steps |
| ServiceNurseryProofs.ChildCancelledIff | tricycle/_service_nursery.py:93-138 | in every reachable state a child is effectively cancelled if and only if its home is and it has no shield now; so is a child of start() that was not moved |
| ServiceNurseryProofs.MovedIsExposedIff | tricycle/_service_nursery.py:119-125 | between the move and the shield a child is cancelled if and only if the nursery was before the call |
| ServiceNurseryProofs.StepSparesIff | tricycle/_service_nursery.py:93-138 | a step exposes a promised child if and only if it is a started() that moves it into a cancelled nursery |
| ServiceNurseryProofs.BodyFirst | tricycle/_service_nursery.py:50-55 | in every run, at every moment until the body exits, no child spawned by the nursery's start_soon or start is cancelled once promised, if and only if no such started() occurs |
| ServiceNurseryExamples.MovedIntoCancelledNursery | tricycle/_service_nursery.py:119-125 | a run in which started() exposes a child before the body has exited |
| ServiceNurseryProofs.JoinedIsMovedBare | tricycle/_service_nursery.py:119-125 | started() brings what others put into the temporary nursery into the nursery without a shield |
| ServiceNurseryProofs.JoinedStaysBare | tricycle/_service_nursery.py:93-138 | in every continuation, until somebody shields it, such a task is cancelled if and only if it is itself or the nursery is |
| ServiceNurseryExamples.JoinedTaskIsNotSpared | tricycle/_service_nursery.py:50-55 | a run with no exposing started() in which such a task is cancelled before the body has exited and the child is not |
| ServiceNurseryProofs.OnlyOwnScopesCancel | tricycle/_service_nursery.py:50-55 | inside a protected child only scopes of the child itself cancel anything |
| ServiceNurseryProofs.StartedProtectsIff | tricycle/_service_nursery.py:119-125 | both halves of started(): it leaves a cancelled child where it is and protects every other one, with a shield if also the body is still running |
| ServiceNurseryProofs.NeverMoreThanPlain | tricycle/_service_nursery.py:47-55 | nothing is cancelled that a plain nursery would not cancel |
| ServiceNurseryProofs.ProtectionEnds | tricycle/_service_nursery.py:135-138 | after the body has exited every scope is cancelled exactly as in a plain nursery |
| ServiceNurseryProofs.ProtectionStaysOff | tricycle/_service_nursery.py:101-138 | and so it stays in every continuation, for late children and late started() |
| ServiceNurseryExamples.CancelledNurserySparesChild | tricycle/_service_nursery.py:50-55 | a run in which the nursery is cancelled and its child is not, until the body exits |
| ServiceNurseryObject.ServiceNursery.constructor | tricycle/_service_nursery.py:93-94 | opens the nursery with a shielded group |
| ServiceNurseryObject.ServiceNursery.RunChild | tricycle/_service_nursery.py:101-103 | the child enters a scope with the group's shield |
| ServiceNurseryObject.ServiceNursery.RunStarting | tricycle/_service_nursery.py:113-129 | the child of start() enters an unshielded scope |
| ServiceNurseryObject.ServiceNursery.WrapStarted | tricycle/_service_nursery.py:119-125 | first Trio's move, visible in the middle, then the group's shield for a child that was moved and none for one that was not |
| ServiceNurseryObject.ServiceNursery.ExitBody | tricycle/_service_nursery.py:135-138 | the group and all its scopes lose their shield |

## Left out

- Trio itself: the scheduler, checkpoints that do not raise, KI protection and coroutines; steps are what happens between two awaits, and a cancellation delivered before `acquire` queues its task changes nothing.
- Concrete codecs, locale look-up, and the `encoding` and `newlines` properties; that a codec leaves its state alone when it fails and has nothing left after a flush is assumed.
- `receive_line(0)`: the documentation does not define it, and the result depends on what is buffered.
- `aclose` of both streams, which only drops what is buffered.
- `get_in` on a closed nursery, and tasks that share one context: outside the snapshot guarantee.
- The lifetime of weak references, except that entries of closed nurseries and unused child scopes may vanish.
- The thin wrappers and context managers of the lock, `__repr__`, and error-message probing in `_get_coroutine_or_flag_problem`.
- The metaclass and the scoped objects of tricycle/_meta.py: their opening and closing is a simple bracketing next to the rest.
- Tasks, nurseries and Trio's scopes are numbers in tables that the objects share: their own fields belong to Trio.
