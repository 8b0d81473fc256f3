/** Runs of the lock with a record of who arrived and who was served in which order. */
module RWLockHistory {
  import opened RWLockModel

  /**
    Every attempt to acquire takes the next ticket. `grants` lists the tickets of all
    grants, immediate or handed over; `served` those of writers and `admitted` those of readers.
    */
  datatype History = History(
    lock: Lock, ticketOf: map<Task, nat>, clock: nat, grants: seq<nat>, served: seq<nat>, admitted: seq<nat>)

  function Fresh(readBiased: bool): History {
    History(Initial(readBiased), map[], 0, [], [], [])
  }

  function Ticket(m: map<Task, nat>, t: Task): nat {
    if t in m then m[t] else 0
  }

  function Tickets(m: map<Task, nat>, ts: seq<Task>): seq<nat> {
    seq(|ts|, i requires 0 <= i < |ts| => Ticket(m, ts[i]))
  }

  predicate Arrives(step: Step) {
    step.Acquire? || step.AcquireNowait?
  }

  /** The step makes somebody the writer. */
  predicate MakesWriter(s: Lock, step: Step)
    requires Enabled(s, step)
  {
    Next(s, step).lock.writer.Some? && Next(s, step).lock.writer != s.writer
  }

  /** The tasks that get the lock in a step, in order. */
  function Granted(s: Lock, step: Step): seq<Task>
    requires Enabled(s, step)
  {
    var e := Next(s, step);
    if Arrives(step) && e.outcome.Returned? then [step.task] else e.rescheduled
  }

  function Record(h: History, step: Step): History
    requires Enabled(h.lock, step)
  {
    var m := if Arrives(step) then h.ticketOf[step.task := h.clock] else h.ticketOf;
    var clock := if Arrives(step) then h.clock + 1 else h.clock;
    var granted := Tickets(m, Granted(h.lock, step));
    var writer := MakesWriter(h.lock, step);
    History(
      Next(h.lock, step).lock, m, clock,
      h.grants + granted,
      h.served + (if writer then granted else []),
      h.admitted + (if writer then [] else granted))
  }

  function RecordAll(h: History, steps: seq<Step>): History
    requires Legal(h.lock, steps)
    decreases steps
  {
    if steps == [] then h else RecordAll(Record(h, steps[0]), steps[1..])
  }

  ghost predicate Increasing(s: seq<nat>) {
    forall i, j :: 0 <= i < j < |s| ==> s[i] < s[j]
  }

  ghost predicate Below(s: seq<nat>, high: nat) {
    forall i :: 0 <= i < |s| ==> s[i] < high
  }

  /** A list of served tickets and the tickets of some who still wait are in arrival order. */
  ghost predicate Orderly(log: seq<nat>, ts: seq<Task>, m: map<Task, nat>, clock: nat) {
    Increasing(log + Tickets(m, ts)) && Below(log + Tickets(m, ts), clock)
  }

  // ---- What steps do to an order ----

  lemma TicketsSplit(m: map<Task, nat>, a: seq<Task>, b: seq<Task>)
    ensures Tickets(m, a + b) == Tickets(m, a) + Tickets(m, b)
  {
  }

  /** A new ticket for a task that does not wait leaves the tickets of those who wait. */
  lemma OldTickets(m: map<Task, nat>, ts: seq<Task>, t: Task, clock: nat)
    requires t !in ts
    ensures Tickets(m[t := clock], ts) == Tickets(m, ts)
  {
  }

  lemma AppendOrdered(line: seq<nat>, clock: nat)
    requires Increasing(line) && Below(line, clock)
    ensures Increasing(line + [clock]) && Below(line + [clock], clock + 1)
  {
  }

  /** A newcomer that gets nothing and does not wait. */
  lemma NewcomerRefused(log: seq<nat>, ts: seq<Task>, m: map<Task, nat>, t: Task, clock: nat)
    requires Orderly(log, ts, m, clock) && t !in ts
    ensures Orderly(log, ts, m[t := clock], clock + 1)
  {
    OldTickets(m, ts, t, clock);
  }

  lemma NewcomerQueued(log: seq<nat>, ts: seq<Task>, m: map<Task, nat>, t: Task, clock: nat)
    requires Orderly(log, ts, m, clock) && t !in ts
    ensures Orderly(log, ts + [t], m[t := clock], clock + 1)
  {
    var line := log + Tickets(m, ts);
    OldTickets(m, ts, t, clock);
    TicketsSplit(m[t := clock], ts, [t]);
    assert log + Tickets(m[t := clock], ts + [t]) == line + [clock];
    AppendOrdered(line, clock);
  }

  /** A newcomer that is served at once is in order exactly if nobody waits. */
  lemma NewcomerServedIff(log: seq<nat>, ts: seq<Task>, m: map<Task, nat>, t: Task, clock: nat)
    requires Orderly(log, ts, m, clock) && t !in ts
    ensures Orderly(log + [clock], ts, m[t := clock], clock + 1) <==> ts == []
  {
    OldTickets(m, ts, t, clock);
    var line, waiting := (log + [clock]) + Tickets(m, ts), Tickets(m, ts);
    if ts == [] {
      assert line == (log + waiting) + [clock];
      AppendOrdered(log + waiting, clock);
    } else {
      assert line[|log|] == clock && line[|log| + 1] == waiting[0] == (log + waiting)[|log|];
    }
  }

  /** Serving those in front changes nothing. */
  lemma HandOver(log: seq<nat>, a: seq<Task>, b: seq<Task>, m: map<Task, nat>, clock: nat)
    requires Orderly(log, a + b, m, clock)
    ensures Orderly(log + Tickets(m, a), b, m, clock)
  {
    TicketsSplit(m, a, b);
    assert log + Tickets(m, a + b) == (log + Tickets(m, a)) + Tickets(m, b);
  }

  lemma CutOrdered(line: seq<nat>, p: nat, clock: nat)
    requires p < |line| && Increasing(line) && Below(line, clock)
    ensures Increasing(line[..p] + line[p + 1..]) && Below(line[..p] + line[p + 1..], clock)
  {
    var cut := line[..p] + line[p + 1..];
    assert forall i :: 0 <= i < |cut| ==> cut[i] == line[if i < p then i else i + 1];
  }

  lemma GiveUp(log: seq<nat>, a: seq<Task>, t: Task, b: seq<Task>, m: map<Task, nat>, clock: nat)
    requires Orderly(log, a + [t] + b, m, clock)
    ensures Orderly(log, a + b, m, clock)
  {
    var line, p := log + Tickets(m, a + [t] + b), |log| + |a|;
    CutOrdered(line, p, clock);
    assert line[..p] + line[p + 1..] == log + Tickets(m, a + b);
  }
}
