/**
  Receiving known amounts of bytes. Whatever the chunk size and however the transport
  splits the data, the calls act on one byte sequence: what is buffered and unread,
  followed by what the transport still has.
  */
module BufferedStream {
  import opened TransportStream

  // ---- The calls on one byte sequence ----

  datatype Op = Receive(n: int) | ReceiveAllOrNone(n: int) | ReceiveExactly(n: int) | Unget(data: seq<Byte>)

  /** `Nothing` is the source's None; `UncleanEof` its ValueError. */
  datatype Result = Bytes(bytes: seq<Byte>) | Nothing | UncleanEof | Done | TransportRaised

  function Take(s: seq<Byte>, n: int): seq<Byte> {
    if n < 0 then [] else if n > |s| then s else s[..n]
  }

  function Drop(s: seq<Byte>, n: int): seq<Byte> {
    if n < 0 then s else if n > |s| then [] else s[n..]
  }

  predicate Positive(op: Op) {
    op.Unget? || op.n > 0
  }

  function Apply(s: seq<Byte>, op: Op): (Result, seq<Byte>)
    requires Positive(op)
  {
    match op
    case Receive(n) => (Bytes(Take(s, n)), Drop(s, n))
    case ReceiveAllOrNone(n) =>
      if s == [] then (Nothing, s) else if |s| < n then (UncleanEof, s) else (Bytes(s[..n]), s[n..])
    case ReceiveExactly(n) => if |s| < n then (UncleanEof, s) else (Bytes(s[..n]), s[n..])
    case Unget(data) => (Done, data + s)
  }

  function Max(a: int, b: int): int {
    if a < b then b else a
  }

  class BufferedReceiveStream {
    const transport: Transport
    var chunkSize: int
    var buffer: seq<Byte>
    var receivePos: nat

    constructor (transport: Transport, chunkSize: int)
      ensures Valid() && this.transport == transport && this.chunkSize == chunkSize
      ensures Logical() == transport.rest && Unread() == 0
    {
      this.transport, this.chunkSize := transport, chunkSize;
      this.buffer, this.receivePos := [], 0;
    }

    ghost predicate Valid()
      reads this
    {
      receivePos <= |buffer|
    }

    /** All bytes that are still to come, in order. */
    ghost function Logical(): seq<Byte>
      requires Valid()
      reads this, transport
    {
      buffer[receivePos..] + transport.rest
    }

    ghost function Unread(): nat
      requires Valid()
      reads this
    {
      |buffer| - receivePos
    }

    /** The most that one refill may leave over. */
    function ReadAhead(): (n: nat)
      reads this
    {
      Max(chunkSize, 1) - 1
    }

    /** Only chunks were requested since, or the whole of what was asked for if that is more. */
    ghost predicate Requested(before: seq<int>, after: seq<int>, numBytes: int)
      reads this
    {
      before <= after && forall k :: |before| <= k < |after| ==> chunkSize <= after[k] <= Max(chunkSize, numBytes)
    }

    /** Drops what was returned before and receives until there are `numBytes`, or no more come. */
    method Refill(numBytes: int) returns (ok: bool)
      requires Valid() && receivePos + numBytes > |buffer|
      modifies `buffer, `receivePos, transport
      ensures receivePos == 0 && Logical() == old(Logical())
      ensures ok ==> numBytes <= |buffer| || transport.rest == []
      ensures |buffer| <= Max(old(|buffer|), numBytes + ReadAhead())
      ensures ok ==> |buffer| <= numBytes + ReadAhead()
      ensures transport.raised == old(transport.raised) + if ok then 0 else 1
      ensures Requested(old(transport.requests), transport.requests, numBytes)
    {
      ghost var logical := Logical();
      buffer := buffer[receivePos..];
      receivePos := 0;
      while numBytes > |buffer|
        invariant receivePos == 0 && buffer + transport.rest == logical
        invariant |buffer| <= Max(old(|buffer|), numBytes + ReadAhead())
        invariant |buffer| <= numBytes + ReadAhead()
        invariant transport.raised == old(transport.raised)
        invariant Requested(old(transport.requests), transport.requests, numBytes)
        decreases numBytes - |buffer|
      {
        var toReceive := Max(chunkSize, numBytes - |buffer|);
        var data := transport.ReceiveSome(toReceive);
        if data.Raised? {
          return false;
        }
        if data.bytes == [] {
          return true;
        }
        assert (buffer + data.bytes) + transport.rest == buffer + (data.bytes + transport.rest);
        buffer := buffer + data.bytes;
      }
      return true;
    }

    /** Hands out what is buffered, at most `numBytes`. */
    method TakeBuffered(numBytes: int) returns (data: seq<Byte>)
      requires Valid() && numBytes > 0 && (receivePos + numBytes <= |buffer| || transport.rest == [])
      modifies `receivePos
      ensures Valid() && data == Take(old(Logical()), numBytes) && Logical() == Drop(old(Logical()), numBytes)
      ensures |data| <= receivePos && buffer[receivePos - |data|..receivePos] == data
      ensures Unread() == Max(old(Unread()) - numBytes, 0)
    {
      var end := if receivePos + numBytes > |buffer| then |buffer| else receivePos + numBytes;
      data := buffer[receivePos..end];
      assert buffer[receivePos..] == data + buffer[end..];
      assert old(Logical()) == data + (buffer[end..] + transport.rest);
      receivePos := receivePos + |data|;
    }

    method Receive(numBytes: int) returns (r: Result)
      requires Valid() && numBytes > 0
      modifies `buffer, `receivePos, transport
      ensures Valid() && (r.Bytes? || r.TransportRaised?)
      ensures r.TransportRaised? ==> Logical() == old(Logical())
      ensures r.Bytes? ==> (r, Logical()) == Apply(old(Logical()), Op.Receive(numBytes))
      ensures r.Bytes? ==> |r.bytes| <= receivePos && buffer[receivePos - |r.bytes|..receivePos] == r.bytes
      ensures |buffer| <= Max(old(|buffer|), numBytes + ReadAhead())
      ensures r.Bytes? ==> Unread() <= Max(old(Unread()) - numBytes, ReadAhead())
      // In its own terms: all that was asked for, or all there is, and an exception only from below.
      ensures r.Bytes? ==> r.bytes + Logical() == old(Logical())
      ensures r.Bytes? ==> |r.bytes| == numBytes || (|r.bytes| < numBytes && Logical() == [])
      ensures transport.raised == old(transport.raised) + if r.TransportRaised? then 1 else 0
      ensures Requested(old(transport.requests), transport.requests, numBytes)
      ensures numBytes <= old(Unread()) ==> transport.requests == old(transport.requests)
    {
      var ok: bool;
      if receivePos + numBytes > |buffer| {
        ok := Refill(numBytes);
      } else {
        ok := transport.Checkpoint();
      }
      if !ok {
        return TransportRaised;
      }
      var data := TakeBuffered(numBytes);
      r := Bytes(data);
    }

    method ReceiveAllOrNone(numBytes: int) returns (r: Result)
      requires Valid() && numBytes > 0
      modifies `buffer, `receivePos, transport
      ensures Valid()
      ensures r.TransportRaised? ==> Logical() == old(Logical())
      ensures !r.TransportRaised? ==> (r, Logical()) == Apply(old(Logical()), Op.ReceiveAllOrNone(numBytes))
      ensures r.Bytes? ==> Unread() <= Max(old(Unread()) - numBytes, ReadAhead())
      ensures r.Nothing? <==> !r.TransportRaised? && old(Logical()) == []
      ensures r.UncleanEof? <==> !r.TransportRaised? && 0 < |old(Logical())| < numBytes
      ensures r.Bytes? ==> |r.bytes| == numBytes && r.bytes + Logical() == old(Logical())
      ensures !r.Bytes? ==> Logical() == old(Logical())
      ensures r.Bytes? || r.Nothing? || r.UncleanEof? || r.TransportRaised?
      ensures transport.raised == old(transport.raised) + if r.TransportRaised? then 1 else 0
    {
      r := Receive(numBytes);
      if r.TransportRaised? {
        return;
      }
      if r.bytes == [] {
        return Nothing;
      }
      if |r.bytes| != numBytes {
        assert old(Logical()) == r.bytes && Logical() == [];
        receivePos := receivePos - |r.bytes|;
        assert Logical() == r.bytes;
        return UncleanEof;
      }
    }

    method ReceiveExactly(numBytes: int) returns (r: Result)
      requires Valid() && numBytes > 0
      modifies `buffer, `receivePos, transport
      ensures Valid()
      ensures r.TransportRaised? ==> Logical() == old(Logical())
      ensures !r.TransportRaised? ==> (r, Logical()) == Apply(old(Logical()), Op.ReceiveExactly(numBytes))
      ensures r.Bytes? ==> Unread() <= Max(old(Unread()) - numBytes, ReadAhead())
      ensures r.UncleanEof? <==> !r.TransportRaised? && |old(Logical())| < numBytes
      ensures r.Bytes? ==> |r.bytes| == numBytes && r.bytes + Logical() == old(Logical())
      ensures !r.Bytes? ==> Logical() == old(Logical())
      ensures r.Bytes? || r.UncleanEof? || r.TransportRaised?
      ensures transport.raised == old(transport.raised) + if r.TransportRaised? then 1 else 0
    {
      r := Receive(numBytes);
      if r.TransportRaised? {
        return;
      }
      if |r.bytes| != numBytes {
        assert old(Logical()) == r.bytes && Logical() == [];
        receivePos := receivePos - |r.bytes|;
        assert Logical() == r.bytes;
        return UncleanEof;
      }
    }

    method Unget(data: seq<Byte>)
      requires Valid()
      modifies `buffer, `receivePos
      ensures Valid()
      ensures Logical() == Apply(old(Logical()), Op.Unget(data)).1
      ensures Logical() == data + old(Logical()) && Unread() == old(Unread()) + |data|
    {
      var newReceivePos := Max(0, receivePos - |data|);
      buffer := buffer[..newReceivePos] + data + buffer[receivePos..];
      receivePos := newReceivePos;
    }

    /** Any one of the calls. */
    method Call(op: Op) returns (r: Result)
      requires Valid() && Positive(op)
      modifies `buffer, `receivePos, transport
      ensures Valid()
      ensures r.TransportRaised? ==> Logical() == old(Logical())
      ensures !r.TransportRaised? ==> (r, Logical()) == Apply(old(Logical()), op)
      ensures !op.Unget? && r.Bytes? ==> Unread() <= Max(old(Unread()), ReadAhead())
      ensures transport.raised == old(transport.raised) + if r.TransportRaised? then 1 else 0
    {
      match op
      case Receive(n) => r := Receive(n);
      case ReceiveAllOrNone(n) => r := ReceiveAllOrNone(n);
      case ReceiveExactly(n) => r := ReceiveExactly(n);
      case Unget(data) => Unget(data); r := Done;
    }
  }

  // ---- Runs of calls ----

  predicate AllPositive(ops: seq<Op>) {
    forall i :: 0 <= i < |ops| ==> Positive(ops[i])
  }

  function Remaining(s: seq<Byte>, ops: seq<Op>): seq<Byte>
    requires AllPositive(ops)
    decreases ops
  {
    if ops == [] then s else Remaining(Apply(s, ops[0]).1, ops[1..])
  }

  /** What a result hands out. */
  function Payload(r: Result): seq<Byte> {
    if r.Bytes? then r.bytes else []
  }

  /** Everything handed out in a run, in order. */
  function Delivered(s: seq<Byte>, ops: seq<Op>): seq<Byte>
    requires AllPositive(ops)
    decreases ops
  {
    if ops == [] then [] else Payload(Apply(s, ops[0]).0) + Delivered(Apply(s, ops[0]).1, ops[1..])
  }

  function Results(s: seq<Byte>, ops: seq<Op>): seq<Result>
    requires AllPositive(ops)
    decreases ops
  {
    if ops == [] then [] else [Apply(s, ops[0]).0] + Results(Apply(s, ops[0]).1, ops[1..])
  }

  lemma {:induction false} OneMoreCall(s: seq<Byte>, ops: seq<Op>, op: Op)
    requires AllPositive(ops) && Positive(op)
    ensures AllPositive(ops + [op])
    ensures Results(s, ops + [op]) == Results(s, ops) + [Apply(Remaining(s, ops), op).0]
    ensures Remaining(s, ops + [op]) == Apply(Remaining(s, ops), op).1
    decreases ops
  {
    if ops == [] {
      assert ops + [op] == [op];
    } else {
      assert (ops + [op])[1..] == ops[1..] + [op];
      OneMoreCall(Apply(s, ops[0]).1, ops[1..], op);
    }
  }

  /** All calls made so far are receives that gave some bytes. */
  predicate AllReceived(ops: seq<Op>, results: seq<Result>) {
    |results| <= |ops| && forall i :: 0 <= i < |results| ==> Received(ops[i], results[i])
  }

  predicate Received(op: Op, r: Result) {
    !op.Unget? && r.Bytes?
  }

  lemma OneMoreReceived(ops: seq<Op>, results: seq<Result>, r: Result)
    requires |results| < |ops|
    ensures AllReceived(ops, results + [r]) <==> AllReceived(ops, results) && Received(ops[|results|], r)
  {
    var more := results + [r];
    assert more[|results|] == r;
    assert forall i :: 0 <= i < |results| ==> more[i] == results[i];
  }

  /**
    Any calls, one after the other, up to the first exception of the transport. The results
    and what remains depend on the data alone; and receives that all succeed, with no unget
    among them, never leave more than the read-ahead unread.
    */
  method MakeCalls(stream: BufferedReceiveStream, ops: seq<Op>) returns (results: seq<Result>)
    requires stream.Valid() && AllPositive(ops)
    modifies stream`buffer, stream`receivePos, stream.transport
    ensures stream.Valid() && |results| <= |ops|
    ensures stream.transport.raised == old(stream.transport.raised) + if |results| < |ops| then 1 else 0
    ensures results == Results(old(stream.Logical()), ops[..|results|])
    ensures stream.Logical() == Remaining(old(stream.Logical()), ops[..|results|])
    ensures |results| == |ops| && AllReceived(ops, results) ==>
      stream.Unread() <= Max(old(stream.Unread()), stream.ReadAhead())
  {
    results := [];
    ghost var s := stream.Logical();
    while |results| < |ops|
      invariant stream.Valid() && |results| <= |ops| && stream.transport.raised == old(stream.transport.raised)
      invariant results == Results(s, ops[..|results|])
      invariant stream.Logical() == Remaining(s, ops[..|results|])
      invariant AllReceived(ops, results) ==> stream.Unread() <= Max(old(stream.Unread()), stream.ReadAhead())
    {
      var op := ops[|results|];
      var r := stream.Call(op);
      if r.TransportRaised? {
        return;
      }
      OneMoreCall(s, ops[..|results|], op);
      OneMoreReceived(ops, results, r);
      assert ops[..|results| + 1] == ops[..|results|] + [op];
      results := results + [r];
    }
  }

  lemma OneOpPartitions(s: seq<Byte>, op: Op)
    requires Positive(op) && !op.Unget?
    ensures Payload(Apply(s, op).0) + Apply(s, op).1 == s
  {
  }

  /** No byte is lost, repeated or reordered, whether calls succeed or meet an unclean end. */
  lemma {:induction false} DeliveredPartitions(s: seq<Byte>, ops: seq<Op>)
    requires AllPositive(ops) && forall i :: 0 <= i < |ops| ==> !ops[i].Unget?
    ensures Delivered(s, ops) + Remaining(s, ops) == s
    decreases ops
  {
    if ops != [] {
      var first, s1, later := Payload(Apply(s, ops[0]).0), Apply(s, ops[0]).1, ops[1..];
      OneOpPartitions(s, ops[0]);
      DeliveredPartitions(s1, later);
      assert (first + Delivered(s1, later)) + Remaining(s1, later)
          == first + (Delivered(s1, later) + Remaining(s1, later));
    }
  }

  /** A put-back of the bytes taken last, if it is one. */
  predicate Rewinds(taken: seq<Byte>, op: Op) {
    op.Unget? ==> |op.data| <= |taken| && taken[|taken| - |op.data|..] == op.data
  }

  /** What has been taken for good after a call. */
  function Keep(taken: seq<Byte>, s: seq<Byte>, op: Op): seq<Byte>
    requires Positive(op) && Rewinds(taken, op)
  {
    if op.Unget? then taken[..|taken| - |op.data|] else taken + Payload(Apply(s, op).0)
  }

  predicate AllRewind(taken: seq<Byte>, s: seq<Byte>, ops: seq<Op>)
    requires AllPositive(ops)
    decreases ops
  {
    ops == [] || (Rewinds(taken, ops[0]) && AllRewind(Keep(taken, s, ops[0]), Apply(s, ops[0]).1, ops[1..]))
  }

  function KeepAll(taken: seq<Byte>, s: seq<Byte>, ops: seq<Op>): seq<Byte>
    requires AllPositive(ops) && AllRewind(taken, s, ops)
    decreases ops
  {
    if ops == [] then taken else KeepAll(Keep(taken, s, ops[0]), Apply(s, ops[0]).1, ops[1..])
  }

  lemma OneOpMoves(taken: seq<Byte>, s: seq<Byte>, op: Op)
    requires Positive(op) && Rewinds(taken, op)
    ensures Keep(taken, s, op) + Apply(s, op).1 == taken + s
  {
    if op.Unget? {
      var kept := taken[..|taken| - |op.data|];
      assert taken == kept + op.data;
      assert kept + (op.data + s) == (kept + op.data) + s;
    } else {
      var payload, s1 := Payload(Apply(s, op).0), Apply(s, op).1;
      OneOpPartitions(s, op);
      assert (taken + payload) + s1 == taken + (payload + s1);
    }
  }

  /** The same with put-backs: every call moves the border between what is taken and what remains. */
  lemma {:induction false} RewindingPartitions(taken: seq<Byte>, s: seq<Byte>, ops: seq<Op>)
    requires AllPositive(ops) && AllRewind(taken, s, ops)
    ensures KeepAll(taken, s, ops) + Remaining(s, ops) == taken + s
    decreases ops
  {
    if ops != [] {
      OneOpMoves(taken, s, ops[0]);
      RewindingPartitions(Keep(taken, s, ops[0]), Apply(s, ops[0]).1, ops[1..]);
    }
  }

  function Sum(ops: seq<Op>): int
    requires AllPositive(ops)
  {
    if ops == [] then 0 else (if ops[0].Unget? then -|ops[0].data| else ops[0].n) + Sum(ops[1..])
  }

  /** An exact receive that succeeds, and the calls after it. */
  lemma ExactStep(s: seq<Byte>, ops: seq<Op>)
    requires AllPositive(ops) && ops != [] && ops[0].ReceiveExactly? && ops[0].n <= |s|
    ensures var n, later := ops[0].n, ops[1..];
      && (UncleanEof in Results(s, ops) <==> UncleanEof in Results(s[n..], later))
      && Delivered(s, ops) == s[..n] + Delivered(s[n..], later)
  {
    var n, later := ops[0].n, ops[1..];
    assert Apply(s, ops[0]) == (Bytes(s[..n]), s[n..]);
    assert Results(s, ops) == [Bytes(s[..n])] + Results(s[n..], later);
  }

  lemma ExactFails(s: seq<Byte>, ops: seq<Op>)
    requires AllPositive(ops) && ops != [] && ops[0].ReceiveExactly? && ops[0].n > |s|
    ensures UncleanEof in Results(s, ops)
  {
    assert Results(s, ops)[0] == UncleanEof;
  }

  lemma TakeInTwo(s: seq<Byte>, n: nat, k: nat)
    requires n + k <= |s|
    ensures s[..n] + s[n..][..k] == s[..n + k]
  {
  }

  /**
    A sequence of exact receives of given sizes yields exactly those pieces of the data if
    and only if the data is long enough; how the bytes arrived plays no part.
    */
  lemma {:induction false} ExactReceives(s: seq<Byte>, ops: seq<Op>)
    requires AllPositive(ops) && forall i :: 0 <= i < |ops| ==> ops[i].ReceiveExactly?
    ensures UncleanEof !in Results(s, ops) <==> Sum(ops) <= |s|
    ensures Sum(ops) <= |s| ==> 0 <= Sum(ops) && Delivered(s, ops) == s[..Sum(ops)]
    decreases ops
  {
    if ops != [] {
      var n, later := ops[0].n, ops[1..];
      SumNonNegative(later);
      if n > |s| {
        ExactFails(s, ops);
      } else {
        ExactStep(s, ops);
        ExactReceives(s[n..], later);
        if Sum(ops) <= |s| {
          TakeInTwo(s, n, Sum(later));
        }
      }
    }
  }

  lemma {:induction false} SumNonNegative(ops: seq<Op>)
    requires AllPositive(ops) && forall i :: 0 <= i < |ops| ==> !ops[i].Unget?
    ensures Sum(ops) >= 0
  {
    if ops != [] { SumNonNegative(ops[1..]); }
  }

  lemma OneCall(s: seq<Byte>, op: Op)
    requires Positive(op)
    ensures Remaining(s, [op]) == Apply(s, op).1 && Delivered(s, [op]) == Payload(Apply(s, op).0)
  {
    assert [op][1..] == [];
  }

  lemma TwoCalls(s: seq<Byte>, a: Op, b: Op)
    requires Positive(a) && Positive(b)
    ensures var s1 := Apply(s, a).1;
      && Remaining(s, [a, b]) == Apply(s1, b).1
      && Delivered(s, [a, b]) == Payload(Apply(s, a).0) + Payload(Apply(s1, b).0)
  {
    assert [a, b][1..] == [b];
    OneCall(Apply(s, a).1, b);
  }

  lemma TakeSplits(s: seq<Byte>, a: int, b: int)
    requires a > 0 && b > 0
    ensures Take(s, a) + Take(Drop(s, a), b) == Take(s, a + b)
    ensures Drop(Drop(s, a), b) == Drop(s, a + b)
  {
  }

  /** Reading in two goes is reading in one. */
  lemma ReceiveSplits(s: seq<Byte>, a: int, b: int)
    requires a > 0 && b > 0
    ensures Remaining(s, [Receive(a), Receive(b)]) == Remaining(s, [Receive(a + b)])
    ensures Delivered(s, [Receive(a), Receive(b)]) == Delivered(s, [Receive(a + b)])
  {
    TwoCalls(s, Receive(a), Receive(b));
    OneCall(s, Receive(a + b));
    TakeSplits(s, a, b);
  }

  /** `unget` undoes a receive, and what is put back comes out first. */
  lemma UngetUndoes(s: seq<Byte>, op: Op, data: seq<Byte>)
    requires Positive(op) && Apply(s, op).0.Bytes?
    ensures Apply(Apply(s, op).1, Unget(Apply(s, op).0.bytes)).1 == s
    ensures data != [] ==>
      Apply(Apply(s, Unget(data)).1, ReceiveExactly(|data|)) == (Bytes(data), s)
  {
  }
}
