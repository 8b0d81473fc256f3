/** The stream underneath: it may split the data anywhere and may fail at any time. */
module TransportStream {
  type Byte = b: int | 0 <= b < 256

  /** Raised stands for any exception, a cancellation included. */
  datatype Received = Data(bytes: seq<Byte>) | Raised

  class Transport {
    // What has not been received yet, up to the end of the stream.
    var rest: seq<Byte>
    // The requests made so far, and how often a request or a checkpoint has raised.
    var requests: seq<int>
    var raised: nat

    constructor (bytes: seq<Byte>)
      ensures rest == bytes && requests == [] && raised == 0
    {
      rest, requests, raised := bytes, [], 0;
    }

    method ReceiveSome(maxBytes: int) returns (r: Received)
      modifies this
      ensures requests == old(requests) + [maxBytes]
      ensures raised == old(raised) + if r.Raised? then 1 else 0
      ensures r.Raised? ==> rest == old(rest)
      ensures r.Data? ==> r.bytes + rest == old(rest) && |r.bytes| <= maxBytes
      ensures r.Data? ==> (r.bytes == [] <==> old(rest) == [])
    {
      requests := requests + [maxBytes];
      var raises: bool := *;
      if raises || maxBytes < 1 {
        raised := raised + 1;
        return Raised;
      }
      if rest == [] {
        return Data([]);
      }
      var n :| 1 <= n <= |rest| && n <= maxBytes;
      r := Data(rest[..n]);
      rest := rest[n..];
    }

    /** A checkpoint, which may raise a cancellation. */
    method Checkpoint() returns (ok: bool)
      modifies `raised
      ensures raised == old(raised) + if ok then 0 else 1
    {
      ok := *;
      raised := raised + if ok then 0 else 1;
    }
  }
}
