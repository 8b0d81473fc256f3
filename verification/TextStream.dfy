/** The text stream: chunks are received, decoded and searched for the end of the line. */
module TextStream {
  import opened Options
  import opened TransportStream
  import opened Decoding
  import opened Lines

  /** `TransportRaised` stands for everything the transport or a checkpoint may raise. */
  datatype LineResult = Line(line: string) | DecodeError | TransportRaised

  class TextReceiveStream {
    const transport: Transport
    const mode: Mode
    var chunkSize: int
    // The codec under all its error handlers, and with the present one.
    ghost const handlers: iset<Codec>
    var codec: Codec
    var decoder: DecoderState
    // Received, but not yet decoded. Not None only after a decoding error or at the end.
    var rawChunk: Option<seq<Byte>>
    // Decoded; the part from chunkPos on has not been returned yet.
    var chunk: string
    var chunkPos: nat

    constructor (transport: Transport, codec: Codec, ghost handlers: iset<Codec>, start: CodecState,
                 newline: Option<string>, chunkSize: int)
      requires codec in handlers && Settles(handlers)
      ensures Valid() && this.handlers == handlers
      ensures this.transport == transport && this.codec == codec && this.chunkSize == chunkSize
      ensures mode == ModeOf(newline) && mode.separator == (if newline.Some? then newline.value else "\n")
      ensures forall c :: Ahead(c) == TextAhead(c, mode, DecoderState(start, false), transport.rest)
      // In its own terms: the decoded text, with its newlines translated if none was chosen.
      ensures forall c :: Ahead(c).clean == CodecText(c, start, transport.rest).clean
      ensures newline.None? ==> forall c :: Ahead(c).text == Translate(CodecText(c, start, transport.rest).text)
      ensures newline.Some? ==> forall c :: Ahead(c).text == CodecText(c, start, transport.rest).text
    {
      this.transport, this.codec, this.mode, this.chunkSize := transport, codec, ModeOf(newline), chunkSize;
      this.handlers := handlers;
      this.decoder, this.rawChunk := DecoderState(start, false), None;
      this.chunk, this.chunkPos := "", 0;
      new;
      assert Undecoded() == transport.rest;
      assert forall text: string :: chunk[chunkPos..] + text == text;
    }

    /** The bytes that still have to be decoded. */
    ghost function Undecoded(): seq<Byte>
      reads `rawChunk, transport
    {
      (if rawChunk.Some? then rawChunk.value else []) + transport.rest
    }

    /** The text those bytes stand for, if they were decoded with `c`. */
    ghost function Coming(c: Codec): Decoded
      reads `decoder, `rawChunk, transport
    {
      TextAhead(c, mode, decoder, Undecoded())
    }

    /** All text still to be returned, if the rest were decoded with `c`. */
    ghost function Ahead(c: Codec): Decoded
      requires chunkPos <= |chunk|
      reads `chunk, `chunkPos, `decoder, `rawChunk, transport
    {
      Decoded(chunk[chunkPos..] + Coming(c).text, Coming(c).clean)
    }

    ghost predicate Valid()
      reads this, transport
    {
      && chunkPos <= |chunk|
      && (mode.translate ==> mode.universal)
      && (mode.separator == "" ==> mode.universal && !mode.translate)
      && (rawChunk == Some([]) ==> transport.rest == [])
      // What has been decoded never ends between the CR and the LF of a CRLF.
      && (mode.separator == "" && EndsInCr(chunk[chunkPos..]) ==>
            decoder.pendingCr || (Undecoded() == [] && AtEnd()))
      && codec in handlers && Settles(handlers)
    }

    /** Nothing more comes out of the decoder, whatever error handler is set. */
    ghost predicate AtEnd()
      reads `decoder
    {
      forall d :: d in handlers ==> Exhausted(d, mode, decoder)
    }

    /** Sets another error handler. What lies ahead under any handler stays the same. */
    method SetErrors(newCodec: Codec)
      requires Valid() && newCodec in handlers
      modifies `codec
      ensures Valid() && codec == newCodec
      ensures forall c :: Ahead(c) == old(Ahead(c))
    {
      codec := newCodec;
    }

    lemma CrIsNotCut(c: Codec)
      requires Valid() && Extends(c, codec)
      ensures mode.separator == "" && EndsInCr(chunk[chunkPos..]) ==>
        !StartsWithLf(Coming(c).text)
    {
      assert ExtendsFlush(c, codec, decoder.codec);
    }

    /** The search for a newline of any kind. */
    method SearchAnyNewline(maxPos: nat) returns (end: Option<nat>)
      requires chunkPos <= maxPos <= |chunk|
      ensures end.Some? <==> NewlineEnd("", chunk[chunkPos..maxPos]).Some?
      ensures end.Some? ==> chunkPos <= end.value <= maxPos
      ensures end.Some? ==> chunk[chunkPos..end.value] == FirstLine("", chunk[chunkPos..maxPos])
    {
      var cr := Find(chunk, "\r", chunkPos, maxPos);
      var lf := Find(chunk, "\n", chunkPos, maxPos);
      SearchedUniversal(chunk, chunkPos, maxPos);
      if cr == -1 && lf == -1 {
        return None;
      }
      if cr != -1 && (lf == -1 || cr < lf) {
        return Some(cr + 1 + if lf == cr + 1 then 1 else 0);
      } else {
        return Some(lf + 1);
      }
    }

    /** The search for the first newline before `maxPos`. */
    method SearchNewline(maxPos: nat) returns (end: Option<nat>)
      requires chunkPos <= maxPos <= |chunk|
      ensures end.Some? <==> NewlineEnd(mode.separator, chunk[chunkPos..maxPos]).Some?
      ensures end.Some? ==> chunkPos <= end.value <= maxPos
      ensures end.Some? ==> chunk[chunkPos..end.value] == FirstLine(mode.separator, chunk[chunkPos..maxPos])
    {
      if mode.separator == "" {
        end := SearchAnyNewline(maxPos);
      } else {
        var nl := Find(chunk, mode.separator, chunkPos, maxPos);
        SearchedSeparator(chunk, mode.separator, chunkPos, maxPos);
        end := if nl != -1 then Some(nl + |mode.separator|) else None;
      }
    }

    /** The end of the line if what is buffered decides it; None means that more data is needed. */
    method Search(maxChars: int) returns (end: Option<nat>)
      requires chunkPos <= |chunk| && maxChars != 0
      ensures var w := Window(chunk[chunkPos..], maxChars);
        end.Some? <==> NewlineEnd(mode.separator, w).Some? || |w| == maxChars
      ensures end.Some? ==> chunkPos < end.value <= |chunk|
      ensures end.Some? ==> chunk[chunkPos..end.value] == LineOf(mode.separator, chunk[chunkPos..], maxChars)
      ensures end.Some? ==> WholeLine(chunk[chunkPos..end.value], maxChars)
    {
      var maxPos := |chunk|;
      if maxChars > 0 && chunkPos + maxChars < maxPos {
        maxPos := chunkPos + maxChars;
      }
      assert Window(chunk[chunkPos..], maxChars) == chunk[chunkPos..maxPos];
      end := SearchNewline(maxPos);
      if end.Some? {
        LineEndsAtNewline(mode.separator, chunk[chunkPos..maxPos]);
      }
      if end.None? && maxPos == chunkPos + maxChars {
        return Some(maxPos);
      }
    }

    /** A bound on the refills still to come: first the bytes, then what the decoder holds. */
    ghost function Work(): nat
      reads this, transport
    {
      2 * |Undecoded()| + if Exhausted(codec, mode, decoder) then 0 else 1
    }

    /** Receives one more chunk unless one is still waiting to be decoded. */
    method ReceiveRaw() returns (ok: bool)
      requires Valid()
      modifies `rawChunk, transport
      ensures Valid() && Undecoded() == old(Undecoded())
      ensures ok ==> rawChunk.Some?
      ensures !ok ==> rawChunk.None?
      ensures old(rawChunk.Some?) ==> ok && rawChunk == old(rawChunk) && transport.rest == old(transport.rest)
      ensures transport.raised == old(transport.raised) + if ok then 0 else 1
      ensures transport.requests ==
        old(transport.requests) + if old(rawChunk).Some? then [] else [chunkSize]
    {
      ok := true;
      if rawChunk.None? {
        var received := transport.ReceiveSome(chunkSize);
        if received.Raised? {
          return false;
        }
        rawChunk := Some(received.bytes);
      }
    }

    /** What is decoded behind a CR that may belong to a CRLF keeps the two together. */
    static lemma CrStaysWhole(c: Codec, m: Mode, s: DecoderState, bytes: seq<Byte>, buffered: string)
      requires Decode(c, m, s, bytes).Some? && bytes != []
      requires m.separator == "" ==> m.universal
      requires m.separator == "" && EndsInCr(buffered) ==> s.pendingCr
      ensures var o := Decode(c, m, s, bytes).value;
        m.separator == "" && EndsInCr(buffered + o.text) ==> o.state.pendingCr
    {
      if m.separator == "" {
        OutputEndsInCr(c, m, s, bytes);
      }
    }

    /** What a round of decoding does to the text ahead, with `buffered` in front of it. */
    static lemma DecodeAdvances(c: Codec, strict: Codec, m: Mode, s: DecoderState, bytes: seq<Byte>, rest: seq<Byte>,
                                buffered: string)
      requires Extends(c, strict) && Decode(strict, m, s, bytes).Some? && bytes != [] && (m.translate ==> m.universal)
      ensures var o := Decode(strict, m, s, bytes).value;
        && TextAhead(c, m, s, bytes + rest).clean == TextAhead(c, m, o.state, rest).clean
        && buffered + TextAhead(c, m, s, bytes + rest).text
             == (buffered + o.text) + TextAhead(c, m, o.state, rest).text
    {
      DecodeExtends(c, strict, m, s, bytes);
      DecodeMovesText(c, m, s, bytes, rest);
    }

    /** Moves the decoded chunk behind what is buffered and drops what was returned before. */
    method Append(output: Output)
      requires chunkPos <= |chunk|
      modifies `decoder, `rawChunk, `chunk, `chunkPos
      ensures decoder == output.state && rawChunk == None && chunkPos == 0
      ensures chunk == old(chunk[chunkPos..]) + output.text
    {
      decoder := output.state;
      chunk := chunk[chunkPos..] + output.text;
      chunkPos := 0;
      rawChunk := None;
    }

    /** One round of decoding, for a chunk with data in it. */
    method DecodeData(ghost c: Codec) returns (ok: bool)
      requires Valid() && Extends(c, codec) && rawChunk.Some? && rawChunk.value != []
      modifies `decoder, `rawChunk, `chunk, `chunkPos
      ensures Valid() && Ahead(c) == old(Ahead(c))
      ensures ok ==> Work() < old(Work())
      ensures !ok ==> unchanged(this) && Decode(codec, mode, decoder, rawChunk.value).None?
    {
      var output := Decode(codec, mode, decoder, rawChunk.value);
      if output.None? {
        return false;
      }
      ghost var buffered, rest := chunk[chunkPos..], transport.rest;
      DecodeAdvances(c, codec, mode, decoder, rawChunk.value, rest, buffered);
      CrStaysWhole(codec, mode, decoder, rawChunk.value, buffered);
      Append(output.value);
      assert Undecoded() == rest && chunk[chunkPos..] == buffered + output.value.text;
      ok := true;
    }

    /** One round of decoding at the end of the data. */
    method DecodeFinal(ghost c: Codec) returns (ok: bool, atEnd: bool)
      requires Valid() && Extends(c, codec) && rawChunk == Some([])
      modifies `decoder, `rawChunk, `chunk, `chunkPos
      ensures Valid() && Ahead(c) == old(Ahead(c))
      ensures ok && atEnd ==> Undecoded() == [] && Ahead(c) == Decoded(chunk[chunkPos..], true)
      ensures ok && atEnd ==> chunk == old(chunk) && chunkPos == old(chunkPos)
      ensures ok && !atEnd ==> Work() < old(Work())
      ensures !ok ==> unchanged(this) && Decode(codec, mode, decoder, rawChunk.value).None?
    {
      var output := Decode(codec, mode, decoder, []);
      if output.None? {
        return false, false;
      }
      ghost var buffered := chunk[chunkPos..];
      assert Undecoded() == [];
      DecodeExtends(c, codec, mode, decoder, []);
      FlushMovesText(handlers, codec, mode, decoder);
      assert SettlesAt(codec, codec, decoder.codec);
      FlushExtends(c, codec, mode, decoder);
      assert TextAhead(c, mode, decoder, []) == Decoded(output.value.text, true);
      assert TextAhead(c, mode, output.value.state, []) == Decoded("", true);
      if output.value.text == "" {
        decoder := output.value.state;
        return true, true;
      }
      Append(output.value);
      assert Undecoded() == [];
      assert chunk[chunkPos..] == buffered + output.value.text;
      return true, false;
    }

    static lemma CutFront(line: string, rest: string, more: string)
      ensures ((line + rest) + more)[|line|..] == rest + more
    {
    }

    /** Cuts off the line and compacts the buffer when nothing is left in it. */
    method TakeLine(lineEnd: nat, ghost c: Codec) returns (line: string)
      requires Valid() && chunkPos <= lineEnd <= |chunk|
      modifies `chunk, `chunkPos
      ensures Valid() && line == old(chunk[chunkPos..lineEnd])
      ensures |line| <= |old(Ahead(c)).text|
      ensures Ahead(c) == Decoded(old(Ahead(c)).text[|line|..], old(Ahead(c)).clean)
    {
      ghost var buffered := chunk[chunkPos..];
      line := chunk[chunkPos..lineEnd];
      chunkPos := lineEnd;
      if chunkPos == |chunk| {
        chunk := "";
        chunkPos := 0;
      }
      assert buffered == line + chunk[chunkPos..];
      CutFront(line, chunk[chunkPos..], Coming(c).text);
    }

    /** The end found in the buffer is the end of the line of the whole text. */
    method ReturnLine(lineEnd: nat, maxChars: int, ghost c: Codec) returns (r: LineResult)
      requires Valid() && Extends(c, codec) && maxChars != 0 && chunkPos <= lineEnd <= |chunk|
      requires chunk[chunkPos..lineEnd] == LineOf(mode.separator, chunk[chunkPos..], maxChars)
      requires var w := Window(chunk[chunkPos..], maxChars);
        || NewlineEnd(mode.separator, w).Some?
        || |w| == maxChars
        || Coming(c).text == ""
      modifies `chunk, `chunkPos
      ensures Valid() && r == Line(old(chunk[chunkPos..lineEnd]))
      ensures r.line == LineOf(mode.separator, old(Ahead(c)).text, maxChars)
      ensures Ahead(c) == Decoded(old(Ahead(c)).text[|r.line|..], old(Ahead(c)).clean)
    {
      CrIsNotCut(c);
      LineFromPart(mode.separator, chunk[chunkPos..], Coming(c).text, maxChars);
      var line := TakeLine(lineEnd, c);
      r := Line(line);
    }

    /** The line, if what is buffered decides it. */
    method TryLine(maxChars: int, ghost c: Codec) returns (r: LineResult, found: bool)
      requires Valid() && Extends(c, codec) && maxChars != 0
      modifies `chunk, `chunkPos
      ensures Valid()
      ensures found ==> r.Line? && r.line != "" && r.line == LineOf(mode.separator, old(Ahead(c)).text, maxChars)
      ensures found ==> Ahead(c) == Decoded(old(Ahead(c)).text[|r.line|..], old(Ahead(c)).clean)
      ensures found ==> WholeLine(r.line, maxChars)
      ensures !found ==> chunk == old(chunk) && chunkPos == old(chunkPos)
      ensures !found ==> LineOf(mode.separator, chunk[chunkPos..], maxChars) == chunk[chunkPos..]
    {
      r := TransportRaised;
      var lineEnd := Search(maxChars);
      found := lineEnd.Some?;
      if found {
        r := ReturnLine(lineEnd.value, maxChars, c);
      }
    }

    /** One more chunk, or the reason why there is none. */
    method Refill(ghost c: Codec) returns (failure: Option<LineResult>, atEnd: bool)
      requires Valid() && Extends(c, codec)
      modifies `decoder, `rawChunk, `chunk, `chunkPos, transport
      ensures Valid() && Ahead(c) == old(Ahead(c))
      ensures failure.None? && !atEnd ==> Work() < old(Work())
      ensures failure.None? && atEnd ==> chunk == old(chunk) && chunkPos == old(chunkPos)
      ensures failure.None? && atEnd ==> Undecoded() == [] && Ahead(c) == Decoded(chunk[chunkPos..], true)
      ensures failure.Some? ==> failure.value in {DecodeError, TransportRaised}
      ensures failure == Some(DecodeError) ==> Stuck()
      ensures transport.raised == old(transport.raised) + if failure == Some(TransportRaised) then 1 else 0
    {
      failure, atEnd := None, false;
      var ok := ReceiveRaw();
      if !ok {
        return Some(TransportRaised), false;
      }
      if rawChunk.value == [] {
        ok, atEnd := DecodeFinal(c);
      } else {
        ok := DecodeData(c);
      }
      if !ok {
        DecodeFails(codec, mode, decoder, rawChunk.value, transport.rest);
        return Some(DecodeError), false;
      }
    }

    /** The saved chunk cannot be decoded, and the text ahead really has an error. */
    ghost predicate Stuck()
      reads this, transport
    {
      && rawChunk.Some?
      && Decode(codec, mode, decoder, rawChunk.value).None?
      && !Coming(codec).clean
    }

    /** The last line: all that is buffered, possibly nothing. */
    method Finish(maxChars: int, ghost c: Codec) returns (r: LineResult)
      requires Valid() && Extends(c, codec) && maxChars != 0
      requires LineOf(mode.separator, chunk[chunkPos..], maxChars) == chunk[chunkPos..]
      requires Undecoded() == [] && Ahead(c) == Decoded(chunk[chunkPos..], true)
      modifies `chunk, `chunkPos
      ensures Valid() && r.Line? && LineTaken(r, maxChars, c, old(Ahead(c)))
    {
      ghost var ahead := Ahead(c);
      assert |ahead.text| == |chunk[chunkPos..]| + |Coming(c).text|;
      assert chunk[chunkPos..|chunk|] == chunk[chunkPos..];
      r := ReturnLine(|chunk|, maxChars, c);
      assert r.line == ahead.text;
    }

    /** When the buffer does not decide the line: one more chunk, or the end of the call. */
    method RefillOrFinish(maxChars: int, ghost c: Codec) returns (r: LineResult, done: bool)
      requires Valid() && Extends(c, codec) && maxChars != 0
      requires LineOf(mode.separator, chunk[chunkPos..], maxChars) == chunk[chunkPos..]
      modifies `decoder, `rawChunk, `chunk, `chunkPos, transport
      ensures Valid()
      ensures !done ==> Ahead(c) == old(Ahead(c)) && Work() < old(Work())
      ensures done ==> LineTaken(r, maxChars, c, old(Ahead(c)))
      ensures transport.raised == old(transport.raised) + if done && r.TransportRaised? then 1 else 0
    {
      var failure, atEnd := Refill(c);
      r, done := TransportRaised, true;
      if failure.Some? {
        r := failure.value;
      } else if atEnd {
        r := Finish(maxChars, c);
      } else {
        done := false;
      }
    }

    /** The line ends with its first newline, or has as many characters as were asked for. */
    predicate WholeLine(line: string, maxChars: int) {
      NewlineEnd(mode.separator, line) == Some(|line|) || |line| == maxChars
    }

    /** The result of a call that started with the text `ahead`, in the state after it. */
    ghost predicate LineTaken(r: LineResult, maxChars: int, c: Codec, ahead: Decoded)
      requires Valid() && maxChars != 0
      reads this, transport
    {
      match r
      case Line(line) =>
        && line == LineOf(mode.separator, ahead.text, maxChars)
        && Ahead(c) == Decoded(ahead.text[|line|..], ahead.clean)
        && (line == "" ==> Undecoded() == [] && ahead == Decoded("", true))
        // A line in front of a decoding error is a whole one.
        && (!ahead.clean ==> WholeLine(line, maxChars))
      case DecodeError => Ahead(c) == ahead && Stuck()
      case TransportRaised => Ahead(c) == ahead
    }

    /**
      The line returned depends on the text ahead alone, not on how it arrived or on what
      is buffered; a failure loses nothing. `c` is any codec that extends the present one:
      with the present codec itself this is the plain statement, with a more lenient error
      handler it says that the stream can still be read on with that handler from here.
      */
    method ReceiveLine(maxChars: int, ghost c: Codec) returns (r: LineResult)
      requires Valid() && Extends(c, codec) && maxChars != 0
      modifies `decoder, `rawChunk, `chunk, `chunkPos, transport
      ensures Valid() && LineTaken(r, maxChars, c, old(Ahead(c)))
      ensures transport.raised == old(transport.raised) + if r.TransportRaised? then 1 else 0
    {
      ghost var ahead := Ahead(c);
      var ok := transport.Checkpoint();
      if !ok {
        return TransportRaised;
      }
      while true
        invariant Valid() && Ahead(c) == ahead && transport.raised == old(transport.raised)
        decreases Work()
      {
        var done: bool;
        r, done := TryLine(maxChars, c);
        if done {
          return;
        }
        r, done := RefillOrFinish(maxChars, c);
        if done {
          return;
        }
      }
    }

    /**
      Iteration over the stream: all lines up to the first empty one, or up to a failure.
      However far it came, the lines seen and those still ahead are the lines of the text.
      */
    method Iterate(ghost c: Codec) returns (lines: seq<string>, end: LineResult)
      requires Valid() && Extends(c, codec)
      modifies `decoder, `rawChunk, `chunk, `chunkPos, transport
      ensures Valid()
      ensures lines + SplitLines(mode.separator, Ahead(c).text)
           == SplitLines(mode.separator, old(Ahead(c)).text)
      ensures end.Line? ==> end.line == "" && old(Ahead(c)).clean && Ahead(c).text == ""
      ensures end.Line? ==> lines == SplitLines(mode.separator, old(Ahead(c)).text)
      ensures end.DecodeError? ==> Stuck()
      ensures transport.raised == old(transport.raised) + if end.TransportRaised? then 1 else 0
    {
      lines := [];
      ghost var left, clean := Ahead(c).text, Ahead(c).clean;
      ghost var all := SplitLines(mode.separator, left);
      while true
        invariant Valid() && Ahead(c) == Decoded(left, clean) && transport.raised == old(transport.raised)
        invariant lines + SplitLines(mode.separator, left) == all
        decreases |left|
      {
        end := ReceiveLine(-1, c);
        if !end.Line? || end.line == "" {
          return;
        }
        NextLine(mode.separator, left, lines);
        lines := lines + [end.line];
        left := left[|end.line|..];
      }
    }
  }
}
