/**
  From bytes to text. The codec is any machine that reads byte by byte; the newline
  decoder on top of it is Python's io.IncrementalNewlineDecoder. `Decode` works chunk by
  chunk and holds back a CR; `TextAhead` is the meaning of the whole remaining input.
  */
module Decoding {
  import opened Options
  import opened TransportStream

  /** The internal state of an incremental decoder. */
  type CodecState(==, !new)

  datatype Step = Step(state: CodecState, output: string)

  /** `None` is a decoding error, which leaves the state alone. */
  datatype Codec = Codec(
    next: (CodecState, Byte) -> Option<Step>,
    flush: CodecState -> Option<Step>)

  /** After a flush nothing is left to flush, under the same or any other error handler. */
  ghost predicate Settles(handlers: iset<Codec>) {
    forall c, d, s :: c in handlers && d in handlers ==> SettlesAt(c, d, s)
  }

  ghost predicate SettlesAt(c: Codec, d: Codec, s: CodecState) {
    c.flush(s).Some? ==>
      var again := d.flush(c.flush(s).value.state);
      again.Some? && again.value.output == ""
  }

  /** A more lenient error handler: where `strict` decodes, `lenient` does the same. */
  ghost predicate Extends(lenient: Codec, strict: Codec) {
    && (forall s, b :: ExtendsNext(lenient, strict, s, b))
    && (forall s :: ExtendsFlush(lenient, strict, s))
  }

  ghost predicate ExtendsNext(lenient: Codec, strict: Codec, s: CodecState, b: Byte) {
    strict.next(s, b).Some? ==> lenient.next(s, b) == strict.next(s, b)
  }

  ghost predicate ExtendsFlush(lenient: Codec, strict: Codec, s: CodecState) {
    strict.flush(s).Some? ==> lenient.flush(s) == strict.flush(s)
  }

  // ---- The underlying decoder ----

  /** One call with some bytes; it fails as a whole. */
  function Feed(c: Codec, s: CodecState, bytes: seq<Byte>): Option<Step>
    decreases bytes
  {
    if bytes == [] then Some(Step(s, ""))
    else
      match c.next(s, bytes[0])
      case None => None
      case Some(first) =>
        match Feed(c, first.state, bytes[1..])
        case None => None
        case Some(more) => Some(Step(more.state, first.output + more.output))
  }

  /** Text up to the end of the input, or up to the first error (`clean` is then false). */
  datatype Decoded = Decoded(text: string, clean: bool)

  function CodecText(c: Codec, s: CodecState, bytes: seq<Byte>): Decoded
    decreases bytes
  {
    if bytes == [] then
      match c.flush(s)
      case None => Decoded("", false)
      case Some(last) => Decoded(last.output, true)
    else
      match c.next(s, bytes[0])
      case None => Decoded("", false)
      case Some(first) =>
        var more := CodecText(c, first.state, bytes[1..]);
        Decoded(first.output + more.text, more.clean)
  }

  // ---- Newlines ----

  /** How the stream treats newlines: the separator looked for, and what the decoder does. */
  datatype Mode = Mode(separator: string, universal: bool, translate: bool)

  function ModeOf(newline: Option<string>): Mode {
    match newline
    case None => Mode("\n", true, true)
    case Some(nl) => Mode(nl, nl == "", false)
  }

  predicate EndsInCr(s: string) {
    s != "" && s[|s| - 1] == '\r'
  }

  predicate StartsWithLf(s: string) {
    s != "" && s[0] == '\n'
  }

  /** The length of the newline or other character that a text starts with. */
  function HeadLength(s: string): (n: nat)
    requires s != ""
    ensures 1 <= n <= |s|
  {
    if s[0] == '\r' && |s| > 1 && s[1] == '\n' then 2 else 1
  }

  /** Every newline sequence becomes LF: the meaning of `newline=None`. */
  function Translate(s: string): string
    decreases |s|
  {
    if s == "" then "" else [if s[0] == '\r' then '\n' else s[0]] + Translate(s[HeadLength(s)..])
  }

  /** Python's `replace("\r\n", "\n")`. */
  function ReplaceCrLf(s: string): string
    decreases |s|
  {
    if s == "" then ""
    else [if HeadLength(s) == 2 then '\n' else s[0]] + ReplaceCrLf(s[HeadLength(s)..])
  }

  /** Python's `replace("\r", "\n")`. */
  function ReplaceCr(s: string): string {
    if s == "" then "" else [if s[0] == '\r' then '\n' else s[0]] + ReplaceCr(s[1..])
  }

  // ---- The decoder of a text stream ----

  datatype DecoderState = DecoderState(codec: CodecState, pendingCr: bool)

  datatype Output = Output(state: DecoderState, text: string)

  /** The newline decoder around one result of the underlying decoder. */
  function NewlineFilter(m: Mode, pendingCr: bool, out: Step, final: bool): Output {
    var flushCr := pendingCr && (out.output != "" || final);
    var text := if flushCr then "\r" + out.output else out.output;
    var holdBack := EndsInCr(text) && !final;
    var kept := if holdBack then text[..|text| - 1] else text;
    Output(DecoderState(out.state, holdBack || (pendingCr && !flushCr)),
           if m.translate then ReplaceCr(ReplaceCrLf(kept)) else kept)
  }

  /** One call of the stream's decoder; `final` goes with an empty chunk, as in the source. */
  function Decode(c: Codec, m: Mode, s: DecoderState, bytes: seq<Byte>): Option<Output> {
    var final := bytes == [];
    match if final then c.flush(s.codec) else Feed(c, s.codec, bytes)
    case None => None
    case Some(out) =>
      Some(if m.universal then NewlineFilter(m, s.pendingCr, out, final)
           else Output(DecoderState(out.state, s.pendingCr), out.output))
  }

  function Held(m: Mode, s: DecoderState): string {
    if m.universal && s.pendingCr then "\r" else ""
  }

  function Shown(m: Mode, text: string): string {
    if m.translate then Translate(text) else text
  }

  /** All the text that is still to come from a decoder state and the bytes ahead of it. */
  function TextAhead(c: Codec, m: Mode, s: DecoderState, bytes: seq<Byte>): Decoded {
    var d := CodecText(c, s.codec, bytes);
    Decoded(Shown(m, Held(m, s) + d.text), d.clean)
  }

  // ---- The underlying decoder, chunk by chunk ----

  lemma {:induction false} FeedText(c: Codec, s: CodecState, a: seq<Byte>, b: seq<Byte>)
    ensures match Feed(c, s, a)
      case None => !CodecText(c, s, a + b).clean
      case Some(out) =>
        && CodecText(c, s, a + b).text == out.output + CodecText(c, out.state, b).text
        && CodecText(c, s, a + b).clean == CodecText(c, out.state, b).clean
    decreases a
  {
    if a == [] {
      assert a + b == b;
    } else {
      assert (a + b)[0] == a[0] && (a + b)[1..] == a[1..] + b;
      if c.next(s, a[0]).Some? {
        FeedText(c, c.next(s, a[0]).value.state, a[1..], b);
      }
    }
  }

  /** The text of the input is what one call with all of it gives, and the final call after it. */
  lemma TextIsFedAndFlushed(c: Codec, s: CodecState, bytes: seq<Byte>)
    ensures match Feed(c, s, bytes)
      case None => !CodecText(c, s, bytes).clean
      case Some(out) =>
        match c.flush(out.state)
        case None => CodecText(c, s, bytes) == Decoded(out.output, false)
        case Some(last) => CodecText(c, s, bytes) == Decoded(out.output + last.output, true)
  {
    FeedText(c, s, bytes, []);
    assert bytes + [] == bytes;
  }

  lemma {:induction false} FeedExtends(lenient: Codec, strict: Codec, s: CodecState, bytes: seq<Byte>)
    requires Extends(lenient, strict) && Feed(strict, s, bytes).Some?
    ensures Feed(lenient, s, bytes) == Feed(strict, s, bytes)
    decreases bytes
  {
    if bytes != [] {
      assert ExtendsNext(lenient, strict, s, bytes[0]);
      FeedExtends(lenient, strict, strict.next(s, bytes[0]).value.state, bytes[1..]);
    }
  }

  lemma {:induction false} CleanExtends(lenient: Codec, strict: Codec, s: CodecState, bytes: seq<Byte>)
    requires Extends(lenient, strict) && CodecText(strict, s, bytes).clean
    ensures CodecText(lenient, s, bytes) == CodecText(strict, s, bytes)
    decreases bytes
  {
    if bytes == [] {
      assert ExtendsFlush(lenient, strict, s);
    } else {
      assert ExtendsNext(lenient, strict, s, bytes[0]);
      CleanExtends(lenient, strict, strict.next(s, bytes[0]).value.state, bytes[1..]);
    }
  }

  lemma DecodeExtends(lenient: Codec, strict: Codec, m: Mode, s: DecoderState, bytes: seq<Byte>)
    requires Extends(lenient, strict) && Decode(strict, m, s, bytes).Some?
    ensures Decode(lenient, m, s, bytes) == Decode(strict, m, s, bytes)
  {
    if bytes == [] {
      assert ExtendsFlush(lenient, strict, s.codec);
    } else {
      FeedExtends(lenient, strict, s.codec, bytes);
    }
  }

  // ---- Translation, piece by piece ----

  /** The two replacements in a row are the translation. */
  lemma {:induction false} ReplacesTranslate(s: string)
    ensures ReplaceCr(ReplaceCrLf(s)) == Translate(s)
    decreases |s|
  {
    if s != "" {
      ReplacesTranslate(s[HeadLength(s)..]);
      assert ReplaceCrLf(s)[1..] == ReplaceCrLf(s[HeadLength(s)..]);
    }
  }

  /** Text may be translated in pieces unless a cut falls between CR and LF. */
  lemma {:induction false} TranslateConcat(a: string, b: string)
    requires !(EndsInCr(a) && StartsWithLf(b))
    ensures Translate(a + b) == Translate(a) + Translate(b)
    decreases |a|
  {
    if a == "" {
      assert a + b == b;
    } else {
      var n := HeadLength(a);
      assert (a + b)[0] == a[0] && (|a| > 1 ==> (a + b)[1] == a[1]) && (|a| == 1 && b != "" ==> (a + b)[1] == b[0]);
      assert HeadLength(a + b) == n;
      assert (a + b)[n..] == a[n..] + b;
      TranslateConcat(a[n..], b);
      var c := [if a[0] == '\r' then '\n' else a[0]];
      assert c + (Translate(a[n..]) + Translate(b)) == (c + Translate(a[n..])) + Translate(b);
    }
  }

  lemma {:induction false} TranslateNoCr(s: string)
    ensures forall i :: 0 <= i < |Translate(s)| ==> Translate(s)[i] != '\r'
    ensures Translate(s) == "" <==> s == ""
    decreases |s|
  {
    if s != "" {
      TranslateNoCr(s[HeadLength(s)..]);
    }
  }

  // ---- The stream's decoder, chunk by chunk ----

  /** Held-back CR plus new output splits into what is passed on and what is held back next. */
  lemma FilterSplits(m: Mode, s: DecoderState, out: Step, rest: string)
    requires m.universal
    ensures var o := NewlineFilter(m, s.pendingCr, out, false);
      Shown(m, Held(m, s) + (out.output + rest)) == o.text + Shown(m, Held(m, o.state) + rest)
  {
    var o := NewlineFilter(m, s.pendingCr, out, false);
    var o' := NewlineFilter(m.(translate := false), s.pendingCr, out, false);
    assert Held(m, s) + (out.output + rest) == o'.text + (Held(m, o.state) + rest);
    if m.translate {
      ReplacesTranslate(o'.text);
      TranslateConcat(o'.text, Held(m, o.state) + rest);
    }
  }

  /**
    Decoding a chunk moves exactly its text from what lies ahead to what has been decoded:
    the text of a stream does not depend on where the transport cuts it.
    */
  lemma DecodeMovesText(c: Codec, m: Mode, s: DecoderState, a: seq<Byte>, b: seq<Byte>)
    requires a != [] && Decode(c, m, s, a).Some? && (m.translate ==> m.universal)
    ensures var o := Decode(c, m, s, a).value;
      TextAhead(c, m, s, a + b)
        == Decoded(o.text + TextAhead(c, m, o.state, b).text, TextAhead(c, m, o.state, b).clean)
  {
    FeedText(c, s.codec, a, b);
    var out := Feed(c, s.codec, a).value;
    if m.universal {
      FilterSplits(m, s, out, CodecText(c, out.state, b).text);
    } else {
      assert Held(m, s) + (out.output + CodecText(c, out.state, b).text)
          == out.output + (Held(m, s) + CodecText(c, out.state, b).text);
    }
  }

  /** Nothing lies ahead any more. */
  predicate Exhausted(c: Codec, m: Mode, s: DecoderState) {
    && c.flush(s.codec).Some?
    && c.flush(s.codec).value.output == ""
    && !(m.universal && s.pendingCr)
  }

  lemma FlushText(c: Codec, m: Mode, s: DecoderState)
    requires Decode(c, m, s, []).Some? && (m.translate ==> m.universal)
    ensures var o := Decode(c, m, s, []).value;
      && TextAhead(c, m, s, []) == Decoded(o.text, true)
      && (o.text == "" <==> Exhausted(c, m, s))
  {
    var text := Held(m, s) + c.flush(s.codec).value.output;
    if m.translate {
      ReplacesTranslate(text);
      TranslateNoCr(text);
    }
    assert Held(m, s) == "" ==> text == c.flush(s.codec).value.output;
    assert Decode(c, m, s, []).value.text == Shown(m, text);
  }

  /** After the final call nothing lies ahead, whatever error handler is set then. */
  lemma FlushExhausts(c: Codec, d: Codec, m: Mode, s: DecoderState)
    requires Decode(c, m, s, []).Some? && SettlesAt(c, d, s.codec)
    ensures Exhausted(d, m, Decode(c, m, s, []).value.state)
    ensures TextAhead(d, m, Decode(c, m, s, []).value.state, []) == Decoded("", true)
  {
    assert Translate("") == "" && "" + "" == "";
  }

  lemma FlushMovesText(handlers: iset<Codec>, c: Codec, m: Mode, s: DecoderState)
    requires c in handlers && Settles(handlers)
    requires Decode(c, m, s, []).Some? && (m.translate ==> m.universal)
    ensures var o := Decode(c, m, s, []).value;
      && TextAhead(c, m, s, []) == Decoded(o.text, true)
      && (forall d :: d in handlers ==>
            Exhausted(d, m, o.state) && TextAhead(d, m, o.state, []) == Decoded("", true))
      && (o.text == "" <==> Exhausted(c, m, s))
  {
    FlushText(c, m, s);
    forall d | d in handlers
      ensures var o := Decode(c, m, s, []).value;
        Exhausted(d, m, o.state) && TextAhead(d, m, o.state, []) == Decoded("", true)
    {
      assert SettlesAt(c, d, s.codec);
      FlushExhausts(c, d, m, s);
    }
  }

  /** The end of the stream is the same for a more lenient error handler. */
  lemma FlushExtends(lenient: Codec, strict: Codec, m: Mode, s: DecoderState)
    requires Extends(lenient, strict) && SettlesAt(strict, strict, s.codec) && Decode(strict, m, s, []).Some?
    ensures TextAhead(lenient, m, s, []) == TextAhead(strict, m, s, [])
    ensures var s' := Decode(strict, m, s, []).value.state;
      TextAhead(lenient, m, s', []) == TextAhead(strict, m, s', [])
  {
    assert ExtendsFlush(lenient, strict, s.codec);
    assert ExtendsFlush(lenient, strict, strict.flush(s.codec).value.state);
  }

  /** A chunk that does not decode stands before a real error. */
  lemma DecodeFails(c: Codec, m: Mode, s: DecoderState, a: seq<Byte>, b: seq<Byte>)
    requires Decode(c, m, s, a) == None && (a == [] ==> b == [])
    ensures !TextAhead(c, m, s, a + b).clean
  {
    if a != [] {
      FeedText(c, s.codec, a, b);
    } else {
      assert a + b == [];
    }
  }

  function Flatten(chunks: seq<seq<Byte>>): seq<Byte> {
    if chunks == [] then [] else chunks[0] + Flatten(chunks[1..])
  }

  /** The text of a whole input that arrives in the given chunks, the final flush included. */
  function DecodeAll(c: Codec, m: Mode, s: DecoderState, chunks: seq<seq<Byte>>): Option<string>
    decreases chunks
  {
    if chunks == [] then
      match Decode(c, m, s, [])
      case None => None
      case Some(o) => Some(o.text)
    else
      match Decode(c, m, s, chunks[0])
      case None => None
      case Some(o) =>
        match DecodeAll(c, m, o.state, chunks[1..])
        case None => None
        case Some(text) => Some(o.text + text)
  }

  /**
    However the input is cut into chunks, decoding succeeds exactly when the input has no
    error, and then gives the text of the input.
    */
  lemma {:induction false} ChunkingIsInvisible(c: Codec, m: Mode, s: DecoderState, chunks: seq<seq<Byte>>)
    requires (m.translate ==> m.universal) && [] !in chunks
    ensures var d := TextAhead(c, m, s, Flatten(chunks));
      DecodeAll(c, m, s, chunks) == if d.clean then Some(d.text) else None
    decreases chunks
  {
    if chunks == [] {
      if Decode(c, m, s, []).Some? {
        FlushText(c, m, s);
      }
    } else {
      var a, b := chunks[0], Flatten(chunks[1..]);
      if Decode(c, m, s, a).Some? {
        DecodeMovesText(c, m, s, a, b);
        ChunkingIsInvisible(c, m, Decode(c, m, s, a).value.state, chunks[1..]);
      } else {
        DecodeFails(c, m, s, a, b);
      }
    }
  }

  /** Nothing that has been decoded is followed by the LF of a cut CRLF. */
  lemma OutputEndsInCr(c: Codec, m: Mode, s: DecoderState, bytes: seq<Byte>)
    requires m.universal && Decode(c, m, s, bytes).Some?
    ensures var o := Decode(c, m, s, bytes).value;
      && (EndsInCr(o.text) && bytes != [] ==> !m.translate && o.state.pendingCr)
      && (s.pendingCr && o.text == "" && bytes != [] ==> o.state.pendingCr)
  {
    var out := (if bytes == [] then c.flush(s.codec) else Feed(c, s.codec, bytes)).value;
    var kept := NewlineFilter(m.(translate := false), s.pendingCr, out, bytes == []).text;
    ReplacesTranslate(kept);
    TranslateNoCr(kept);
  }

  /**
    Output before the end of the stream may itself end in CR, namely in front of a second
    CR that is held back; it never ends in CR otherwise.
    */
  lemma FilterEndsInCrIff(m: Mode, pendingCr: bool, out: Step)
    requires m.universal && !m.translate
    ensures var text := (if pendingCr && out.output != "" then "\r" else "") + out.output;
      EndsInCr(NewlineFilter(m, pendingCr, out, false).text) <==>
      (|text| > 1 && text[|text| - 1] == '\r' && text[|text| - 2] == '\r')
  {
  }

  lemma FilterCanEndInCr(s: CodecState)
    ensures NewlineFilter(ModeOf(Some("")), false, Step(s, "\r\r"), false).text == "\r"
  {
  }
}
