/** Translating the newlines of a text changes the ends of its lines and nothing else. */
module Newlines {
  import opened Options
  import opened Decoding
  import opened Lines

  /** A line with LF in the place of whatever newline it ends with. */
  function WithLf(line: string): string {
    var n := |line|;
    if n > 1 && line[n - 2] == '\r' && line[n - 1] == '\n' then line[..n - 2] + "\n"
    else if n > 0 && (line[n - 1] == '\r' || line[n - 1] == '\n') then line[..n - 1] + "\n"
    else line
  }

  function AllWithLf(lines: seq<string>): seq<string> {
    if lines == [] then [] else [WithLf(lines[0])] + AllWithLf(lines[1..])
  }

  lemma WithLfLater(c: char, line: string)
    requires c != '\r' && c != '\n' && line != ""
    ensures WithLf([c] + line) == [c] + WithLf(line)
  {
    var l, n := [c] + line, |line|;
    assert l[n] == line[n - 1] && (n > 1 ==> l[n - 1] == line[n - 2]) && l[0] == c;
    assert l[..n] == [c] + line[..n - 1];
    if n > 1 {
      assert l[..n - 1] == [c] + line[..n - 2];
    }
  }

  /** The first line of any kind, before and after the translation. */
  ghost predicate FirstKept(s: string) {
    match NewlineEnd("", s)
    case None => Translate(s) == s && NewlineEnd("\n", s).None? && WithLf(s) == s
    case Some(e) =>
      var line := WithLf(s[..e]);
      line != "" && Translate(s) == line + Translate(s[e..]) && NewlineEnd("\n", Translate(s)) == Some(|line|)
  }

  lemma TranslateHead(c: char, rest: string)
    requires c != '\n' && c != '\r'
    ensures Translate([c] + rest) == [c] + Translate(rest)
  {
    assert ([c] + rest)[1..] == rest;
  }

  /** A character that is no newline, in front of a text. */
  lemma EndAfterHead(separator: string, c: char, rest: string)
    requires c != '\r' && c != '\n' && separator in {"", "\n"}
    ensures NewlineEnd(separator, [c] + rest) ==
      match NewlineEnd(separator, rest)
      case None => None
      case Some(e) => Some(e + 1)
  {
    var s := [c] + rest;
    assert s[1..] == rest && s[0] == c;
    assert s[0] != "\n"[0];
  }

  lemma TextKept(c: char, rest: string)
    requires c != '\r' && c != '\n' && NewlineEnd("", rest).None? && FirstKept(rest)
    ensures FirstKept([c] + rest)
  {
    EndAfterHead("", c, rest);
    EndAfterHead("\n", c, rest);
    TranslateHead(c, rest);
    if rest != "" {
      WithLfLater(c, rest);
    }
  }

  lemma CutLater(c: char, rest: string, e: nat)
    requires e <= |rest|
    ensures ([c] + rest)[..e + 1] == [c] + rest[..e] && ([c] + rest)[e + 1..] == rest[e..]
  {
  }

  lemma Regroup(c: char, line: string, after: string)
    ensures [c] + (line + after) == ([c] + line) + after
  {
  }

  lemma LineText(c: char, rest: string, e: nat)
    requires c != '\r' && c != '\n' && 0 < e <= |rest|
    requires Translate(rest) == WithLf(rest[..e]) + Translate(rest[e..])
    ensures var s := [c] + rest;
      && WithLf(s[..e + 1]) == [c] + WithLf(rest[..e])
      && Translate(s) == WithLf(s[..e + 1]) + Translate(s[e + 1..])
  {
    CutLater(c, rest, e);
    WithLfLater(c, rest[..e]);
    TranslateHead(c, rest);
    Regroup(c, WithLf(rest[..e]), Translate(rest[e..]));
  }

  lemma LineKept(c: char, rest: string, e: nat)
    requires c != '\r' && c != '\n' && NewlineEnd("", rest) == Some(e) && FirstKept(rest)
    ensures FirstKept([c] + rest)
  {
    EndAfterHead("", c, rest);
    LineText(c, rest, e);
    TranslateHead(c, rest);
    EndAfterHead("\n", c, Translate(rest));
  }

  lemma NewlineKept(s: string)
    requires s != "" && (s[0] == '\n' || s[0] == '\r')
    ensures FirstKept(s)
  {
    var n := HeadLength(s);
    assert NewlineEnd("", s) == Some(n) && WithLf(s[..n]) == "\n";
    assert Translate(s) == "\n" + Translate(s[n..]);
  }

  lemma {:induction false} FirstTranslated(s: string)
    ensures FirstKept(s)
    decreases |s|
  {
    if s == "" {
    } else if s[0] == '\n' || s[0] == '\r' {
      NewlineKept(s);
    } else {
      FirstTranslated(s[1..]);
      assert [s[0]] + s[1..] == s;
      match NewlineEnd("", s[1..])
      case None => TextKept(s[0], s[1..]);
      case Some(e) => LineKept(s[0], s[1..], e);
    }
  }

  /**
    With `newline=None` the lines of the stream are the lines of the text, each with the
    newline it ends with, of whatever kind, replaced by LF.
    */
  lemma {:induction false} LinesTranslated(s: string)
    ensures SplitLines("\n", Translate(s)) == AllWithLf(SplitLines("", s))
    decreases |s|
  {
    if s != "" {
      FirstTranslated(s);
      match NewlineEnd("", s)
      case None =>
        OneLine("\n", s);
        OneLine("", s);
      case Some(e) =>
        var line, t := WithLf(s[..e]), Translate(s);
        LinesTranslated(s[e..]);
        assert FirstLine("", s) == s[..e] && FirstLine("\n", t) == line && t[|line|..] == Translate(s[e..]);
        assert SplitLines("", s) == [s[..e]] + SplitLines("", s[e..]);
        assert SplitLines("\n", t) == [line] + SplitLines("\n", t[|line|..]);
    }
  }

  lemma OneLine(separator: string, s: string)
    requires s != "" && NewlineEnd(separator, s).None?
    ensures SplitLines(separator, s) == [s]
  {
    assert s[|s|..] == "" && SplitLines(separator, "") == [];
  }
}
