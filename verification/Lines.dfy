/**
  What a line is. `NewlineEnd` reads the text from the left; the source searches with
  `str.find` instead, and the lemmas say that it finds the same end, also when it only
  sees the part of the text that has arrived.
  */
module Lines {
  import opened Options

  // ---- The meaning ----

  /** Where the first newline ends. The empty separator stands for any of CR, LF, CRLF. */
  function NewlineEnd(separator: string, s: string): (end: Option<nat>)
    ensures end.Some? ==> 0 < end.value <= |s|
    decreases |s|
  {
    if s == "" then None
    else if separator == "" && s[0] == '\n' then Some(1)
    else if separator == "" && s[0] == '\r' then
      if |s| > 1 && s[1] == '\n' then Some(2) else Some(1)
    else if separator != "" && separator <= s then Some(|separator|)
    else
      match NewlineEnd(separator, s[1..])
      case None => None
      case Some(end) => Some(end + 1)
  }

  /** The text up to and including its first newline, or all of it. */
  function FirstLine(separator: string, s: string): (line: string)
    ensures line <= s
    ensures s != "" ==> line != ""
  {
    match NewlineEnd(separator, s)
    case None => s
    case Some(end) => s[..end]
  }

  /** The part of the text that a limit allows to look at; a negative limit is no limit. */
  function Window(s: string, maxChars: int): (w: string)
    ensures w <= s
    ensures maxChars > 0 ==> |w| <= maxChars
  {
    if 0 < maxChars < |s| then s[..maxChars] else s
  }

  /** The line that `receive_line` should return when `s` is all the text ahead. */
  function LineOf(separator: string, s: string, maxChars: int): (line: string)
    requires maxChars != 0
    ensures line <= s
    ensures s != "" ==> line != ""
  {
    FirstLine(separator, Window(s, maxChars))
  }

  /** Where a newline ends when it is the one at position `i`. */
  predicate NewlineAt(separator: string, s: string, i: nat, end: nat) {
    && i < end <= |s|
    && if separator != "" then s[i..end] == separator
       else if s[i] == '\n' then end == i + 1
       else s[i] == '\r' && end == (if i + 1 < |s| && s[i + 1] == '\n' then i + 2 else i + 1)
  }

  ghost predicate FirstNewlineAt(separator: string, s: string, i: nat, end: nat) {
    && NewlineAt(separator, s, i, end)
    && forall j: nat, e: nat :: j < i ==> !NewlineAt(separator, s, j, e)
  }

  lemma NewlineAtLater(separator: string, s: string, i: nat, end: nat)
    requires s != "" && 0 < i < end
    ensures NewlineAt(separator, s, i, end) <==> NewlineAt(separator, s[1..], i - 1, end - 1)
  {
    if end <= |s| {
      assert s[1..][i - 1..end - 1] == s[i..end];
      assert s[1..][i - 1] == s[i];
      assert i + 1 < |s| ==> s[1..][i] == s[i + 1];
    }
  }

  /** A text without a newline at its beginning has its first newline where the rest has it. */
  lemma FirstNewlineLater(separator: string, s: string, i: nat, end: nat)
    requires s != "" && (forall e: nat :: !NewlineAt(separator, s, 0, e))
    requires FirstNewlineAt(separator, s[1..], i, end)
    ensures FirstNewlineAt(separator, s, i + 1, end + 1)
  {
    NewlineAtLater(separator, s, i + 1, end + 1);
    forall j: nat, e: nat | j < i + 1 ensures !NewlineAt(separator, s, j, e) {
      if 0 < j < e {
        NewlineAtLater(separator, s, j, e);
      }
    }
  }

  lemma NoNewlineLater(separator: string, s: string)
    requires s != "" && (forall e: nat :: !NewlineAt(separator, s, 0, e))
    requires forall i: nat, e: nat :: !NewlineAt(separator, s[1..], i, e)
    ensures forall i: nat, e: nat :: !NewlineAt(separator, s, i, e)
  {
    forall i: nat, e: nat ensures !NewlineAt(separator, s, i, e) {
      if 0 < i < e {
        NewlineAtLater(separator, s, i, e);
      }
    }
  }

  /** `NewlineEnd` looks at the beginning of the text first. */
  lemma NewlineAtStart(separator: string, s: string, end: nat)
    requires NewlineAt(separator, s, 0, end)
    ensures NewlineEnd(separator, s).Some? && FirstNewlineAt(separator, s, 0, NewlineEnd(separator, s).value)
  {
    if separator != "" {
      assert s[..|separator|] == separator;
      assert NewlineAt(separator, s, 0, |separator|);
    }
  }

  lemma NoNewlineAtStart(separator: string, s: string)
    requires s != "" && (forall e: nat :: !NewlineAt(separator, s, 0, e))
    ensures NewlineEnd(separator, s) ==
      match NewlineEnd(separator, s[1..])
      case None => None
      case Some(end) => Some(end + 1)
  {
    if separator != "" && separator <= s {
      assert NewlineAt(separator, s, 0, |separator|);
    } else if separator == "" {
      assert !NewlineAt("", s, 0, 1) && !NewlineAt("", s, 0, 2);
    }
  }

  /** `NewlineEnd` is the end of the leftmost newline, and `None` says that there is none. */
  lemma {:induction false} NewlineEndIsFirst(separator: string, s: string)
    ensures NewlineEnd(separator, s).None? ==>
      forall i: nat, end: nat :: !NewlineAt(separator, s, i, end)
    ensures NewlineEnd(separator, s).Some? ==>
      exists i: nat :: FirstNewlineAt(separator, s, i, NewlineEnd(separator, s).value)
    decreases |s|
  {
    if s == "" {
    } else if exists end: nat :: NewlineAt(separator, s, 0, end) {
      var end: nat :| NewlineAt(separator, s, 0, end);
      NewlineAtStart(separator, s, end);
    } else {
      NoNewlineAtStart(separator, s);
      NewlineEndIsFirst(separator, s[1..]);
      match NewlineEnd(separator, s[1..])
      case None => NoNewlineLater(separator, s);
      case Some(e) =>
        var i: nat :| FirstNewlineAt(separator, s[1..], i, e);
        FirstNewlineLater(separator, s, i, e);
    }
  }

  // ---- Searching, as the source does ----

  predicate OccursAt(s: string, sub: string, i: nat, end: nat) {
    i + |sub| <= end <= |s| && s[i..i + |sub|] == sub
  }

  /** Python's `s.find(sub, start, end)`: an absolute position, or -1. */
  function Find(s: string, sub: string, start: nat, end: nat): (r: int)
    requires sub != "" && start <= end <= |s|
    ensures r == -1 || (start <= r && OccursAt(s, sub, r, end))
    ensures forall i: nat :: start <= i && (r == -1 || i < r) ==> !OccursAt(s, sub, i, end)
    decreases end - start
  {
    if start + |sub| > end then -1
    else if s[start..start + |sub|] == sub then start
    else Find(s, sub, start + 1, end)
  }

  lemma SliceStep(s: string, start: nat, end: nat)
    requires start < end <= |s|
    ensures s[start..end] != "" && s[start..end][0] == s[start] && s[start..end][1..] == s[start + 1..end]
  {
  }

  lemma SlicePrefix(s: string, sub: string, start: nat, end: nat)
    requires start <= end <= |s|
    ensures sub <= s[start..end] <==> OccursAt(s, sub, start, end)
  {
    if start + |sub| <= end {
      assert s[start..end][..|sub|] == s[start..start + |sub|];
    }
  }

  lemma {:induction false} FindSeparator(s: string, separator: string, start: nat, end: nat)
    requires separator != "" && start <= end <= |s|
    ensures var r := Find(s, separator, start, end);
      NewlineEnd(separator, s[start..end]) == if r == -1 then None else Some(r + |separator| - start)
    decreases end - start
  {
    if start < end {
      SliceStep(s, start, end);
      SlicePrefix(s, separator, start, end);
      if !OccursAt(s, separator, start, end) {
        FindSeparator(s, separator, start + 1, end);
        FindNext(s, separator, start, end);
      }
    }
  }

  /** Where the search fails at its first position it goes on with the next. */
  lemma FindNext(s: string, sub: string, start: nat, end: nat)
    requires sub != "" && start < end <= |s| && !OccursAt(s, sub, start, end)
    ensures Find(s, sub, start, end) == Find(s, sub, start + 1, end)
  {
  }

  /** The end that the source computes from the first CR and the first LF. */
  function UniversalEnd(cr: int, lf: int): int {
    if cr != -1 && (lf == -1 || cr < lf) then cr + 1 + (if lf == cr + 1 then 1 else 0) else lf + 1
  }

  /** The search for one character, step by step. */
  lemma FindCharStep(s: string, c: char, start: nat, end: nat)
    requires start < end <= |s|
    ensures Find(s, [c], start, end) == if s[start] == c then start else Find(s, [c], start + 1, end)
  {
    assert s[start..start + 1] == [s[start]];
    if s[start] != c {
      FindNext(s, [c], start, end);
    }
  }

  lemma {:induction false} FindUniversal(s: string, start: nat, end: nat)
    requires start <= end <= |s|
    ensures var cr, lf := Find(s, "\r", start, end), Find(s, "\n", start, end);
      NewlineEnd("", s[start..end]) == if cr == -1 && lf == -1 then None else Some(UniversalEnd(cr, lf) - start)
    decreases end - start
  {
    if start < end {
      SliceStep(s, start, end);
      FindCharStep(s, '\r', start, end);
      FindCharStep(s, '\n', start, end);
      if s[start] == '\r' {
        if start + 1 < end {
          FindCharStep(s, '\n', start + 1, end);
        }
      } else if s[start] != '\n' {
        FindUniversal(s, start + 1, end);
      }
    }
  }

  /** The search for a separator ends the line where it should. */
  lemma SearchedSeparator(s: string, separator: string, start: nat, end: nat)
    requires separator != "" && start <= end <= |s|
    ensures var r, w := Find(s, separator, start, end), s[start..end];
      if r == -1 then NewlineEnd(separator, w).None?
      else NewlineEnd(separator, w).Some? && start <= r + |separator| <= end
             && s[start..r + |separator|] == FirstLine(separator, w)
  {
    FindSeparator(s, separator, start, end);
    var r := Find(s, separator, start, end);
    if r != -1 {
      assert s[start..r + |separator|] == s[start..end][..r + |separator| - start];
    }
  }

  /** And so does the search for any newline. */
  lemma SearchedUniversal(s: string, start: nat, end: nat)
    requires start <= end <= |s|
    ensures var cr, lf, w := Find(s, "\r", start, end), Find(s, "\n", start, end), s[start..end];
      var e := UniversalEnd(cr, lf);
      if cr == -1 && lf == -1 then NewlineEnd("", w).None?
      else NewlineEnd("", w).Some? && start <= e <= end && s[start..e] == FirstLine("", w)
  {
    FindUniversal(s, start, end);
    var e := UniversalEnd(Find(s, "\r", start, end), Find(s, "\n", start, end));
    if NewlineEnd("", s[start..end]).Some? {
      assert s[start..e] == s[start..end][..e - start];
    }
  }

  // ---- A line found in part of the text ----

  /** A newline found in a prefix is the first of the whole, unless it is the CR of a cut CRLF. */
  lemma {:induction false} PrefixNewline(separator: string, a: string, b: string)
    requires NewlineEnd(separator, a).Some?
    requires separator == "" && a != "" && a[|a| - 1] == '\r' ==> b == "" || b[0] != '\n'
    ensures NewlineEnd(separator, a + b) == NewlineEnd(separator, a)
    decreases |a|
  {
    if separator != "" && separator <= a {
      assert (a + b)[..|separator|] == separator;
    } else if separator == "" && (a[0] == '\n' || a[0] == '\r') {
    } else {
      assert (a + b)[1..] == a[1..] + b;
      PrefixNewline(separator, a[1..], b);
      if separator != "" {
        NewlineEndFits(separator, a[1..]);
        assert (a + b)[..|separator|] == a[..|separator|];
      }
    }
  }

  lemma {:induction false} NewlineEndFits(separator: string, s: string)
    requires NewlineEnd(separator, s).Some?
    ensures |separator| <= NewlineEnd(separator, s).value
    decreases |s|
  {
    if !(separator == "" && (s[0] == '\n' || s[0] == '\r')) && !(separator != "" && separator <= s) {
      NewlineEndFits(separator, s[1..]);
    }
  }

  /**
    The line the source takes from what has arrived, `a`, is the line of the whole text
    `a + b`: it found a newline there, or reached the limit, or nothing else will come.
    */
  lemma LineFromPart(separator: string, a: string, b: string, maxChars: int)
    requires maxChars != 0
    requires separator == "" && a != "" && a[|a| - 1] == '\r' ==> b == "" || b[0] != '\n'
    requires NewlineEnd(separator, Window(a, maxChars)).Some? || |Window(a, maxChars)| == maxChars || b == ""
    ensures LineOf(separator, a + b, maxChars) == LineOf(separator, a, maxChars)
  {
    var w, v := Window(a, maxChars), Window(a + b, maxChars);
    if |w| == maxChars || b == "" {
      assert b == "" ==> a + b == a;
      assert v == w;
    } else {
      assert w == a && v == a + b[..|v| - |a|];
      PrefixNewline(separator, a, b[..|v| - |a|]);
    }
  }

  // ---- All lines of a text ----

  function SplitLines(separator: string, s: string): seq<string>
    decreases |s|
  {
    if s == "" then []
    else
      var line := FirstLine(separator, s);
      [line] + SplitLines(separator, s[|line|..])
  }

  function Concat(lines: seq<string>): string {
    if lines == [] then "" else lines[0] + Concat(lines[1..])
  }

  lemma NextLine(separator: string, s: string, seen: seq<string>)
    requires s != ""
    ensures var line := LineOf(separator, s, -1);
      seen + SplitLines(separator, s) == (seen + [line]) + SplitLines(separator, s[|line|..])
  {
  }

  /** The lines partition the text, and each but the last ends where its own first newline ends. */
  lemma {:induction false} LinesPartition(separator: string, s: string)
    ensures Concat(SplitLines(separator, s)) == s
    ensures forall i :: 0 <= i < |SplitLines(separator, s)| ==>
      var line := SplitLines(separator, s)[i];
      && line != ""
      && (i < |SplitLines(separator, s)| - 1 ==> NewlineEnd(separator, line) == Some(|line|))
      && NewlineEnd(separator, line) in {None, Some(|line|)}
    decreases |s|
  {
    if s != "" {
      var line := FirstLine(separator, s);
      LinesPartition(separator, s[|line|..]);
      assert s == line + s[|line|..];
      if NewlineEnd(separator, s).Some? {
        LineEndsAtNewline(separator, s);
      }
    }
  }

  lemma {:induction false} LineEndsAtNewline(separator: string, s: string)
    requires NewlineEnd(separator, s).Some?
    ensures var e := NewlineEnd(separator, s).value; NewlineEnd(separator, s[..e]) == Some(e)
    decreases |s|
  {
    var e := NewlineEnd(separator, s).value;
    if separator != "" && separator <= s {
      assert separator <= s[..e];
    } else if separator == "" && (s[0] == '\n' || s[0] == '\r') {
    } else {
      LineEndsAtNewline(separator, s[1..]);
      assert s[..e][1..] == s[1..][..e - 1];
      assert separator <= s[..e] ==> separator <= s;
    }
  }

  /**
    What `receive_line` must return, whatever the limit: a part of the text from its
    beginning, not longer than the limit, with no newline in it except at its end, and ended
    by nothing but a newline, the limit or the end of the text.
    */
  lemma LineIsRight(separator: string, s: string, maxChars: int)
    requires maxChars != 0
    ensures var line := LineOf(separator, s, maxChars);
      && line <= s
      && (maxChars > 0 ==> |line| <= maxChars)
      && NewlineEnd(separator, line) in {None, Some(|line|)}
      && (NewlineEnd(separator, line).None? ==> |line| == maxChars || line == s)
      && (separator == "" && |line| < |s| && |line| != maxChars && line[|line| - 1] == '\r' ==> s[|line|] != '\n')
  {
    var w := Window(s, maxChars);
    if NewlineEnd(separator, w).Some? {
      LineEndsAtNewline(separator, w);
      if separator == "" {
        WholeCrLf(w);
      }
    }
  }

  /** The first line does not end between a CR and its LF. */
  lemma {:induction false} WholeCrLf(s: string)
    requires NewlineEnd("", s).Some?
    ensures var e := NewlineEnd("", s).value;
      e < |s| && s[e - 1] == '\r' ==> s[e] != '\n'
    decreases |s|
  {
    if s[0] != '\n' && s[0] != '\r' {
      WholeCrLf(s[1..]);
    }
  }

  /** A limit cuts lines but loses nothing: the next call goes on where the limit cut. */
  lemma LimitedThenRest(separator: string, s: string, maxChars: int)
    requires maxChars > 0 && s != ""
    ensures var line := LineOf(separator, s, maxChars);
      && 0 < |line| <= maxChars
      && (|line| < maxChars && line != s ==> NewlineEnd(separator, line) == Some(|line|))
  {
    var w := Window(s, maxChars);
    if NewlineEnd(separator, w).Some? {
      LineEndsAtNewline(separator, w);
    }
  }
}
