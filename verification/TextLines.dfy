/** Texts and their lines: Path.read_text with universal newlines and str.splitlines with
    keepends, as the patch applier uses them. */
module TextLines {
  import opened Hunks

  /** The characters str.splitlines ends a line at. */
  predicate Boundary(c: char) {
    || c == '\n' || c == '\r' || c == '\U{000B}' || c == '\U{000C}' || c == '\U{001C}' || c == '\U{001D}' || c == '\U{001E}'
    || c == '\U{0085}' || c == '\U{2028}' || c == '\U{2029}'
  }

  /** Length of the first line, with its boundary. */
  function FirstLine(s: string): (n: nat)
    requires s != ""
    ensures 0 < n <= |s|
  {
    if Boundary(s[0]) then if s[0] == '\r' && |s| > 1 && s[1] == '\n' then 2 else 1
    else if |s| == 1 then 1
    else 1 + FirstLine(s[1..])
  }

  /** str.splitlines(keepends=True) */
  function SplitLines(s: string): seq<Line> {
    if s == "" then [] else [s[..FirstLine(s)]] + SplitLines(s[FirstLine(s)..])
  }

  /** "".join */
  function Join(lines: seq<Line>): string {
    if lines == [] then "" else lines[0] + Join(lines[1..])
  }

  /** Reading in text mode. */
  function UniversalNewlines(s: string): string {
    if s == "" then ""
    else if s[0] == '\r' then "\n" + UniversalNewlines(if |s| > 1 && s[1] == '\n' then s[2..] else s[1..])
    else [s[0]] + UniversalNewlines(s[1..])
  }

  /** The lines parse_patch works on. */
  function PatchLines(text: string): seq<Line> { SplitLines(UniversalNewlines(text)) }

  lemma JoinOne(first: Line, rest: seq<Line>)
    ensures Join([first] + rest) == first + Join(rest)
  {
    assert ([first] + rest)[1..] == rest;
  }

  lemma {:induction false} SplitJoins(s: string)
    ensures Join(SplitLines(s)) == s
  {
    hide FirstLine, Boundary;
    if s != "" {
      var n := FirstLine(s);
      SplitJoins(s[n..]);
      JoinOne(s[..n], SplitLines(s[n..]));
      assert s[..n] + s[n..] == s;
    }
  }

  // -------------------------------------------------------- lines that stay lines

  predicate NoReturn(s: string) { forall i :: 0 <= i < |s| ==> s[i] != '\r' }

  /** Not empty, no carriage return, and no boundary before the last character. */
  predicate Clean(l: Line) {
    l != "" && NoReturn(l) && forall i :: 0 <= i < |l| - 1 ==> !Boundary(l[i])
  }

  predicate Ended(l: Line) { l != "" && Boundary(l[|l| - 1]) }

  predicate Kept(lines: seq<Line>) {
    (forall i :: 0 <= i < |lines| ==> Clean(lines[i])) && forall i :: 0 <= i < |lines| - 1 ==> Ended(lines[i])
  }

  lemma {:induction false} ReturnsGone(s: string)
    ensures NoReturn(UniversalNewlines(s))
    decreases |s|
  {
    if s != "" {
      if s[0] == '\r' {
        ReturnsGone(if |s| > 1 && s[1] == '\n' then s[2..] else s[1..]);
      } else {
        ReturnsGone(s[1..]);
      }
    }
  }

  lemma {:induction false} NothingTranslated(s: string)
    requires NoReturn(s)
    ensures UniversalNewlines(s) == s
  {
    if s != "" {
      assert forall i :: 0 <= i < |s[1..]| ==> s[1..][i] == s[i + 1];
      NothingTranslated(s[1..]);
      assert [s[0]] + s[1..] == s;
    }
  }

  /** The first line ends at the first boundary. */
  lemma {:induction false} FirstLineShape(s: string)
    requires s != "" && NoReturn(s)
    ensures forall i :: 0 <= i < FirstLine(s) - 1 ==> !Boundary(s[i])
    ensures FirstLine(s) < |s| ==> Boundary(s[FirstLine(s) - 1])
  {
    if !Boundary(s[0]) && |s| > 1 {
      assert forall i :: 0 <= i < |s[1..]| ==> s[1..][i] == s[i + 1];
      FirstLineShape(s[1..]);
      forall i | 0 <= i < FirstLine(s) - 1 ensures !Boundary(s[i]) {
        if i > 0 { assert s[i] == s[1..][i - 1]; }
      }
    }
    hide Boundary;
  }

  lemma {:induction false} FirstLineFound(s: string, n: nat)
    requires 0 < n <= |s| && NoReturn(s) && (forall i :: 0 <= i < n - 1 ==> !Boundary(s[i])) && (n < |s| ==> Boundary(s[n - 1]))
    ensures FirstLine(s) == n
    decreases n
  {
    if n > 1 {
      assert forall i :: 0 <= i < |s[1..]| ==> s[1..][i] == s[i + 1];
      FirstLineFound(s[1..], n - 1);
    }
    hide Boundary;
  }

  lemma {:induction false} SplitIsKept(s: string)
    requires NoReturn(s)
    ensures Kept(SplitLines(s))
  {
    if s != "" {
      var n := FirstLine(s);
      var rest := SplitLines(s[n..]);
      FirstLineShape(s);
      assert forall i :: 0 <= i < |s[n..]| ==> s[n..][i] == s[i + n];
      SplitIsKept(s[n..]);
      var first := s[..n];
      assert forall i :: 0 <= i < n ==> first[i] == s[i];
      assert Clean(first) && (rest != [] ==> Ended(first));
      KeptPrepends(first, rest);
    }
  }

  lemma KeptPrepends(first: Line, rest: seq<Line>)
    requires Clean(first) && Kept(rest) && (rest != [] ==> Ended(first))
    ensures Kept([first] + rest)
  {
    var lines := [first] + rest;
    assert forall i :: 0 <= i < |lines| ==> lines[i] == if i == 0 then first else rest[i - 1];
    hide Clean, Ended;
  }

  lemma KeptTail(lines: seq<Line>)
    requires lines != [] && Kept(lines)
    ensures Clean(lines[0]) && Kept(lines[1..]) && (|lines| > 1 ==> Ended(lines[0]))
  {
    assert forall i :: 0 <= i < |lines| - 1 ==> lines[1..][i] == lines[i + 1];
    hide Clean, Ended;
  }

  lemma {:induction false} KeptJoin(lines: seq<Line>)
    requires Kept(lines)
    ensures NoReturn(Join(lines)) && SplitLines(Join(lines)) == lines
  {
    if lines != [] {
      var first, rest := lines[0], Join(lines[1..]);
      KeptTail(lines);
      KeptJoin(lines[1..]);
      var s := Join(lines);
      assert s == first + rest;
      assert forall i :: 0 <= i < |s| ==> s[i] == if i < |first| then first[i] else rest[i - |first|];
      assert rest != "" ==> |lines| > 1;
      FirstLineFound(s, |first|);
      assert s[..|first|] == first && s[|first|..] == rest;
      assert [first] + lines[1..] == lines;
      hide Boundary, FirstLine;
    }
  }

  /** Lines joined to a text and read back: the same lines exactly when each is clean and each
      but the last is ended. */
  lemma LinesReadBackIff(lines: seq<Line>)
    ensures PatchLines(Join(lines)) == lines <==> Kept(lines)
  {
    if Kept(lines) {
      KeptJoin(lines);
      NothingTranslated(Join(lines));
    }
    ReturnsGone(Join(lines));
    SplitIsKept(UniversalNewlines(Join(lines)));
    hide Kept;
  }

  lemma PatchLinesKept(text: string)
    ensures Kept(PatchLines(text))
  {
    ReturnsGone(text);
    SplitIsKept(UniversalNewlines(text));
    hide Kept;
  }

  // --------------------------------------------------- texts with carriage returns

  /** No boundary before the end, except the carriage return of a final "\r\n". */
  predicate OneLine(l: Line) {
    l != "" && forall i :: 0 <= i < |l| - 1 && Boundary(l[i]) ==> i == |l| - 2 && l[i] == '\r' && l[i + 1] == '\n'
  }

  /** A line ends before this rest of the text: at a boundary that is not half of "\r\n". */
  predicate EndsBefore(l: Line, rest: string) {
    l != "" && (rest != "" ==> Boundary(l[|l| - 1]) && !(l[|l| - 1] == '\r' && rest[0] == '\n'))
  }

  ghost predicate Lines(lines: seq<Line>) {
    lines != [] ==> OneLine(lines[0]) && EndsBefore(lines[0], Join(lines[1..])) && Lines(lines[1..])
  }

  lemma {:induction false} FirstLineIff(s: string, n: nat)
    requires 0 < n <= |s|
    ensures FirstLine(s) == n <==> OneLine(s[..n]) && EndsBefore(s[..n], s[n..])
    decreases n
  {
    var l := s[..n];
    if Boundary(s[0]) {
      assert n > 1 ==> l[0] == s[0] && l[1] == s[1];
      assert n < |s| ==> s[n..][0] == s[n];
    } else if n > 1 {
      var rest := s[1..][..n - 1];
      FirstLineIff(s[1..], n - 1);
      assert forall i :: 0 <= i < n - 1 ==> rest[i] == l[i + 1];
      assert s[1..][n - 1..] == s[n..];
      assert OneLine(rest) <==> OneLine(l) by { OneLineTail(l, rest); }
    }
    hide Boundary, OneLine;
  }

  lemma OneLineTail(l: Line, rest: Line)
    requires |l| == |rest| + 1 && rest != "" && (forall i :: 0 <= i < |rest| ==> rest[i] == l[i + 1]) && !Boundary(l[0])
    ensures OneLine(rest) <==> OneLine(l)
  {
    hide Boundary;
    if OneLine(rest) {
      forall i | 0 <= i < |l| - 1 && Boundary(l[i]) ensures i == |l| - 2 && l[i] == '\r' && l[i + 1] == '\n' {
        assert rest[i - 1] == l[i] && rest[i] == l[i + 1];
      }
    }
  }

  /** str.splitlines gives the one way to cut a text into lines. */
  lemma {:induction false} SplitLinesIff(s: string, lines: seq<Line>)
    ensures SplitLines(s) == lines <==> Join(lines) == s && Lines(lines)
    decreases |s|
  {
    hide OneLine, EndsBefore, FirstLine;
    if s != "" {
      var n := FirstLine(s);
      FirstLineIff(s, n);
      SplitLinesIff(s[n..], SplitLines(s[n..]));
      JoinOne(s[..n], SplitLines(s[n..]));
      assert s == s[..n] + s[n..];
      if Join(lines) == s && Lines(lines) {
        var l, rest := lines[0], Join(lines[1..]);
        assert l != "" by { NotEmpty(l, rest); }
        assert s == l + rest && s[..|l|] == l && s[|l|..] == rest;
        FirstLineIff(s, |l|);
        SplitLinesIff(rest, lines[1..]);
        assert lines == [l] + lines[1..];
      }
    } else if lines != [] && Lines(lines) {
      NotEmpty(lines[0], Join(lines[1..]));
    }
  }

  lemma NotEmpty(l: Line, rest: string)
    requires EndsBefore(l, rest)
    ensures l != ""
  {}

  /** Universal newlines, piece by piece: "\r\n" and a lone "\r" become "\n". */
  lemma {:induction false} UniversalPieces(a: string, b: string)
    requires a != "" && b != "" ==> !(a[|a| - 1] == '\r' && b[0] == '\n')
    ensures UniversalNewlines(a + b) == UniversalNewlines(a) + UniversalNewlines(b)
    decreases |a|
  {
    if a == "" {
      assert a + b == b;
    } else {
      var k := if a[0] == '\r' && |a| > 1 && a[1] == '\n' then 2 else 1;
      assert (a + b)[k..] == a[k..] + b;
      UniversalPieces(a[k..], b);
    }
  }

  lemma UniversalUnits(c: char)
    ensures UniversalNewlines("\r\n") == "\n" && UniversalNewlines([c]) == if c == '\r' then "\n" else [c]
  {
    assert "\r\n"[2..] == "" && [c][1..] == "";
  }
}
