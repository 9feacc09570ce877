/** apply_hunks of cmake/ios/apply_sdl2_scene_patch.py: a running-offset splice, compared with
    replacing all old sides at once in original coordinates. */
module Hunks {
  import opened Results

  type Line = string

  /** One hunk line: its sign and its text. */
  datatype HunkLine = Context(text: Line) | Removed(text: Line) | Added(text: Line)

  datatype Hunk = Hunk(oldStart: int, lines: seq<HunkLine>)

  /** The lines a hunk expects: those not added. */
  function OldSide(ls: seq<HunkLine>): seq<Line> {
    if ls == [] then [] else (if ls[0].Added? then [] else [ls[0].text]) + OldSide(ls[1..])
  }

  function NewSide(ls: seq<HunkLine>): seq<Line> {
    if ls == [] then [] else (if ls[0].Removed? then [] else [ls[0].text]) + NewSide(ls[1..])
  }

  /** A Python slice with a non-negative start: clamped to the list. */
  function Slice(lines: seq<Line>, start: nat, end: nat): seq<Line>
    requires start <= end
  {
    lines[if start <= |lines| then start else |lines|..if end <= |lines| then end else |lines|]
  }

  /** Slice assignment, with the same clamping. */
  function Splice(lines: seq<Line>, start: nat, end: nat, replacement: seq<Line>): seq<Line>
    requires start <= end
  {
    lines[..if start <= |lines| then start else |lines|] + replacement + lines[if end <= |lines| then end else |lines|..]
  }

  /** Zero-based position of a hunk in the original file. */
  function Position(h: Hunk): int { h.oldStart - 1 }

  function Width(h: Hunk): nat { |OldSide(h.lines)| }

  function Growth(h: Hunk): int { |NewSide(h.lines)| - |OldSide(h.lines)| }

  /** One hunk at a given position of the current file. */
  function ApplyOne(lines: seq<Line>, start: int, h: Hunk): Result<seq<Line>> {
    if start < 0 || Slice(lines, start, start + Width(h)) != OldSide(h.lines) then ContractError
    else Ok(Splice(lines, start, start + Width(h), NewSide(h.lines)))
  }

  /** The remaining hunks applied one after the other to an already shifted file. */
  function Running(lines: seq<Line>, offset: int, hunks: seq<Hunk>): Result<seq<Line>>
    decreases |hunks|
  {
    if hunks == [] then Ok(lines)
    else
      match ApplyOne(lines, Position(hunks[0]) + offset, hunks[0])
      case ContractError => ContractError
      case Ok(next) => Running(next, offset + Growth(hunks[0]), hunks[1..])
  }

  method ApplyHunks(current: seq<Line>, hunks: seq<Hunk>) returns (r: Result<seq<Line>>)
    ensures r == Running(current, 0, hunks)
  {
    hide Slice, Splice, OldSide, NewSide;
    var lines, offset := current, 0;
    for i := 0 to |hunks|
      invariant Running(current, 0, hunks) == Running(lines, offset, hunks[i..])
    {
      var hunk := hunks[i];
      ghost var rest := hunks[i..];
      assert rest[0] == hunk && rest[1..] == hunks[i + 1..];
      var start := hunk.oldStart - 1 + offset;
      var expected, replacement := OldSide(hunk.lines), NewSide(hunk.lines);
      assert |expected| == Width(hunk) && offset + |replacement| - |expected| == offset + Growth(hunk);
      if start < 0 || Slice(lines, start, start + |expected|) != expected {
        assert ApplyOne(lines, Position(hunk) + offset, hunk) == ContractError;
        return ContractError;
      }
      assert ApplyOne(lines, Position(hunk) + offset, hunk) == Ok(Splice(lines, start, start + |expected|, replacement));
      lines := Splice(lines, start, start + |expected|, replacement);
      offset := offset + |replacement| - |expected|;
    }
    return Ok(lines);
  }

  // ------------------------------------------------------ the simultaneous meaning

  /** Ascending, non-overlapping hunks, from position `at` on. */
  predicate Ascending(hunks: seq<Hunk>, at: int) {
    hunks != [] ==> at <= Position(hunks[0]) && Ascending(hunks[1..], Position(hunks[0]) + Width(hunks[0]))
  }

  /** An insertion behind the end of the n lines, or behind `at` if that is further, goes there:
      a slice behind the end is empty. */
  function Clamp(n: nat, at: int, h: Hunk): Hunk {
    var last := if at < n then n else at;
    if OldSide(h.lines) == [] && last < Position(h) then h.(oldStart := last + 1) else h
  }

  /** The hunks where they act, each behind the one before. */
  function Placed(n: nat, at: int, hunks: seq<Hunk>): seq<Hunk>
    decreases |hunks|
  {
    if hunks == [] then []
    else
      var h := Clamp(n, at, hunks[0]);
      [h] + Placed(n, Position(h) + Width(h), hunks[1..])
  }

  /** The hunk's old side is what the original file has at its position. */
  predicate Occurs(lines: seq<Line>, h: Hunk) {
    0 <= Position(h) && Position(h) + Width(h) <= |lines| &&
    lines[Position(h)..Position(h) + Width(h)] == OldSide(h.lines)
  }

  predicate AllOccur(lines: seq<Line>, hunks: seq<Hunk>) {
    forall k :: 0 <= k < |hunks| ==> Occurs(lines, hunks[k])
  }

  /** The original file from `at` on with every old side replaced by its new side. */
  function Simultaneous(lines: seq<Line>, at: nat, hunks: seq<Hunk>): seq<Line>
    requires at <= |lines| && Ascending(hunks, at) && AllOccur(lines, hunks)
    decreases |hunks|
  {
    if hunks == [] then lines[at..]
    else
      var h := hunks[0];
      assert Occurs(lines, h);
      assert AllOccur(lines, hunks[1..]);
      lines[at..Position(h)] + NewSide(h.lines) + Simultaneous(lines, Position(h) + Width(h), hunks[1..])
  }

  /** Splicing behind an untouched prefix `p`. */
  lemma ShiftedSplice(p: seq<Line>, lines: seq<Line>, at: nat, s: nat, n: nat, replacement: seq<Line>)
    requires at <= s && s + n <= |lines|
    ensures var start := |p| + (s - at); var cur := p + lines[at..];
      && Slice(cur, start, start + n) == lines[s..s + n]
      && Splice(cur, start, start + n, replacement) == (p + lines[at..s] + replacement) + lines[s + n..]
  {
    var start, cur := |p| + (s - at), p + lines[at..];
    assert start + n <= |cur|;
    assert cur[..start] == p + lines[at..s];
    assert cur[start + n..] == lines[s + n..];
    assert cur[start..start + n] == lines[s..s + n];
  }

  lemma ShortSlice(p: seq<Line>, lines: seq<Line>, at: nat, s: nat, n: nat)
    requires at <= s && at <= |lines| && |lines| < s + n && 0 < n
    ensures |Slice(p + lines[at..], |p| + (s - at), |p| + (s - at) + n)| < n
  {}

  /** A hunk that occurs moves the boundary past its old side. */
  lemma OneApplies(p: seq<Line>, lines: seq<Line>, at: nat, start: int, h: Hunk)
    requires at <= Position(h) && start == |p| + (Position(h) - at) && Occurs(lines, h)
    ensures ApplyOne(p + lines[at..], start, h) ==
      Ok(p + lines[at..Position(h)] + NewSide(h.lines) + lines[Position(h) + Width(h)..])
  {
    ShiftedSplice(p, lines, at, Position(h), Width(h), NewSide(h.lines));
    hide Slice, Splice, OldSide, NewSide;
  }

  lemma RunOne(p: seq<Line>, lines: seq<Line>, at: nat, offset: int, hunks: seq<Hunk>, p': seq<Line>, e: nat, offset': int)
    requires hunks != [] && at <= |lines| && |p| == at + offset && at <= Position(hunks[0]) && Occurs(lines, hunks[0])
    requires e == Position(hunks[0]) + Width(hunks[0]) <= |lines| && offset' == offset + Growth(hunks[0])
    requires p' == p + lines[at..Position(hunks[0])] + NewSide(hunks[0].lines)
    ensures Running(p + lines[at..], offset, hunks) == Running(p' + lines[e..], offset', hunks[1..])
  {
    hide ApplyOne, Slice, Splice, OldSide, NewSide, Occurs;
    var cur, start := p + lines[at..], Position(hunks[0]) + offset;
    OneApplies(p, lines, at, start, hunks[0]);
    assert ApplyOne(cur, Position(hunks[0]) + offset, hunks[0]) == Ok(p' + lines[e..]);
  }

  /** A hunk whose old side is elsewhere is refused. */
  lemma OneFails(p: seq<Line>, lines: seq<Line>, at: nat, start: int, h: Hunk)
    requires at <= |lines| && at <= Position(h) && start == |p| + (Position(h) - at) && !Occurs(lines, h) && (OldSide(h.lines) == [] ==> Position(h) <= |lines|)
    ensures ApplyOne(p + lines[at..], start, h) == ContractError
  {
    var s, n := Position(h), Width(h);
    if s + n <= |lines| {
      ShiftedSplice(p, lines, at, s, n, []);
    } else {
      ShortSlice(p, lines, at, s, n);
    }
    hide Slice, Splice, NewSide;
  }

  lemma Associate(p: seq<Line>, a: seq<Line>, b: seq<Line>, c: seq<Line>)
    ensures p + (a + b + c) == (p + a + b) + c
  {}

  /** The simultaneous replacement, one hunk at a time. */
  lemma Cons(r: seq<Line>, at: nat, hunks: seq<Hunk>, s: nat, e: nat)
    requires hunks != [] && at <= s == Position(hunks[0]) && e == s + Width(hunks[0]) && Occurs(r, hunks[0])
    requires Ascending(hunks[1..], e) && AllOccur(r, hunks[1..])
    ensures Ascending(hunks, at) && AllOccur(r, hunks)
    ensures Simultaneous(r, at, hunks) == r[at..s] + NewSide(hunks[0].lines) + Simultaneous(r, e, hunks[1..])
  {
    SplitOccur(r, hunks);
  }

  lemma SimultaneousStep(p: seq<Line>, lines: seq<Line>, at: nat, hunks: seq<Hunk>, p': seq<Line>, s: nat, e: nat)
    requires hunks != [] && at <= |lines| && Ascending(hunks, at) && AllOccur(lines, hunks) && Occurs(lines, hunks[0])
    requires s == Position(hunks[0]) && e == s + Width(hunks[0]) && p' == p + lines[at..s] + NewSide(hunks[0].lines)
    ensures AllOccur(lines, hunks[1..]) && Ascending(hunks[1..], e)
    ensures p + Simultaneous(lines, at, hunks) == p' + Simultaneous(lines, e, hunks[1..])
  {
    SplitOccur(lines, hunks);
    assert Ascending(hunks[1..], e);
    hide OldSide, NewSide, AllOccur, Simultaneous, Occurs, Ascending;
    Cons(lines, at, hunks, s, e);
    Associate(p, lines[at..s], NewSide(hunks[0].lines), Simultaneous(lines, e, hunks[1..]));
  }

  /** The state after some hunks: a rewritten prefix, then the original file from `at` on. */
  lemma {:induction false} RunningIsSimultaneous(p: seq<Line>, lines: seq<Line>, at: nat, offset: int, hunks: seq<Hunk>)
    requires at <= |lines| && |p| == at + offset && Ascending(hunks, at) && AllOccur(lines, hunks)
    ensures Running(p + lines[at..], offset, hunks) == Ok(p + Simultaneous(lines, at, hunks))
    decreases |hunks|
  {
    hide OldSide, NewSide, ApplyOne;
    if hunks != [] {
      var h, rest := hunks[0], hunks[1..];
      SplitOccur(lines, hunks);
      OldSideAt(lines, h);
      var s, e, offset' := Position(h), Position(h) + Width(h), offset + Growth(h);
      var p' := p + lines[at..s] + NewSide(h.lines);
      RunOne(p, lines, at, offset, hunks, p', e, offset');
      assert |p'| == e + offset';
      hide Running, Simultaneous, Occurs, AllOccur;
      RunningIsSimultaneous(p', lines, e, offset', rest);
      SimultaneousStep(p, lines, at, hunks, p', s, e);
    }
  }

  lemma {:induction false} RunningRefused(p: seq<Line>, lines: seq<Line>, at: nat, offset: int, hunks: seq<Hunk>)
    requires at <= |lines| && |p| == at + offset && Ascending(hunks, at) && hunks == Placed(|lines|, at, hunks) && !AllOccur(lines, hunks)
    ensures Running(p + lines[at..], offset, hunks) == ContractError
    decreases |hunks|
  {
    hide NewSide, ApplyOne, Occurs, Width;
    var h, rest := hunks[0], hunks[1..];
    SplitOccur(lines, hunks);
    PlacedStep(|lines|, at, hunks);
    if Occurs(lines, h) {
      OldSideAt(lines, h);
      var e, offset' := Position(h) + Width(h), offset + Growth(h);
      var p' := p + lines[at..Position(h)] + NewSide(h.lines);
      assert |p'| == e + offset' by { WidthIs(h); }
      RunOne(p, lines, at, offset, hunks, p', e, offset');
      hide Running, AllOccur, Placed, Clamp, OldSide, Growth;
      RunningRefused(p', lines, e, offset', rest);
    } else {
      hide Placed, AllOccur;
      OneFails(p, lines, at, Position(h) + offset, h);
    }
  }

  lemma WidthIs(h: Hunk)
    ensures Growth(h) == |NewSide(h.lines)| - Width(h)
  {}

  lemma SplitOccur(lines: seq<Line>, hunks: seq<Hunk>)
    requires hunks != []
    ensures AllOccur(lines, hunks) <==> Occurs(lines, hunks[0]) && AllOccur(lines, hunks[1..])
  {
    hide Occurs;
    forall k | 0 <= k < |hunks| ensures hunks[k] == if k == 0 then hunks[0] else hunks[1..][k - 1] {}
  }

  lemma ClampedOne(current: seq<Line>, n: nat, at: int, offset: int, h: Hunk)
    requires |current| == n + offset
    ensures ApplyOne(current, Position(h) + offset, h) == ApplyOne(current, Position(Clamp(n, at, h)) + offset, Clamp(n, at, h))
    ensures ApplyOne(current, Position(h) + offset, h).Ok? ==> |ApplyOne(current, Position(h) + offset, h).value| == |current| + Growth(h)
  {}

  lemma PlacedStep(n: nat, at: int, hunks: seq<Hunk>)
    requires hunks != []
    ensures var c, placed := Clamp(n, at, hunks[0]), Placed(n, at, hunks);
      placed != [] && placed[0] == c && placed[1..] == Placed(n, Position(c) + Width(c), hunks[1..]) && Growth(c) == Growth(hunks[0])
  {
    hide OldSide, NewSide;
  }

  lemma {:induction false} PlacedRuns(current: seq<Line>, n: nat, at: int, offset: int, hunks: seq<Hunk>)
    requires |current| == n + offset
    ensures Running(current, offset, hunks) == Running(current, offset, Placed(n, at, hunks))
    decreases |hunks|
  {
    hide ApplyOne, Growth, Clamp, Width, Position;
    if hunks != [] {
      var h, c := hunks[0], Clamp(n, at, hunks[0]);
      ClampedOne(current, n, at, offset, h);
      PlacedStep(n, at, hunks);
      hide Placed;
      var next := ApplyOne(current, Position(h) + offset, h);
      if next.Ok? { PlacedRuns(next.value, n, Position(c) + Width(c), offset + Growth(h), hunks[1..]); }
    }
  }

  lemma ClampShape(n: nat, at: int, h: Hunk)
    requires at <= Position(h)
    ensures var c := Clamp(n, at, h); at <= Position(c) <= Position(h) && Width(c) == Width(h) && Clamp(n, at, c) == c
  {
    hide OldSide;
  }

  lemma {:induction false} PlacedShape(n: nat, at: int, hunks: seq<Hunk>)
    requires Ascending(hunks, at)
    ensures var placed := Placed(n, at, hunks); Ascending(placed, at) && Placed(n, at, placed) == placed
    decreases |hunks|
  {
    hide Clamp, Position, Width, Growth, OldSide, NewSide;
    if hunks != [] {
      var h, rest, c, placed := hunks[0], hunks[1..], Clamp(n, at, hunks[0]), Placed(n, at, hunks);
      ClampShape(n, at, h);
      AscendingFrom(rest, Position(h) + Width(h), Position(c) + Width(c));
      PlacedShape(n, Position(c) + Width(c), rest);
      PlacedStep(n, at, hunks);
      assert Placed(n, at, placed) == [c] + placed[1..] == placed;
    }
  }

  lemma AscendingFrom(hunks: seq<Hunk>, at: int, at': int)
    requires Ascending(hunks, at) && at' <= at
    ensures Ascending(hunks, at')
  {}

  /** For ascending, non-overlapping hunks, insertions behind the end counting as ones at it: the
      splice succeeds if and only if the first is not before the start of the file and every old
      side occurs at its original position, and then it is the simultaneous replacement. */
  lemma SpliceIsSimultaneous(lines: seq<Line>, hunks: seq<Hunk>)
    requires Ascending(hunks, if hunks == [] then 0 else Position(hunks[0]))
    ensures var placed := Placed(|lines|, 0, hunks);
      && (Running(lines, 0, hunks).Ok? <==> AllOccur(lines, placed))
      && (AllOccur(lines, placed) ==> Ascending(placed, 0) && Running(lines, 0, hunks) == Ok(Simultaneous(lines, 0, placed)))
  {
    var placed := Placed(|lines|, 0, hunks);
    PlacedRuns(lines, |lines|, 0, 0, hunks);
    if hunks != [] && Position(hunks[0]) < 0 {
      assert placed[0] == hunks[0];
      assert !Occurs(lines, placed[0]);
    } else {
      assert Ascending(hunks, 0);
      PlacedShape(|lines|, 0, hunks);
      assert [] + lines[0..] == lines;
      if AllOccur(lines, placed) {
        RunningIsSimultaneous([], lines, 0, 0, placed);
        assert [] + Simultaneous(lines, 0, placed) == Simultaneous(lines, 0, placed);
      } else {
        RunningRefused([], lines, 0, 0, placed);
      }
    }
  }

  // ------------------------------------------------------------------ undoing

  function Reverse(l: HunkLine): HunkLine {
    match l
    case Context(t) => Context(t)
    case Removed(t) => Added(t)
    case Added(t) => Removed(t)
  }

  function ReverseLines(ls: seq<HunkLine>): seq<HunkLine> {
    if ls == [] then [] else [Reverse(ls[0])] + ReverseLines(ls[1..])
  }

  /** The hunks with their signs swapped, placed in the patched file's coordinates. */
  function ReverseHunks(hunks: seq<Hunk>, offset: int): seq<Hunk> {
    if hunks == [] then []
    else [Hunk(hunks[0].oldStart + offset, ReverseLines(hunks[0].lines))] + ReverseHunks(hunks[1..], offset + Growth(hunks[0]))
  }

  lemma {:induction false} SidesSwap(ls: seq<HunkLine>)
    ensures OldSide(ReverseLines(ls)) == NewSide(ls) && NewSide(ReverseLines(ls)) == OldSide(ls)
  {
    if ls != [] {
      assert ReverseLines(ls)[1..] == ReverseLines(ls[1..]);
      SidesSwap(ls[1..]);
    }
  }

  lemma Rejoin(lines: seq<Line>, at: nat, s: nat, e: nat)
    requires at <= s <= e <= |lines|
    ensures lines[at..s] + lines[s..e] + lines[e..] == lines[at..]
  {}

  /** The reversed hunk sits, in the patched file, where its new side was put. */
  lemma ReversedHunk(p: seq<Line>, kept: seq<Line>, h: Hunk, tail: seq<Line>, offset: int, r: seq<Line>)
    requires r == p + kept + NewSide(h.lines) + tail && |p| + |kept| == Position(h) + offset
    ensures var b := Hunk(h.oldStart + offset, ReverseLines(h.lines));
      && Position(b) == |p| + |kept| && Width(b) == |NewSide(h.lines)| && NewSide(b.lines) == OldSide(h.lines)
      && Occurs(r, b) && r[|p|..Position(b)] == kept
  {
    SidesSwap(h.lines);
    hide OldSide, NewSide, ReverseLines;
    var from := |p| + |kept|;
    assert r[from..from + |NewSide(h.lines)|] == NewSide(h.lines);
  }

  lemma ReversedStep(r: seq<Line>, start: nat, back: seq<Hunk>, end: nat, lines: seq<Line>, at: nat, s: nat, e: nat)
    requires back != [] && Occurs(r, back[0]) && start <= Position(back[0]) <= |r| && end == Position(back[0]) + Width(back[0]) <= |r|
    requires Ascending(back[1..], end) && AllOccur(r, back[1..]) && at <= s <= e <= |lines|
    requires Simultaneous(r, end, back[1..]) == lines[e..] && NewSide(back[0].lines) == lines[s..e]
    requires r[start..Position(back[0])] == lines[at..s]
    ensures Ascending(back, start) && AllOccur(r, back) && Simultaneous(r, start, back) == lines[at..]
  {
    hide OldSide, NewSide, Simultaneous, Occurs, AllOccur, Ascending;
    Cons(r, start, back, Position(back[0]), end);
    Rejoin(lines, at, s, e);
  }

  /** Behind any prefix, the reversed hunks occur in the patched file and turn it back. */
  lemma {:induction false} ReversedOccur(p: seq<Line>, lines: seq<Line>, at: nat, offset: int, hunks: seq<Hunk>)
    requires at <= |lines| && |p| == at + offset && Ascending(hunks, at) && AllOccur(lines, hunks)
    ensures var r, back := p + Simultaneous(lines, at, hunks), ReverseHunks(hunks, offset);
      Ascending(back, |p|) && AllOccur(r, back) && Simultaneous(r, |p|, back) == lines[at..]
    decreases |hunks|
  {
    hide OldSide, NewSide, ReverseLines, Placed, Clamp, Running;
    var r, back := p + Simultaneous(lines, at, hunks), ReverseHunks(hunks, offset);
    if hunks == [] {
      assert r[|p|..] == lines[at..];
    } else {
      var h, rest := hunks[0], hunks[1..];
      assert Occurs(lines, h);
      OldSideAt(lines, h);
      var s, e := Position(h), Position(h) + Width(h);
      var p' := p + lines[at..s] + NewSide(h.lines);
      var end := |p'|;
      SimultaneousStep(p, lines, at, hunks, p', s, e);
      var tail := Simultaneous(lines, e, rest);
      ReversedHunk(p, lines[at..s], h, tail, offset, r);
      hide Simultaneous, Occurs, AllOccur, Ascending;
      ReversedOccur(p', lines, e, offset + Growth(h), rest);
      var b := Hunk(h.oldStart + offset, ReverseLines(h.lines));
      assert back == [b] + ReverseHunks(rest, offset + Growth(h));
      assert back != [] && back[0] == b && back[1..] == ReverseHunks(rest, offset + Growth(h));
      hide ReverseHunks, Position, Width;
      ReversedStep(r, |p|, back, end, lines, at, s, e);
    }
  }

  lemma OldSideAt(lines: seq<Line>, h: Hunk)
    requires Occurs(lines, h)
    ensures 0 <= Position(h) && Position(h) + Width(h) <= |lines| && lines[Position(h)..Position(h) + Width(h)] == OldSide(h.lines)
  {}

  /** Applying the reversed hunks to the patched file gives the original file back. */
  lemma {:induction false} ReverseRestores(lines: seq<Line>, hunks: seq<Hunk>)
    requires Ascending(hunks, if hunks == [] then 0 else Position(hunks[0])) && Running(lines, 0, hunks).Ok?
    ensures Running(Running(lines, 0, hunks).value, 0, ReverseHunks(Placed(|lines|, 0, hunks), 0)) == Ok(lines)
  {
    var placed := Placed(|lines|, 0, hunks);
    SpliceIsSimultaneous(lines, hunks);
    ReversedOccur([], lines, 0, 0, placed);
    var r, back := Simultaneous(lines, 0, placed), ReverseHunks(placed, 0);
    assert [] + r == r && [] + r[0..] == r;
    RunningIsSimultaneous([], r, 0, 0, back);
    assert lines[0..] == lines && [] + lines == lines;
  }
}
