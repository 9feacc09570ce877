/** Which texts parse_patch of cmake/ios/apply_sdl2_scene_patch.py reads, and as what: a grammar
    of patches, against the line-by-line reading of module PatchFile. */
module PatchGrammar {
  import opened Hunks
  import opened Options
  import opened PatchFile
  import opened Results
  import opened TextLines

  /** A section as it stands in the patch: its two path lines, and its hunks with their header
      lines. */
  datatype SectionText = SectionText(oldLine: Line, newLine: Line, relative: string, hunks: seq<PatchHunk>)

  function Newlines(k: nat): string { seq(k, _ => '\n') }

  /** The prefix, the path, and newlines only. */
  ghost predicate PathLine(line: Line, prefix: string, relative: string) {
    relative != "" && relative[|relative| - 1] != '\n' && exists k: nat :: line == prefix + relative + Newlines(k)
  }

  /** The hunk's header line gives its position and the sizes of its two sides, and none of its
      removed lines reads as a file header. */
  ghost predicate HunkFits(header: Line -> Option<Header>, h: PatchHunk) {
    && header(h.headerLine) == Some(Header(h.hunk.oldStart, |OldSide(h.hunk.lines)|, |NewSide(h.hunk.lines)|))
    && forall l :: l in h.hunk.lines ==> !(l.Removed? && "-- " <= l.text)
  }

  /** One path under a/ and b/, and at least one hunk. */
  ghost predicate SectionFits(header: Line -> Option<Header>, t: SectionText) {
    && PathLine(t.oldLine, "--- a/", t.relative) && PathLine(t.newLine, "+++ b/", t.relative)
    && t.hunks != [] && forall h :: h in t.hunks ==> HunkFits(header, h)
  }

  /** Sections that fit, no path twice. */
  ghost predicate PatchFits(header: Line -> Option<Header>, ts: seq<SectionText>) {
    && (forall t :: t in ts ==> SectionFits(header, t))
    && forall i, j :: 0 <= i < j < |ts| ==> ts[i].relative != ts[j].relative
  }

  function Rendered(ts: seq<SectionText>): seq<Line> {
    if ts == [] then [] else [ts[0].oldLine, ts[0].newLine] + WriteHunks(ts[0].hunks) + Rendered(ts[1..])
  }

  function Meaning(ts: seq<SectionText>): seq<Section> {
    if ts == [] then [] else [Section(ts[0].relative, HunksOf(ts[0].hunks))] + Meaning(ts[1..])
  }

  /** The pattern is anchored: it only matches lines that start with "@@". */
  ghost predicate Anchored(header: Line -> Option<Header>) {
    forall l :: header(l).Some? ==> StartsWith(l, "@@")
  }

  // ------------------------------------------------------------------- path lines

  lemma {:induction false} StripEnds(s: string)
    ensures exists k: nat :: s == StripNewlines(s) + Newlines(k)
    ensures StripNewlines(s) != "" ==> StripNewlines(s)[|StripNewlines(s)| - 1] != '\n'
  {
    if s != "" && s[|s| - 1] == '\n' {
      StripEnds(s[..|s| - 1]);
      var k: nat :| s[..|s| - 1] == StripNewlines(s) + Newlines(k);
      assert s == s[..|s| - 1] + "\n" && Newlines(k + 1) == Newlines(k) + "\n";
      assert s == StripNewlines(s) + Newlines(k + 1);
    } else {
      assert s == s + Newlines(0);
    }
  }

  lemma {:induction false} StripMany(s: string, k: nat)
    requires s != "" && s[|s| - 1] != '\n'
    ensures StripNewlines(s + Newlines(k)) == s
  {
    var t := s + Newlines(k);
    if k == 0 {
      assert t == s;
    } else {
      assert t[..|t| - 1] == s + Newlines(k - 1);
      StripMany(s, k - 1);
    }
  }

  /** Which line gives the path after the stripped prefix. */
  lemma PathLineIff(line: Line, sign: string, side: string, relative: string)
    requires |sign| == 4 && |side| == 2
    ensures PathLine(line, sign + side, relative) <==>
      relative != "" && StartsWith(line, sign) && StripNewlines(line[4..]) == side + relative
  {
    if PathLine(line, sign + side, relative) {
      var k: nat :| line == sign + side + relative + Newlines(k);
      assert line[..4] == sign && line[4..] == (side + relative) + Newlines(k);
      StripMany(side + relative, k);
    }
    if relative != "" && StartsWith(line, sign) && StripNewlines(line[4..]) == side + relative {
      StripEnds(line[4..]);
      var k: nat :| line[4..] == side + relative + Newlines(k);
      assert (side + relative)[|side + relative| - 1] == relative[|relative| - 1];
      assert line == sign + side + relative + Newlines(k);
    }
  }

  lemma SideIff(path: string, side: string, relative: string)
    requires |side| == 2
    ensures path == side + relative <==> StartsWith(path, side) && path[2..] == relative
  {
    if StartsWith(path, side) { assert path == path[..2] + path[2..]; }
  }

  lemma ReadPathIff(lines: seq<Line>, relative: string)
    requires lines != []
    ensures ReadPath(lines) == Ok(relative) <==> |lines| >= 2 && PathLine(lines[0], "--- a/", relative) && PathLine(lines[1], "+++ b/", relative)
  {
    assert "--- " + "a/" == "--- a/" && "+++ " + "b/" == "+++ b/";
    hide PathLine, StripNewlines;
    PathLineIff(lines[0], "--- ", "a/", relative);
    if |lines| >= 2 && StartsWith(lines[0], "--- ") && StartsWith(lines[1], "+++ ") {
      SideIff(StripNewlines(lines[0][4..]), "a/", relative);
      SideIff(StripNewlines(lines[1][4..]), "b/", relative);
    }
    if |lines| >= 2 { PathLineIff(lines[1], "+++ ", "b/", relative); }
    hide StartsWith;
  }

  // ------------------------------------------------------------------------ hunks

  lemma ReadableIff(l: HunkLine)
    ensures Readable(l) <==> !(l.Removed? && "-- " <= l.text)
  {
    assert "-- " <= l.text <==> StartsWith(l.text, "-- ");
  }

  lemma FitsIff(header: Line -> Option<Header>, h: PatchHunk)
    requires Anchored(header)
    ensures HunkFits(header, h) <==> HeaderMatches(header, h) && forall l :: l in h.hunk.lines ==> Readable(l)
  {
    hide Readable, OldSide, NewSide, StartsWith;
    forall l | l in h.hunk.lines ensures Readable(l) <==> !(l.Removed? && "-- " <= l.text) { ReadableIff(l); }
  }

  lemma {:induction false} BodyReadable(lines: seq<Line>, ls: seq<HunkLine>, tail: seq<Line>)
    requires ReadBody(lines) == Ok((ls, tail))
    ensures forall l :: l in ls ==> Readable(l)
    ensures tail != [] ==> EndsHunk(tail[0])
    decreases |lines|
  {
    if lines != [] && !EndsHunk(lines[0]) {
      assert ls == [ReadHunkLine(lines[0])] + ls[1..] && ReadBody(lines[1..]) == Ok((ls[1..], tail));
      BodyReadable(lines[1..], ls[1..], tail);
      WriteReadLine(lines[0]);
      WrittenLine(ls[0]);
    }
    hide EndsHunk, ValidHunkLine, ReadHunkLine, WriteLine, Readable;
  }

  lemma HunkRead(header: Line -> Option<Header>, lines: seq<Line>, h: Hunk, rest: seq<Line>)
    requires Anchored(header) && lines != [] && ReadHunk(header, lines) == Ok((h, rest))
    ensures HunkFits(header, PatchHunk(lines[0], h)) && lines == [lines[0]] + WriteBody(h.lines) + rest
  {
    OneHunkFound(header, lines, h, rest);
    BodyReadable(lines[1..], h.lines, rest);
    FitsIff(header, PatchHunk(lines[0], h));
    hide ReadBody, Readable, WriteBody, OldSide, NewSide, StartsWith;
  }

  lemma {:induction false} HunksRead(header: Line -> Option<Header>, lines: seq<Line>, hunks: seq<Hunk>, tail: seq<Line>) returns (hs: seq<PatchHunk>)
    requires Anchored(header) && ReadHunks(header, lines) == Ok((hunks, tail))
    ensures HunksOf(hs) == hunks && lines == WriteHunks(hs) + tail && (forall h :: h in hs ==> HunkFits(header, h))
    ensures tail != [] ==> StartsWith(tail[0], "--- ")
    decreases |lines|
  {
    hide HunkFits, Anchored, ReadHunk, StartsWith, WriteBody;
    if lines == [] || StartsWith(lines[0], "--- ") {
      hs := [];
      assert lines == [] + tail;
    } else {
      var rest := ReadHunk(header, lines).value.1;
      HunkRead(header, lines, hunks[0], rest);
      var later := HunksRead(header, rest, hunks[1..], tail);
      hs := [PatchHunk(lines[0], hunks[0])] + later;
      assert hs[1..] == later;
      assert lines == [lines[0]] + WriteBody(hunks[0].lines) + (WriteHunks(later) + tail);
    }
  }

  // --------------------------------------------------------------------- sections

  /** ... and none that was seen before. */
  ghost predicate FitsAfter(header: Line -> Option<Header>, ts: seq<SectionText>, seen: set<string>) {
    PatchFits(header, ts) && forall t :: t in ts ==> t.relative !in seen
  }

  lemma FitsRest(header: Line -> Option<Header>, ts: seq<SectionText>, seen: set<string>)
    requires ts != []
    ensures FitsAfter(header, ts, seen) <==> SectionFits(header, ts[0]) && ts[0].relative !in seen && FitsAfter(header, ts[1..], seen + {ts[0].relative})
  {
    hide SectionFits;
    var rest := ts[1..];
    assert forall t :: t in ts <==> t == ts[0] || t in rest;
    assert forall i :: 0 <= i < |rest| ==> rest[i] == ts[i + 1] && rest[i] in rest;
    if FitsAfter(header, rest, seen + {ts[0].relative}) {
      forall i, j | 0 <= i < j < |ts| ensures ts[i].relative != ts[j].relative {
        assert ts[j] == rest[j - 1];
        if i > 0 { assert ts[i] == rest[i - 1]; }
      }
    }
  }

  lemma RenderedStart(header: Line -> Option<Header>, ts: seq<SectionText>)
    requires forall t :: t in ts ==> SectionFits(header, t)
    ensures Rendered(ts) != [] ==> StartsWith(Rendered(ts)[0], "--- ")
  {
    if ts != [] {
      var t := ts[0];
      assert SectionFits(header, t) && Rendered(ts)[0] == t.oldLine;
      assert "--- " + "a/" == "--- a/";
      PathLineIff(t.oldLine, "--- ", "a/", t.relative);
    }
  }

  lemma HunksRendered(header: Line -> Option<Header>, hs: seq<PatchHunk>, tail: seq<Line>)
    requires Anchored(header) && (forall h :: h in hs ==> HunkFits(header, h)) && (tail != [] ==> StartsWith(tail[0], "--- "))
    ensures ReadHunks(header, WriteHunks(hs) + tail) == Ok((HunksOf(hs), tail))
  {
    forall h | h in hs ensures HeaderMatches(header, h) && forall l :: l in h.hunk.lines ==> Readable(l) { FitsIff(header, h); }
    hide HunkFits, HeaderMatches, Readable, WriteHunks, HunksOf, StartsWith, Anchored;
    HunksRoundTrip(header, hs, tail);
  }

  lemma {:induction false} RenderedIsRead(header: Line -> Option<Header>, ts: seq<SectionText>, seen: set<string>)
    requires Anchored(header) && FitsAfter(header, ts, seen)
    ensures ReadSections(header, Rendered(ts), seen) == Ok(Meaning(ts))
    decreases |ts|
  {
    hide Anchored, PathLine, HunkFits, WriteHunks, ReadHunks, ReadPath;
    if ts != [] {
      var t, rest, lines := ts[0], Rendered(ts[1..]), Rendered(ts);
      FitsRest(header, ts, seen);
      RenderedIsRead(header, ts[1..], seen + {t.relative});
      assert forall x :: x in ts[1..] ==> x in ts;
      RenderedStart(header, ts[1..]);
      HunksRendered(header, t.hunks, rest);
      assert lines == [t.oldLine, t.newLine] + (WriteHunks(t.hunks) + rest);
      assert lines[2..] == WriteHunks(t.hunks) + rest;
      ReadPathIff(lines, t.relative);
      assert HunksOf(t.hunks) != [];
      hide FitsAfter, Rendered;
    }
  }

  lemma {:induction false} ReadIsRendered(header: Line -> Option<Header>, lines: seq<Line>, seen: set<string>, sections: seq<Section>) returns (ts: seq<SectionText>)
    requires Anchored(header) && ReadSections(header, lines, seen) == Ok(sections)
    ensures FitsAfter(header, ts, seen) && lines == Rendered(ts) && sections == Meaning(ts)
    decreases |lines|
  {
    hide Anchored, PathLine, HunkFits, WriteHunks, ReadHunks, ReadPath;
    if lines == [] {
      ts := [];
    } else {
      var relative := ReadPath(lines).value;
      ReadPathIff(lines, relative);
      var hunks, rest := sections[0].hunks, ReadHunks(header, lines[2..]).value.1;
      HunksShorten(header, lines[2..]);
      var later := ReadIsRendered(header, rest, seen + {relative}, sections[1..]);
      var hs := HunksRead(header, lines[2..], hunks, rest);
      assert hs != [];
      var t := SectionText(lines[0], lines[1], relative, hs);
      ts := [t] + later;
      assert ts[1..] == later;
      FitsRest(header, ts, seen);
      assert lines == [lines[0], lines[1]] + (WriteHunks(hs) + Rendered(later));
      hide FitsAfter;
    }
  }

  /** A sequence of lines is read as these sections if and only if it is a patch that means
      them; every other one is refused. */
  lemma ReadIff(header: Line -> Option<Header>, lines: seq<Line>, sections: seq<Section>)
    requires Anchored(header)
    ensures ReadSections(header, lines, {}) == Ok(sections) <==> exists ts :: PatchFits(header, ts) && lines == Rendered(ts) && sections == Meaning(ts)
  {
    hide Anchored, SectionFits;
    if ReadSections(header, lines, {}) == Ok(sections) {
      var ts := ReadIsRendered(header, lines, {}, sections);
      assert FitsAfter(header, ts, {});
    }
    forall ts | PatchFits(header, ts) && lines == Rendered(ts) && sections == Meaning(ts) ensures ReadSections(header, lines, {}) == Ok(sections) {
      RenderedIsRead(header, ts, {});
    }
  }

  /** The same of a text: universal newlines, then lines that stay lines. */
  lemma TextReadIff(header: Line -> Option<Header>, text: string, sections: seq<Section>)
    requires Anchored(header)
    ensures ReadText(header, text) == Ok(sections) <==> exists ts ::
      PatchFits(header, ts) && Kept(Rendered(ts)) && UniversalNewlines(text) == Join(Rendered(ts)) && sections == Meaning(ts)
  {
    hide Anchored, PatchFits, Rendered, Meaning, Kept, ReadSections;
    var lines := PatchLines(text);
    ReadIff(header, lines, sections);
    PatchLinesKept(text);
    SplitJoins(UniversalNewlines(text));
    forall ts | PatchFits(header, ts) && Kept(Rendered(ts)) && UniversalNewlines(text) == Join(Rendered(ts)) ensures lines == Rendered(ts) {
      KeptJoin(Rendered(ts));
    }
    hide SplitLines, Join, UniversalNewlines;
  }
}
