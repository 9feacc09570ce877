/** parse_patch of cmake/ios/apply_sdl2_scene_patch.py: file sections of hunks, read line by
    line from a text. The hunk-header pattern is a parameter; everything else follows the
    code. */
module PatchFile {
  import opened Hunks
  import opened Options
  import opened Results
  import opened TextLines

  datatype Header = Header(oldStart: int, oldCount: nat, newCount: nat)

  datatype Section = Section(relative: string, hunks: seq<Hunk>)

  predicate StartsWith(line: Line, prefix: string) {
    |prefix| <= |line| && line[..|prefix|] == prefix
  }

  /** str.rstrip("\\n") */
  function StripNewlines(s: string): string {
    if s != "" && s[|s| - 1] == '\n' then StripNewlines(s[..|s| - 1]) else s
  }

  predicate EndsHunk(line: Line) {
    StartsWith(line, "@@") || StartsWith(line, "--- ")
  }

  predicate ValidHunkLine(line: Line) {
    !StartsWith(line, "\\ No newline at end of file") && line != "" && (line[0] == ' ' || line[0] == '+' || line[0] == '-')
  }

  function ReadHunkLine(line: Line): HunkLine
    requires ValidHunkLine(line)
  {
    if line[0] == ' ' then Context(line[1..]) else if line[0] == '-' then Removed(line[1..]) else Added(line[1..])
  }

  /** The lines of one hunk, and what follows them. */
  function ReadBody(lines: seq<Line>): Result<(seq<HunkLine>, seq<Line>)> {
    if lines == [] || EndsHunk(lines[0]) then Ok(([], lines))
    else if !ValidHunkLine(lines[0]) then ContractError
    else match ReadBody(lines[1..])
      case ContractError => ContractError
      case Ok((body, rest)) => Ok(([ReadHunkLine(lines[0])] + body, rest))
  }

  lemma {:induction false} BodyShortens(lines: seq<Line>)
    ensures ReadBody(lines).Ok? ==> |ReadBody(lines).value.1| <= |lines|
  {
    if lines != [] && !EndsHunk(lines[0]) { BodyShortens(lines[1..]); }
  }

  /** One hunk: its header, its lines, and the two counts. */
  function ReadHunk(header: Line -> Option<Header>, lines: seq<Line>): (r: Result<(Hunk, seq<Line>)>)
    requires lines != []
    ensures r.Ok? ==> |r.value.1| < |lines|
  {
    BodyShortens(lines[1..]);
    match header(lines[0])
    case None => ContractError
    case Some(h) =>
      match ReadBody(lines[1..])
      case ContractError => ContractError
      case Ok((body, rest)) =>
        if |OldSide(body)| != h.oldCount || |NewSide(body)| != h.newCount then ContractError
        else Ok((Hunk(h.oldStart, body), rest))
  }

  function ReadHunks(header: Line -> Option<Header>, lines: seq<Line>): (r: Result<(seq<Hunk>, seq<Line>)>)
    ensures r.Ok? ==> |r.value.1| <= |lines|
    decreases |lines|
  {
    if lines == [] || StartsWith(lines[0], "--- ") then Ok(([], lines))
    else match ReadHunk(header, lines)
      case ContractError => ContractError
      case Ok((hunk, rest)) =>
        match ReadHunks(header, rest)
        case ContractError => ContractError
        case Ok((hunks, rest')) => Ok(([hunk] + hunks, rest'))
  }

  /** The two header lines of a section name one path under a/ and b/. */
  function ReadPath(lines: seq<Line>): Result<string>
    requires lines != []
  {
    if !StartsWith(lines[0], "--- ") || |lines| == 1 || !StartsWith(lines[1], "+++ ") then ContractError
    else
      var oldPath, newPath := StripNewlines(lines[0][4..]), StripNewlines(lines[1][4..]);
      if !StartsWith(oldPath, "a/") || !StartsWith(newPath, "b/") || oldPath[2..] != newPath[2..] || oldPath[2..] == "" then ContractError
      else Ok(oldPath[2..])
  }

  function ReadSections(header: Line -> Option<Header>, lines: seq<Line>, seen: set<string>): Result<seq<Section>>
    decreases |lines|
  {
    if lines == [] then Ok([])
    else match ReadPath(lines)
      case ContractError => ContractError
      case Ok(relative) =>
        if relative in seen then ContractError
        else match ReadHunks(header, lines[2..])
          case ContractError => ContractError
          case Ok((hunks, rest)) =>
            if hunks == [] then ContractError
            else match ReadSections(header, rest, seen + {relative})
              case ContractError => ContractError
              case Ok(sections) => Ok([Section(relative, hunks)] + sections)
  }

  /** The dictionary of the sections, by path. */
  function SectionMap(sections: seq<Section>): map<string, seq<Hunk>> {
    if sections == [] then map[] else SectionMap(sections[1..])[sections[0].relative := sections[0].hunks]
  }

  /** No section is lost in the dictionary: a patch that is read names each path once. */
  lemma {:induction false} EverySectionKept(header: Line -> Option<Header>, lines: seq<Line>, seen: set<string>, sections: seq<Section>)
    requires ReadSections(header, lines, seen) == Ok(sections)
    ensures SectionMap(sections).Keys == set s | s in sections :: s.relative
    ensures forall s :: s in sections ==> s.relative !in seen && s.relative in SectionMap(sections) && SectionMap(sections)[s.relative] == s.hunks
    decreases |lines|
  {
    hide ReadPath, ReadHunks;
    if sections != [] {
      var path := ReadPath(lines).value;
      assert |lines| >= 2 by { PathNeedsTwoLines(lines); }
      var rest := ReadHunks(header, lines[2..]).value.1;
      assert ReadSections(header, rest, seen + {path}) == Ok(sections[1..]);
      assert |rest| <= |lines[2..]| by { HunksShorten(header, lines[2..]); }
      EverySectionKept(header, rest, seen + {path}, sections[1..]);
      assert sections[0].relative == path;
      assert forall s :: s in sections <==> s == sections[0] || s in sections[1..];
    }
  }

  lemma HunksShorten(header: Line -> Option<Header>, lines: seq<Line>)
    ensures ReadHunks(header, lines).Ok? ==> |ReadHunks(header, lines).value.1| <= |lines|
  {}

  // --------------------------------------------------------------------- the code

  /** A partial result of one of the two inner loops, followed by the rest of the input. */
  function After<T>(done: seq<T>, r: Result<(seq<T>, seq<Line>)>): (r': Result<(seq<T>, seq<Line>)>)
    ensures done == [] ==> r' == r
  {
    if r.Ok? then assert [] + r.value.0 == r.value.0; Ok((done + r.value.0, r.value.1)) else ContractError
  }

  lemma AfterOne<T>(done: seq<T>, x: T, r: Result<(seq<T>, seq<Line>)>)
    ensures After(done, if r.Ok? then Ok(([x] + r.value.0, r.value.1)) else ContractError) == After(done + [x], r)
  {
    if r.Ok? { assert done + ([x] + r.value.0) == done + [x] + r.value.0; }
  }

  method ParseBody(lines: seq<Line>, start: nat) returns (ok: bool, index: nat, body: seq<HunkLine>)
    requires start <= |lines|
    ensures ok ==> start <= index <= |lines| && ReadBody(lines[start..]) == Ok((body, lines[index..]))
    ensures !ok ==> ReadBody(lines[start..]) == ContractError
  {
    index, body := start, [];
    hide EndsHunk, ValidHunkLine, ReadHunkLine;
    while index < |lines| && !EndsHunk(lines[index])
      invariant start <= index <= |lines|
      invariant ReadBody(lines[start..]) == After(body, ReadBody(lines[index..]))
    {
      var line := lines[index];
      assert lines[index..][0] == line && lines[index..][1..] == lines[index + 1..];
      if !ValidHunkLine(line) {
        return false, index, body;
      }
      AfterOne(body, ReadHunkLine(line), ReadBody(lines[index + 1..]));
      body := body + [ReadHunkLine(line)];
      index := index + 1;
    }
    assert body + [] == body;
    return true, index, body;
  }

  method ParseHunks(header: Line -> Option<Header>, lines: seq<Line>, start: nat) returns (ok: bool, index: nat, hunks: seq<Hunk>)
    requires start <= |lines|
    ensures ok ==> start <= index <= |lines| && ReadHunks(header, lines[start..]) == Ok((hunks, lines[index..]))
    ensures !ok ==> ReadHunks(header, lines[start..]) == ContractError
  {
    index, hunks := start, [];
    hide StartsWith, ReadBody, OldSide, NewSide;
    while index < |lines| && !StartsWith(lines[index], "--- ")
      invariant start <= index <= |lines|
      invariant ReadHunks(header, lines[start..]) == After(hunks, ReadHunks(header, lines[index..]))
    {
      ghost var rest := lines[index..];
      assert rest[0] == lines[index] && rest[1..] == lines[index + 1..];
      var matched := header(lines[index]);
      if matched.None? {
        assert ReadHunk(header, rest) == ContractError;
        return false, index, hunks;
      }
      var bodyOk, next, body := ParseBody(lines, index + 1);
      if !bodyOk {
        assert ReadHunk(header, rest) == ContractError;
        return false, index, hunks;
      }
      if |OldSide(body)| != matched.value.oldCount || |NewSide(body)| != matched.value.newCount {
        assert ReadHunk(header, rest) == ContractError;
        return false, index, hunks;
      }
      var hunk := Hunk(matched.value.oldStart, body);
      assert ReadHunk(header, rest) == Ok((hunk, lines[next..]));
      AfterOne(hunks, hunk, ReadHunks(header, lines[next..]));
      hunks := hunks + [hunk];
      index := next;
    }
    assert hunks + [] == hunks;
    return true, index, hunks;
  }

  method ParsePatch(header: Line -> Option<Header>, lines: seq<Line>) returns (r: Result<seq<Section>>)
    ensures r == ReadSections(header, lines, {})
  {
    var index: nat, sections: seq<Section>, seen: set<string> := 0, [], {};
    hide ReadPath, ReadHunks;
    assert lines[0..] == lines;
    while index < |lines|
      invariant index <= |lines|
      invariant ReadSections(header, lines, {}) == Prepend(sections, ReadSections(header, lines[index..], seen))
    {
      ghost var rest := lines[index..];
      var path := ReadPath(lines[index..]);
      if path.ContractError? || path.value in seen { return ContractError; }
      assert |rest| >= 2 by { PathNeedsTwoLines(rest); }
      assert rest[2..] == lines[index + 2..];
      var ok, next, hunks := ParseHunks(header, lines, index + 2);
      if !ok || hunks == [] { return ContractError; }
      PrependOne(sections, Section(path.value, hunks), ReadSections(header, lines[next..], seen + {path.value}));
      sections, seen := sections + [Section(path.value, hunks)], seen + {path.value};
      index := next;
    }
    assert sections + [] == sections;
    return Ok(sections);
  }

  lemma PathNeedsTwoLines(lines: seq<Line>)
    requires lines != [] && ReadPath(lines).Ok?
    ensures 2 <= |lines|
  {}

  // ------------------------------------------------------------------- round trip

  datatype PatchHunk = PatchHunk(headerLine: Line, hunk: Hunk)

  datatype PatchSection = PatchSection(relative: string, hunks: seq<PatchHunk>)

  function WriteLine(l: HunkLine): Line {
    match l
    case Context(text) => " " + text
    case Removed(text) => "-" + text
    case Added(text) => "+" + text
  }

  function WriteBody(ls: seq<HunkLine>): seq<Line> {
    if ls == [] then [] else [WriteLine(ls[0])] + WriteBody(ls[1..])
  }

  function WriteHunks(hs: seq<PatchHunk>): seq<Line> {
    if hs == [] then [] else [hs[0].headerLine] + WriteBody(hs[0].hunk.lines) + WriteHunks(hs[1..])
  }

  function WriteSections(ss: seq<PatchSection>): seq<Line> {
    if ss == [] then []
    else ["--- a/" + ss[0].relative + "\n", "+++ b/" + ss[0].relative + "\n"] + WriteHunks(ss[0].hunks) + WriteSections(ss[1..])
  }

  function HunksOf(hs: seq<PatchHunk>): seq<Hunk> {
    if hs == [] then [] else [hs[0].hunk] + HunksOf(hs[1..])
  }

  function SectionsOf(ss: seq<PatchSection>): seq<Section> {
    if ss == [] then [] else [Section(ss[0].relative, HunksOf(ss[0].hunks))] + SectionsOf(ss[1..])
  }

  /** A header line the pattern reads back as the hunk's position and counts. */
  predicate HeaderMatches(header: Line -> Option<Header>, h: PatchHunk) {
    && StartsWith(h.headerLine, "@@")
    && header(h.headerLine) == Some(Header(h.hunk.oldStart, |OldSide(h.hunk.lines)|, |NewSide(h.hunk.lines)|))
  }

  predicate WellFormedSection(header: Line -> Option<Header>, s: PatchSection) {
    && s.relative != "" && s.relative[|s.relative| - 1] != '\n' && s.hunks != []
    && forall h :: h in s.hunks ==> HeaderMatches(header, h)
  }

  predicate WellFormed(header: Line -> Option<Header>, ss: seq<PatchSection>, seen: set<string>) {
    ss != [] ==> WellFormedSection(header, ss[0]) && ss[0].relative !in seen && WellFormed(header, ss[1..], seen + {ss[0].relative})
  }

  /** A removed line whose text starts with "-- " looks like a file header in the patch. */
  predicate Readable(l: HunkLine) {
    !(l.Removed? && StartsWith(l.text, "-- "))
  }

  predicate ReadableHunks(hs: seq<PatchHunk>) {
    forall h :: h in hs ==> forall l :: l in h.hunk.lines ==> Readable(l)
  }

  predicate ReadableSections(ss: seq<PatchSection>) {
    forall s :: s in ss ==> ReadableHunks(s.hunks)
  }

  lemma WrittenLine(l: HunkLine)
    ensures ValidHunkLine(WriteLine(l)) && ReadHunkLine(WriteLine(l)) == l && (EndsHunk(WriteLine(l)) <==> !Readable(l))
  {
    var line := WriteLine(l);
    assert line[1..] == l.text;
    if l.Removed? { SignedPrefix(line, "--- "); } else { NotPrefix(line, "--- "); }
    NotPrefix(line, "@@");
    NotPrefix(line, "\\ No newline at end of file");
    assert "--- "[1..] == "-- ";
    hide StartsWith;
  }

  /** Prefixes, one character at a time. */
  lemma NotPrefix(line: Line, prefix: string)
    requires line != "" && prefix != "" && line[0] != prefix[0]
    ensures !StartsWith(line, prefix)
  {
    if |prefix| <= |line| { assert line[..|prefix|][0] == line[0]; }
  }

  lemma SignedPrefix(line: Line, prefix: string)
    requires line != "" && prefix != "" && line[0] == prefix[0]
    ensures StartsWith(line, prefix) <==> StartsWith(line[1..], prefix[1..])
  {
    if |prefix| <= |line| {
      assert line[..|prefix|] == [line[0]] + line[1..][..|prefix| - 1];
      assert prefix == [prefix[0]] + prefix[1..];
    }
  }

  lemma {:induction false} BodyRoundTrip(ls: seq<HunkLine>, tail: seq<Line>)
    requires (forall l :: l in ls ==> Readable(l)) && (tail != [] ==> EndsHunk(tail[0]))
    ensures ReadBody(WriteBody(ls) + tail) == Ok((ls, tail))
  {
    var lines := WriteBody(ls) + tail;
    if ls == [] {
      assert lines == tail;
    } else {
      assert lines[0] == WriteLine(ls[0]) && lines[1..] == WriteBody(ls[1..]) + tail;
      WrittenLine(ls[0]);
      BodyRoundTrip(ls[1..], tail);
      assert [ls[0]] + ls[1..] == ls;
    }
  }

  /** Reading stops at the first unreadable line, one removed line short of the count. */
  lemma {:induction false} BodyStops(ls: seq<HunkLine>, tail: seq<Line>)
    requires exists l :: l in ls && !Readable(l)
    ensures ReadBody(WriteBody(ls) + tail).Ok? && |OldSide(ReadBody(WriteBody(ls) + tail).value.0)| < |OldSide(ls)|
  {
    var lines := WriteBody(ls) + tail;
    assert lines[0] == WriteLine(ls[0]) && lines[1..] == WriteBody(ls[1..]) + tail;
    WrittenLine(ls[0]);
    if Readable(ls[0]) {
      assert exists l :: l in ls[1..] && !Readable(l);
      BodyStops(ls[1..], tail);
      var rest := ReadBody(lines[1..]).value.0;
      assert ([ls[0]] + rest)[1..] == rest;
    }
  }

  lemma {:induction false} HunksRoundTrip(header: Line -> Option<Header>, hs: seq<PatchHunk>, tail: seq<Line>)
    requires (forall h :: h in hs ==> HeaderMatches(header, h)) && (tail != [] ==> StartsWith(tail[0], "--- "))
    ensures ReadableHunks(hs) ==> ReadHunks(header, WriteHunks(hs) + tail) == Ok((HunksOf(hs), tail))
    ensures !ReadableHunks(hs) ==> ReadHunks(header, WriteHunks(hs) + tail) == ContractError
    decreases |hs|
  {
    var lines := WriteHunks(hs) + tail;
    if hs == [] {
      assert lines == tail;
    } else {
      var h, after := hs[0], WriteHunks(hs[1..]) + tail;
      assert lines[0] == h.headerLine && lines[1..] == WriteBody(h.hunk.lines) + after;
      assert HeaderMatches(header, h);
      assert !StartsWith(lines[0], "--- ") by {
        assert lines[0][..2][0] == '@';
        NotPrefix(lines[0], "--- ");
      }
      HunksStart(header, hs[1..], tail);
      HunksRoundTrip(header, hs[1..], tail);
      SplitReadable(hs);
      OneHunk(header, h, lines, after);
    }
    hide ReadHunk, ReadableHunks, HeaderMatches, Readable, WriteHunks;
  }

  lemma OneHunk(header: Line -> Option<Header>, h: PatchHunk, lines: seq<Line>, after: seq<Line>)
    requires HeaderMatches(header, h) && (after != [] ==> EndsHunk(after[0]))
    requires lines != [] && lines[0] == h.headerLine && lines[1..] == WriteBody(h.hunk.lines) + after
    ensures ReadHunk(header, lines) == if forall l :: l in h.hunk.lines ==> Readable(l) then Ok((h.hunk, after)) else ContractError
  {
    if forall l :: l in h.hunk.lines ==> Readable(l) {
      BodyRoundTrip(h.hunk.lines, after);
    } else {
      BodyStops(h.hunk.lines, after);
    }
    hide ReadBody, OldSide, NewSide, WriteBody, Readable, EndsHunk;
  }

  lemma SplitReadable(hs: seq<PatchHunk>)
    requires hs != []
    ensures ReadableHunks(hs) <==> (forall l :: l in hs[0].hunk.lines ==> Readable(l)) && ReadableHunks(hs[1..])
  {
    assert forall h :: h in hs <==> h == hs[0] || h in hs[1..];
  }

  lemma HunksStart(header: Line -> Option<Header>, hs: seq<PatchHunk>, tail: seq<Line>)
    requires (forall h :: h in hs ==> HeaderMatches(header, h)) && (tail != [] ==> StartsWith(tail[0], "--- "))
    ensures WriteHunks(hs) + tail != [] ==> EndsHunk((WriteHunks(hs) + tail)[0])
  {
    if hs != [] { assert HeaderMatches(header, hs[0]); }
  }

  lemma StripOne(s: string)
    requires s != "" && s[|s| - 1] != '\n'
    ensures StripNewlines(s + "\n") == s
  {
    var t := s + "\n";
    assert t[..|t| - 1] == s;
  }

  lemma PathRoundTrip(relative: string, rest: seq<Line>)
    requires relative != "" && relative[|relative| - 1] != '\n'
    ensures ReadPath(["--- a/" + relative + "\n", "+++ b/" + relative + "\n"] + rest) == Ok(relative)
  {
    var first, second := "--- a/" + relative + "\n", "+++ b/" + relative + "\n";
    assert first[..4] == "--- " && second[..4] == "+++ ";
    var a, b := "a/" + relative, "b/" + relative;
    assert first[4..] == a + "\n" && second[4..] == b + "\n";
    StripOne(a);
    StripOne(b);
    assert a[..2] == "a/" && b[..2] == "b/" && a[2..] == relative && b[2..] == relative;
    hide StripNewlines;
  }

  /** Writing a patch and reading it gives the patch back, or a refusal: the latter exactly
      when some removed line's text starts with "-- ". */
  lemma {:induction false} PatchRoundTrip(header: Line -> Option<Header>, ss: seq<PatchSection>, seen: set<string>)
    requires WellFormed(header, ss, seen)
    ensures ReadableSections(ss) ==> ReadSections(header, WriteSections(ss), seen) == Ok(SectionsOf(ss))
    ensures !ReadableSections(ss) ==> ReadSections(header, WriteSections(ss), seen) == ContractError
    decreases |ss|
  {
    if ss != [] {
      var s, rest, lines := ss[0], WriteSections(ss[1..]), WriteSections(ss);
      var after := WriteHunks(s.hunks) + rest;
      assert lines == ["--- a/" + s.relative + "\n", "+++ b/" + s.relative + "\n"] + after;
      assert lines[2..] == after;
      PathRoundTrip(s.relative, after);
      SectionStart(ss[1..]);
      assert HunksOf(s.hunks) != [];
      PatchRoundTrip(header, ss[1..], seen + {s.relative});
      assert ReadableSections(ss) <==> ReadableHunks(s.hunks) && ReadableSections(ss[1..]) by {
        assert forall x :: x in ss <==> x == ss[0] || x in ss[1..];
      }
      hide ReadPath, ReadHunks, ReadableHunks, ReadableSections, HunksOf, WriteHunks;
      HunksRoundTrip(header, s.hunks, rest);
    }
  }

  lemma SectionStart(ss: seq<PatchSection>)
    ensures WriteSections(ss) != [] ==> StartsWith(WriteSections(ss)[0], "--- ")
  {
    if ss != [] { assert WriteSections(ss)[0] == "--- a/" + ss[0].relative + "\n"; }
  }

  /** A removed line "-- x" is written as "--- x", which ends the hunk. */
  lemma RemovedDashesRefused()
    ensures var h := Hunk(1, [Removed("-- x\n")]);
      var header := (l: Line) => if l == "@@ -1 +0,0 @@\n" then Some(Header(1, 1, 0)) else None;
      var patch := [PatchSection("f", [PatchHunk("@@ -1 +0,0 @@\n", h)])];
      WellFormed(header, patch, {}) && ReadSections(header, WriteSections(patch), {}) == ContractError
  {
    hide ReadSections, WriteSections;
    var l := Removed("-- x\n");
    var h := Hunk(1, [l]);
    var header := (l: Line) => if l == "@@ -1 +0,0 @@\n" then Some(Header(1, 1, 0)) else None;
    var patch := [PatchSection("f", [PatchHunk("@@ -1 +0,0 @@\n", h)])];
    OneWellFormed(header, "f", "@@ -1 +0,0 @@\n", h, 1, 0);
    assert l in h.lines && !Readable(l);
    assert !ReadableSections(patch);
    PatchRoundTrip(header, patch, {});
  }

  /** A patch of one hunk. */
  function OnePatch(relative: string, headerLine: Line, h: Hunk): seq<PatchSection> {
    [PatchSection(relative, [PatchHunk(headerLine, h)])]
  }

  lemma OneWellFormed(header: Line -> Option<Header>, relative: string, headerLine: Line, h: Hunk, before: nat, after: nat)
    requires relative != "" && relative[|relative| - 1] != '\n' && StartsWith(headerLine, "@@")
    requires |OldSide(h.lines)| == before && |NewSide(h.lines)| == after && header(headerLine) == Some(Header(h.oldStart, before, after))
    ensures WellFormed(header, OnePatch(relative, headerLine, h), {})
  {
    hide OldSide, NewSide, StartsWith;
    assert WellFormed(header, OnePatch(relative, headerLine, h)[1..], {relative});
  }

  lemma OneWritten(relative: string, headerLine: Line, h: Hunk)
    ensures WriteSections(OnePatch(relative, headerLine, h)) == ["--- a/" + relative + "\n", "+++ b/" + relative + "\n", headerLine] + WriteBody(h.lines)
    ensures SectionsOf(OnePatch(relative, headerLine, h)) == [Section(relative, [h])]
  {
    var ss := OnePatch(relative, headerLine, h);
    assert ss[1..] == [] && ss[0].hunks[1..] == [];
    assert WriteHunks(ss[0].hunks) == [headerLine] + WriteBody(h.lines) + [];
    assert HunksOf(ss[0].hunks) == [h] + HunksOf([]) == [h];
    assert SectionsOf(ss) == [Section(relative, [h])] + SectionsOf([]);
  }

  // --------------------------------------------------------------- from the text

  /** parse_patch on the text of a patch file. */
  function ReadText(header: Line -> Option<Header>, text: string): Result<seq<Section>> {
    ReadSections(header, PatchLines(text), {})
  }

  /** The written patch as a text. */
  function PatchText(ss: seq<PatchSection>): string { Join(WriteSections(ss)) }

  predicate WholeLine(l: Line) { Clean(l) && Ended(l) }

  predicate OneLinePath(relative: string) { forall i :: 0 <= i < |relative| ==> !Boundary(relative[i]) }

  predicate WholeHeaders(hs: seq<PatchHunk>) { forall h :: h in hs ==> WholeLine(h.headerLine) }

  /** Paths without a line boundary, and whole header lines. */
  predicate HeadersFit(ss: seq<PatchSection>) { forall s :: s in ss ==> OneLinePath(s.relative) && WholeHeaders(s.hunks) }

  /** The same line, or one whose original is a whole line. */
  predicate SameOrWhole(read: Line, written: Line) { read == written || WholeLine(written) }

  predicate SameShape(read: seq<Line>, written: seq<Line>) {
    |read| == |written| && forall i :: 0 <= i < |read| ==> SameOrWhole(read[i], written[i])
  }

  lemma ShapesJoin(a: seq<Line>, b: seq<Line>, c: seq<Line>, d: seq<Line>)
    requires SameShape(a, b) && SameShape(c, d)
    ensures SameShape(a + c, b + d)
  {
    hide SameOrWhole;
  }

  lemma SameShapeKept(read: seq<Line>, written: seq<Line>)
    requires SameShape(read, written) && Kept(read)
    ensures Kept(written)
  {
    hide Clean, Ended;
    forall i | 0 <= i < |written| ensures Clean(written[i]) && (i < |written| - 1 ==> Ended(written[i])) {
      assert SameOrWhole(read[i], written[i]);
    }
  }

  lemma WriteReadLine(line: Line)
    requires ValidHunkLine(line)
    ensures WriteLine(ReadHunkLine(line)) == line
  {
    assert line == [line[0]] + line[1..];
  }

  /** The lines of a hunk are found word for word. */
  lemma {:induction false} BodyFound(lines: seq<Line>, ls: seq<HunkLine>, tail: seq<Line>)
    requires ReadBody(lines) == Ok((ls, tail))
    ensures lines == WriteBody(ls) + tail
    decreases |lines|
  {
    hide EndsHunk, ValidHunkLine, ReadHunkLine, WriteLine;
    if lines != [] && !EndsHunk(lines[0]) {
      assert ls != [] && ls[0] == ReadHunkLine(lines[0]) && ReadBody(lines[1..]) == Ok((ls[1..], tail));
      BodyFound(lines[1..], ls[1..], tail);
      WriteReadLine(lines[0]);
      assert lines == [lines[0]] + lines[1..];
    }
  }

  lemma BodySame(ls: seq<HunkLine>)
    ensures SameShape(WriteBody(ls), WriteBody(ls))
  {}

  lemma OneHunkFound(header: Line -> Option<Header>, lines: seq<Line>, h: Hunk, tail: seq<Line>)
    requires lines != [] && ReadHunk(header, lines) == Ok((h, tail))
    ensures lines == [lines[0]] + WriteBody(h.lines) + tail
  {
    hide OldSide, NewSide;
    BodyFound(lines[1..], h.lines, tail);
    assert lines == [lines[0]] + lines[1..];
  }

  lemma HunksUnfold(header: Line -> Option<Header>, lines: seq<Line>, hs: seq<PatchHunk>, tail: seq<Line>) returns (rest: seq<Line>)
    requires ReadHunks(header, lines) == Ok((HunksOf(hs), tail)) && hs != []
    ensures lines != [] && ReadHunk(header, lines) == Ok((hs[0].hunk, rest)) && ReadHunks(header, rest) == Ok((HunksOf(hs[1..]), tail))
  {
    hide StartsWith, ReadHunk;
    rest := ReadHunk(header, lines).value.1;
    assert HunksOf(hs)[1..] == HunksOf(hs[1..]);
  }

  lemma {:induction false} HunksFound(header: Line -> Option<Header>, lines: seq<Line>, hs: seq<PatchHunk>, tail: seq<Line>) returns (front: seq<Line>)
    requires ReadHunks(header, lines) == Ok((HunksOf(hs), tail)) && WholeHeaders(hs)
    ensures lines == front + tail && SameShape(front, WriteHunks(hs))
    decreases |hs|
  {
    hide ReadHunk, StartsWith, WholeLine;
    if hs == [] {
      front := [];
      assert lines == [] + tail;
    } else {
      var h := hs[0];
      var rest := HunksUnfold(header, lines, hs, tail);
      var later := HunksFound(header, rest, hs[1..], tail);
      OneHunkFound(header, lines, h.hunk, rest);
      hide ReadHunks;
      var body := WriteBody(h.hunk.lines);
      front := [lines[0]] + body + later;
      assert lines == front + tail;
      BodySame(h.hunk.lines);
      assert SameShape([lines[0]], [h.headerLine]);
      ShapesJoin([lines[0]], [h.headerLine], body, body);
      ShapesJoin([lines[0]] + body, [h.headerLine] + body, later, WriteHunks(hs[1..]));
    }
  }

  lemma PathLinesWhole(relative: string)
    requires OneLinePath(relative)
    ensures WholeLine("--- a/" + relative + "\n") && WholeLine("+++ b/" + relative + "\n")
  {
    PathLineWhole("--- a/", relative);
    PathLineWhole("+++ b/", relative);
  }

  lemma PathLineWhole(prefix: string, relative: string)
    requires OneLinePath(relative) && OneLinePath(prefix)
    ensures WholeLine(prefix + relative + "\n")
  {
    var l := prefix + relative + "\n";
    assert forall i :: 0 <= i < |l| ==> l[i] == if i < |prefix| then prefix[i] else if i < |prefix| + |relative| then relative[i - |prefix|] else '\n';
  }

  lemma SectionUnfold(header: Line -> Option<Header>, lines: seq<Line>, ss: seq<PatchSection>, seen: set<string>) returns (rest: seq<Line>)
    requires ReadSections(header, lines, seen) == Ok(SectionsOf(ss)) && ss != []
    ensures |lines| >= 2 && ReadHunks(header, lines[2..]) == Ok((HunksOf(ss[0].hunks), rest)) && |rest| < |lines|
    ensures ReadSections(header, rest, seen + {ss[0].relative}) == Ok(SectionsOf(ss[1..]))
  {
    hide ReadPath, ReadHunks;
    PathNeedsTwoLines(lines);
    rest := ReadHunks(header, lines[2..]).value.1;
    HunksShorten(header, lines[2..]);
    assert SectionsOf(ss)[1..] == SectionsOf(ss[1..]);
  }

  lemma {:induction false} SectionsFound(header: Line -> Option<Header>, lines: seq<Line>, ss: seq<PatchSection>, seen: set<string>)
    requires ReadSections(header, lines, seen) == Ok(SectionsOf(ss)) && HeadersFit(ss)
    ensures SameShape(lines, WriteSections(ss))
    decreases |ss|
  {
    hide ReadPath, ReadHunks, WriteHunks, WholeHeaders, WholeLine, OneLinePath;
    if ss != [] {
      var s := ss[0];
      var rest := SectionUnfold(header, lines, ss, seen);
      assert forall x :: x in ss[1..] ==> x in ss;
      SectionsFound(header, rest, ss[1..], seen + {s.relative});
      var front := HunksFound(header, lines[2..], s.hunks, rest);
      PathLinesWhole(s.relative);
      hide ReadSections;
      var heads := ["--- a/" + s.relative + "\n", "+++ b/" + s.relative + "\n"];
      assert lines == lines[..2] + (front + rest);
      assert SameShape(lines[..2], heads);
      assert WriteSections(ss) == heads + (WriteHunks(s.hunks) + WriteSections(ss[1..]));
      hide WriteSections;
      ShapesJoin(front, WriteHunks(s.hunks), rest, WriteSections(ss[1..]));
      ShapesJoin(lines[..2], heads, front + rest, WriteHunks(s.hunks) + WriteSections(ss[1..]));
    }
  }

  /** A well-formed patch, written out as a text, is read back as it was if and only if no
      removed line's text starts with "-- ", and every hunk line but the last of the patch
      ends with a line boundary and holds no other one. */
  lemma TextRoundTripIff(header: Line -> Option<Header>, ss: seq<PatchSection>)
    requires WellFormed(header, ss, {}) && HeadersFit(ss)
    ensures ReadText(header, PatchText(ss)) == Ok(SectionsOf(ss)) <==> ReadableSections(ss) && Kept(WriteSections(ss))
  {
    var written, read := WriteSections(ss), PatchLines(PatchText(ss));
    hide WellFormed, HeadersFit, ReadableSections, WriteSections, SectionsOf, Kept, PatchLines, ReadSections, Join;
    LinesReadBackIff(written);
    PatchRoundTrip(header, ss, {});
    if ReadSections(header, read, {}) == Ok(SectionsOf(ss)) {
      SectionsFound(header, read, ss, {});
      PatchLinesKept(PatchText(ss));
      SameShapeKept(read, written);
    }
  }

  const FORM_FEED := Hunk(1, [Context("x\U{000C}y\n")])
  const ONE_LINE := "@@ -1 +1 @@\n"

  function OneHeader(l: Line): Option<Header> { if l == ONE_LINE then Some(Header(1, 1, 1)) else None }

  lemma FormFeedWritten()
    ensures |WriteBody(FORM_FEED.lines)| == 1 && !Clean(WriteBody(FORM_FEED.lines)[0]) && forall l :: l in FORM_FEED.lines ==> Readable(l)
    ensures |OldSide(FORM_FEED.lines)| == 1 && |NewSide(FORM_FEED.lines)| == 1
  {
    assert FORM_FEED.lines[1..] == [];
    assert Boundary(WriteBody(FORM_FEED.lines)[0][2]);
  }

  /** A context line with a form feed inside is written as two lines. */
  lemma FormFeedNotReadBack()
    ensures var patch := OnePatch("f", ONE_LINE, FORM_FEED);
      && WellFormed(OneHeader, patch, {}) && HeadersFit(patch) && ReadableSections(patch)
      && ReadText(OneHeader, PatchText(patch)) != Ok(SectionsOf(patch))
  {
    hide ReadText, PatchText, SectionsOf, WellFormed, WriteSections, WriteBody, Readable, Clean, OldSide, NewSide, Boundary;
    var patch := OnePatch("f", ONE_LINE, FORM_FEED);
    FormFeedWritten();
    OneWellFormed(OneHeader, "f", ONE_LINE, FORM_FEED, 1, 1);
    OneWritten("f", ONE_LINE, FORM_FEED);
    HeaderLineWhole();
    assert WriteSections(patch)[3] == WriteBody(FORM_FEED.lines)[0];
    assert !Kept(WriteSections(patch));
    TextRoundTripIff(OneHeader, patch);
  }

  lemma HeaderLineWhole()
    ensures WholeLine(ONE_LINE) && StartsWith(ONE_LINE, "@@") && OneLinePath("f") && OneLinePath("a.c")
  {}
}
