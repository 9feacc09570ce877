/** apply_patch of cmake/ios/apply_sdl2_scene_patch.py: the fail-closed run over a set of
    controlled files, written one atomic write at a time, and what a rerun does after a
    crash between two writes. Hashing and decoding are parameters. */
module PatchRun {
  import opened Hunks
  import opened Options
  import opened PatchFile
  import opened Results
  import opened TextLines

  type Path = string

  /** The bytes of a file: decodable as UTF-8 or not. */
  datatype Content = Text(text: string) | Binary(bytes: seq<nat>)

  type Tree = map<Path, Content>

  datatype Entry = Entry(relative: Path, preimage: string, postimage: string)

  datatype Manifest = Manifest(url: string, sha256: string, patchSha256: string, files: seq<Entry>)

  /** The environment of a run: library functions, the hunk-header pattern, the manifest, the
      command line, and the patch file's hash and text (None if it cannot be read or decoded).
      `resolve` is None for a path escaping the tree. */
  datatype Run = Run(sha256: Content -> string, resolve: Path -> Option<Path>, manifest: Manifest, expectedUrl: string,
                     expectedSha256: string, patchSha256: string, header: Line -> Option<Header>, patch: Option<string>)

  datatype Status = Patched | Postimage | Preimage

  predicate IsSha256(s: string) {
    |s| == 64 && forall i :: 0 <= i < 64 ==> '0' <= s[i] <= '9' || 'a' <= s[i] <= 'f'
  }

  predicate CheckedFile(e: Entry) {
    e.relative != "" && e.relative[0] != '/' && IsSha256(e.preimage) && IsSha256(e.postimage)
  }

  /** check_inputs */
  predicate CheckInputs(run: Run) {
    var m := run.manifest;
    && m.url != "" && m.url == run.expectedUrl
    && m.sha256 != "" && m.sha256 == run.expectedSha256 && IsSha256(run.expectedSha256)
    && m.patchSha256 != "" && run.patchSha256 == m.patchSha256
    && m.files != [] && forall i :: 0 <= i < |m.files| ==> CheckedFile(m.files[i])
  }

  /** source_file succeeds: inside the tree and present. */
  predicate Present(run: Run, tree: Tree, e: Entry) {
    run.resolve(e.relative).Some? && run.resolve(e.relative).value in tree
  }

  predicate AllPresent(run: Run, tree: Tree) {
    forall i :: 0 <= i < |run.manifest.files| ==> Present(run, tree, run.manifest.files[i])
  }

  function Source(run: Run, tree: Tree, e: Entry): Path
    requires Present(run, tree, e)
  {
    run.resolve(e.relative).value
  }

  function HashOf(run: Run, tree: Tree, e: Entry): string
    requires Present(run, tree, e)
  {
    run.sha256(tree[Source(run, tree, e)])
  }

  predicate AllPreimage(run: Run, tree: Tree)
    requires AllPresent(run, tree)
  {
    forall i :: 0 <= i < |run.manifest.files| ==> HashOf(run, tree, run.manifest.files[i]) == run.manifest.files[i].preimage
  }

  predicate AllPostimage(run: Run, tree: Tree)
    requires AllPresent(run, tree)
  {
    forall i :: 0 <= i < |run.manifest.files| ==> HashOf(run, tree, run.manifest.files[i]) == run.manifest.files[i].postimage
  }

  function ChangedPaths(files: seq<Entry>): set<Path> {
    set e | e in files && e.preimage != e.postimage :: e.relative
  }

  /** New content of one file: hunks applied, or unchanged when the patch does not name it. */
  function Updated(run: Run, hunks: map<Path, seq<Hunk>>, e: Entry, original: Content): Result<Content> {
    if e.relative !in hunks then Ok(original)
    else if original.Binary? then ContractError
    else match Running(SplitLines(original.text), 0, hunks[e.relative])
      case ContractError => ContractError
      case Ok(lines) => Ok(Text(Join(lines)))
  }

  /** outputs[path] = data: in its old place if the path is there already. */
  function SetItem(outputs: seq<(Path, Content)>, path: Path, data: Content): seq<(Path, Content)> {
    if outputs == [] then [(path, data)]
    else if outputs[0].0 == path then [(path, data)] + outputs[1..]
    else [outputs[0]] + SetItem(outputs[1..], path, data)
  }

  /** The dictionary of outputs by resolved path, filled in manifest order; each content must
      have its recorded postimage hash. */
  function Outputs(run: Run, tree: Tree, hunks: map<Path, seq<Hunk>>, files: seq<Entry>, outputs: seq<(Path, Content)>): Result<seq<(Path, Content)>>
    requires forall e :: e in files ==> Present(run, tree, e)
    decreases |files|
  {
    if files == [] then Ok(outputs)
    else
      match Updated(run, hunks, files[0], tree[Source(run, tree, files[0])])
      case ContractError => ContractError
      case Ok(updated) =>
        if run.sha256(updated) != files[0].postimage then ContractError
        else Outputs(run, tree, hunks, files[1..], SetItem(outputs, Source(run, tree, files[0]), updated))
  }

  /** The tree after the given atomic writes. */
  function Write(tree: Tree, outputs: seq<(Path, Content)>): Tree
    decreases |outputs|
  {
    if outputs == [] then tree else Write(tree[outputs[0].0 := outputs[0].1], outputs[1..])
  }

  /** The parsed patch, as a dictionary from paths to hunks. */
  function ParsedPatch(run: Run): Result<map<Path, seq<Hunk>>> {
    if run.patch.None? then ContractError
    else match ReadText(run.header, run.patch.value)
      case ContractError => ContractError
      case Ok(sections) => Ok(SectionMap(sections))
  }

  /** Everything decided before the first write: an answer, or the outputs to write. */
  datatype Decision = Answer(r: Result<Status>) | WriteOut(outputs: seq<(Path, Content)>)

  function Decide(run: Run, tree: Tree, verifyOnly: bool): Decision {
    if !CheckInputs(run) || !AllPresent(run, tree) then Answer(ContractError)
    else if AllPostimage(run, tree) then Answer(Ok(Postimage))
    else if !AllPreimage(run, tree) then Answer(ContractError)
    else if verifyOnly then Answer(Ok(Preimage))
    else if ParsedPatch(run).ContractError? || ParsedPatch(run).value.Keys != ChangedPaths(run.manifest.files) then Answer(ContractError)
    else match Outputs(run, tree, ParsedPatch(run).value, run.manifest.files, [])
      case ContractError => Answer(ContractError)
      case Ok(outputs) => WriteOut(outputs)
  }

  function Outcome(run: Run, tree: Tree, verifyOnly: bool): (Result<Status>, Tree) {
    match Decide(run, tree, verifyOnly)
    case Answer(r) => (r, tree)
    case WriteOut(outputs) => (Ok(Patched), Write(tree, outputs))
  }

  class SourceTree {
    var files: Tree
    /** The tree after each atomic write: where a crash can leave it. */
    ghost var states: seq<Tree>

    constructor (files: Tree)
      ensures this.files == files && states == []
    {
      this.files, states := files, [];
    }

    /** os.replace: the file has its old content or the new one, never a mixture. */
    method AtomicWrite(path: Path, data: Content)
      modifies this
      ensures files == old(files)[path := data] && states == old(states) + [files]
    {
      files := files[path := data];
      states := states + [files];
    }

    method ComputeOutputs(run: Run, hunks: map<Path, seq<Hunk>>) returns (r: Result<seq<(Path, Content)>>)
      requires AllPresent(run, files)
      ensures r == Outputs(run, files, hunks, run.manifest.files, [])
    {
      var entries := run.manifest.files;
      var outputs: seq<(Path, Content)> := [];
      hide AllPresent, Updated, SetItem;
      assert forall e :: e in entries ==> Present(run, files, e) by { PresentEntries(run, files); }
      hide Present;
      for i := 0 to |entries|
        invariant Outputs(run, files, hunks, entries, []) == Outputs(run, files, hunks, entries[i..], outputs)
      {
        var e := entries[i];
        ghost var suffix := entries[i..];
        assert suffix[0] == e && suffix[1..] == entries[i + 1..];
        var source := Source(run, files, e);
        var u := Updated(run, hunks, e, files[source]);
        if u.ContractError? { return ContractError; }
        if run.sha256(u.value) != e.postimage { return ContractError; }
        outputs := SetItem(outputs, source, u.value);
      }
      return Ok(outputs);
    }

    /** parse_patch on the patch file, if it can be read. */
    method LoadPatch(run: Run) returns (r: Result<map<Path, seq<Hunk>>>)
      ensures r == ParsedPatch(run)
    {
      if run.patch.None? { return ContractError; }
      var parsed := ParsePatch(run.header, PatchLines(run.patch.value));
      if parsed.ContractError? { return ContractError; }
      return Ok(SectionMap(parsed.value));
    }

    /** apply_patch. Every state the tree goes through is the start with some of the outputs
        written, in order. */
    method ApplyPatch(run: Run, verifyOnly: bool) returns (r: Result<Status>)
      modifies this
      ensures (r, files) == Outcome(run, old(files), verifyOnly)
      ensures r != Ok(Patched) || verifyOnly ==> files == old(files) && states == old(states)
      ensures verifyOnly ==> r != Ok(Patched)
      ensures match Decide(run, old(files), verifyOnly) {
        case Answer(_) => states == old(states)
        case WriteOut(outputs) => states == old(states) + seq(|outputs|, k requires 0 <= k < |outputs| => Write(old(files), outputs[..k + 1])) }
    {
      ghost var start, seen := files, states;
      hide CheckInputs, Outputs, ChangedPaths, HashOf, Present, ParsedPatch;
      if !CheckInputs(run) { return ContractError; }
      if !AllPresent(run, files) { return ContractError; }
      if AllPostimage(run, files) { return Ok(Postimage); }
      if !AllPreimage(run, files) { return ContractError; }
      if verifyOnly { return Ok(Preimage); }
      var parsed := LoadPatch(run);
      if parsed.ContractError? { return ContractError; }
      if parsed.value.Keys != ChangedPaths(run.manifest.files) { return ContractError; }
      var computed := ComputeOutputs(run, parsed.value);
      if computed.ContractError? { return ContractError; }
      var outputs := computed.value;
      assert Decide(run, start, verifyOnly) == WriteOut(outputs);
      hide Decide;
      for k := 0 to |outputs|
        invariant files == Write(start, outputs[..k])
        invariant states == seen + seq(k, j requires 0 <= j < k <= |outputs| => Write(start, outputs[..j + 1]))
      {
        WriteOne(start, outputs, k);
        AtomicWrite(outputs[k].0, outputs[k].1);
      }
      assert outputs[..|outputs|] == outputs;
      return Ok(Patched);
    }
  }

  lemma PresentEntries(run: Run, tree: Tree)
    requires AllPresent(run, tree)
    ensures forall e :: e in run.manifest.files ==> Present(run, tree, e)
  {}

  lemma {:induction false} WriteOne(tree: Tree, outputs: seq<(Path, Content)>, k: nat)
    requires k < |outputs|
    ensures Write(tree, outputs[..k + 1]) == Write(tree, outputs[..k])[outputs[k].0 := outputs[k].1]
    decreases k
  {
    if k > 0 {
      assert outputs[..k + 1][1..] == outputs[1..][..k] && outputs[..k][1..] == outputs[1..][..k - 1];
      WriteOne(tree[outputs[0].0 := outputs[0].1], outputs[1..], k - 1);
    }
  }

  // ------------------------------------------------------------------ over runs

  /** The manifest's files are a dictionary: no path twice. */
  predicate DistinctPaths(run: Run) {
    forall i, j :: 0 <= i < j < |run.manifest.files| ==> run.manifest.files[i].relative != run.manifest.files[j].relative
  }

  /** Paths that resolve to one file agree on what it becomes. */
  ghost predicate Consistent(run: Run) {
    forall i, j :: SameFile(run, i, j) ==> run.manifest.files[i].postimage == run.manifest.files[j].postimage
  }

  /** Two paths of the manifest resolve to one file. */
  predicate SameFile(run: Run, i: int, j: int) {
    && 0 <= i < |run.manifest.files| && 0 <= j < |run.manifest.files|
    && run.resolve(run.manifest.files[i].relative) == run.resolve(run.manifest.files[j].relative)
  }

  /** The file's new content has its recorded hash. */
  predicate UpdatesTo(run: Run, tree: Tree, hunks: map<Path, seq<Hunk>>, e: Entry)
    requires Present(run, tree, e)
  {
    var u := Updated(run, hunks, e, tree[Source(run, tree, e)]);
    u.Ok? && run.sha256(u.value) == e.postimage
  }

  lemma {:induction false} OutputsExistIff(run: Run, tree: Tree, hunks: map<Path, seq<Hunk>>, files: seq<Entry>, outputs: seq<(Path, Content)>)
    requires forall e :: e in files ==> Present(run, tree, e)
    ensures Outputs(run, tree, hunks, files, outputs).Ok? <==> forall e :: e in files ==> UpdatesTo(run, tree, hunks, e)
    decreases |files|
  {
    hide Updated, SetItem;
    if files != [] {
      assert forall e :: e in files <==> e == files[0] || e in files[1..];
      var u := Updated(run, hunks, files[0], tree[Source(run, tree, files[0])]);
      if u.Ok? && run.sha256(u.value) == files[0].postimage {
        OutputsExistIff(run, tree, hunks, files[1..], SetItem(outputs, Source(run, tree, files[0]), u.value));
      } else {
        assert !UpdatesTo(run, tree, hunks, files[0]);
      }
    }
  }

  /** The file a path names is there and has the hash. */
  ghost predicate HasHash(run: Run, tree: Tree, relative: Path, hash: string) {
    match run.resolve(relative)
    case None => false
    case Some(path) => path in tree && run.sha256(tree[path]) == hash
  }

  ghost predicate Original(run: Run, tree: Tree) {
    forall e :: e in run.manifest.files ==> HasHash(run, tree, e.relative, e.preimage)
  }

  ghost predicate Final(run: Run, tree: Tree) {
    forall e :: e in run.manifest.files ==> HasHash(run, tree, e.relative, e.postimage)
  }

  lemma HashesIff(run: Run, tree: Tree)
    ensures Original(run, tree) <==> AllPresent(run, tree) && AllPreimage(run, tree)
    ensures Final(run, tree) <==> AllPresent(run, tree) && AllPostimage(run, tree)
  {
    if Original(run, tree) || Final(run, tree) {
      forall i | 0 <= i < |run.manifest.files| ensures Present(run, tree, run.manifest.files[i]) {
        assert run.manifest.files[i] in run.manifest.files;
      }
    }
    if AllPresent(run, tree) {
      forall e | e in run.manifest.files
        ensures Present(run, tree, e)
        ensures HasHash(run, tree, e.relative, e.preimage) <==> HashOf(run, tree, e) == e.preimage
        ensures HasHash(run, tree, e.relative, e.postimage) <==> HashOf(run, tree, e) == e.postimage
      {}
      assert forall i :: 0 <= i < |run.manifest.files| ==> run.manifest.files[i] in run.manifest.files;
    }
  }

  ghost predicate HexDigest(s: string) {
    |s| == 64 && forall c :: c in s ==> c in "0123456789abcdef"
  }

  lemma HexDigestIff(s: string)
    ensures IsSha256(s) <==> HexDigest(s)
  {
    if IsSha256(s) {
      forall c | c in s ensures c in "0123456789abcdef" { HexDigitIff(c); }
    } else if HexDigest(s) {
      forall i | 0 <= i < 64 ensures '0' <= s[i] <= '9' || 'a' <= s[i] <= 'f' {
        assert s[i] in s;
        HexDigitIff(s[i]);
      }
    }
  }

  lemma HexDigitIff(c: char)
    ensures c in "0123456789abcdef" <==> '0' <= c <= '9' || 'a' <= c <= 'f'
  {
    var digits := "0123456789abcdef";
    assert |digits| == 16;
    if '0' <= c <= '9' {
      assert digits[c as int - '0' as int] == c;
    } else if 'a' <= c <= 'f' {
      assert digits[c as int - 'a' as int + 10] == c;
    }
  }

  /** What check_inputs demands, field by field. */
  lemma InputsIff(run: Run)
    ensures CheckInputs(run) <==> (
      && run.expectedUrl != "" && run.manifest.url == run.expectedUrl
      && run.manifest.sha256 == run.expectedSha256 && HexDigest(run.expectedSha256)
      && run.patchSha256 != "" && run.manifest.patchSha256 == run.patchSha256 && run.manifest.files != []
      && forall e :: e in run.manifest.files ==> e.relative != "" && e.relative[0] != '/' && HexDigest(e.preimage) && HexDigest(e.postimage))
  {
    HexDigestIff(run.expectedSha256);
    forall e: Entry | true ensures CheckedFile(e) <==> e.relative != "" && e.relative[0] != '/' && HexDigest(e.preimage) && HexDigest(e.postimage) {
      HexDigestIff(e.preimage);
      HexDigestIff(e.postimage);
    }
    assert run.expectedSha256 == "" ==> !IsSha256(run.expectedSha256);
    hide HexDigest, IsSha256, CheckedFile;
    assert forall i :: 0 <= i < |run.manifest.files| ==> run.manifest.files[i] in run.manifest.files;
  }

  /** Any run that does not refuse was given inputs that check out and one of the two trees. */
  lemma NotRefused(run: Run, tree: Tree, verifyOnly: bool)
    requires Outcome(run, tree, verifyOnly).0 != ContractError
    ensures CheckInputs(run) && (Final(run, tree) || Original(run, tree))
  {
    HashesIff(run, tree);
    hide CheckInputs, Original, Final, HashOf, Present, Outputs, ParsedPatch;
  }

  /** Exactly when a run answers "postimage", "preimage" or refuses, in hashes of the files. */
  lemma AnswerIff(run: Run, tree: Tree, verifyOnly: bool)
    ensures Outcome(run, tree, verifyOnly).0 == Ok(Postimage) <==> CheckInputs(run) && Final(run, tree)
    ensures Outcome(run, tree, verifyOnly).0 == Ok(Preimage) <==> CheckInputs(run) && Original(run, tree) && !Final(run, tree) && verifyOnly
    ensures Outcome(run, tree, true).0 == ContractError <==> !CheckInputs(run) || (!Original(run, tree) && !Final(run, tree))
    ensures Outcome(run, tree, verifyOnly).0 == Ok(Patched) ==> !verifyOnly
  {
    HashesIff(run, tree);
    hide CheckInputs, Original, Final, HashOf, Present, Outputs, ParsedPatch, ChangedPaths;
  }

  /** A run patches exactly when the inputs check out, every file is present with its preimage
      hash, not all of them are patched already, the patch is read and names exactly the files
      that change, and every file's new content has its postimage hash. */
  lemma PatchedIff(run: Run, tree: Tree)
    ensures Outcome(run, tree, false).0 == Ok(Patched) <==> (
      && CheckInputs(run) && Original(run, tree) && !Final(run, tree) && ParsedPatch(run).Ok?
      && (forall p :: p in ParsedPatch(run).value <==> exists e :: e in run.manifest.files && e.relative == p && e.preimage != e.postimage)
      && forall e :: e in run.manifest.files ==> Present(run, tree, e) && UpdatesTo(run, tree, ParsedPatch(run).value, e))
  {
    HashesIff(run, tree);
    hide CheckInputs, ParsedPatch, UpdatesTo, AllPreimage, AllPostimage, Original, Final;
    assert forall p :: p in ChangedPaths(run.manifest.files) <==> exists e :: e in run.manifest.files && e.relative == p && e.preimage != e.postimage;
    hide ChangedPaths;
    if AllPresent(run, tree) && ParsedPatch(run).Ok? {
      PresentEntries(run, tree);
      OutputsExistIff(run, tree, ParsedPatch(run).value, run.manifest.files, []);
    }
    hide AllPresent, Present, Outputs;
  }

  /** From the text of a written patch to the run: with lines that stay lines it reaches the
      run section by section, or, with a line that reads as a file header, makes every run
      refuse or find nothing to do. */
  lemma WrittenPatchRuns(run: Run, tree: Tree, verifyOnly: bool, ss: seq<PatchSection>)
    requires run.patch == Some(PatchText(ss)) && WellFormed(run.header, ss, {}) && Kept(WriteSections(ss))
    ensures ReadableSections(ss) ==> ParsedPatch(run).Ok? && ParsedPatch(run).value.Keys == set s | s in SectionsOf(ss) :: s.relative
    ensures ReadableSections(ss) ==> forall s :: s in SectionsOf(ss) ==> s.relative in ParsedPatch(run).value && ParsedPatch(run).value[s.relative] == s.hunks
    ensures !ReadableSections(ss) ==> Outcome(run, tree, verifyOnly).0 != Ok(Patched)
  {
    hide WellFormed, ReadableSections, WriteSections, SectionsOf, ReadSections, PatchLines, Kept;
    PatchRoundTrip(run.header, ss, {});
    LinesReadBackIff(WriteSections(ss));
    if ReadableSections(ss) {
      EverySectionKept(run.header, WriteSections(ss), {}, SectionsOf(ss));
    }
    hide SectionMap, CheckInputs, AllPresent, AllPreimage, AllPostimage;
  }

  /** Keys of a dictionary: none twice. */
  predicate DistinctKeys(outputs: seq<(Path, Content)>) {
    forall a, b :: 0 <= a < b < |outputs| ==> outputs[a].0 != outputs[b].0
  }

  lemma {:induction false} SetItemShape(outputs: seq<(Path, Content)>, path: Path, data: Content)
    requires DistinctKeys(outputs)
    ensures var d := SetItem(outputs, path, data);
      && DistinctKeys(d) && (path, data) in d
      && (forall x :: x in d ==> x == (path, data) || x in outputs)
      && (forall x :: x in outputs && x.0 != path ==> x in d)
  {
    if outputs != [] {
      assert forall x :: x in outputs <==> x == outputs[0] || x in outputs[1..];
      KeysOfRest(outputs);
      hide DistinctKeys;
      if outputs[0].0 != path {
        SetItemShape(outputs[1..], path, data);
        KeysWithFirst(outputs[0], SetItem(outputs[1..], path, data));
      } else {
        KeysWithFirst((path, data), outputs[1..]);
      }
    }
  }

  lemma KeysOfRest(outputs: seq<(Path, Content)>)
    requires outputs != [] && DistinctKeys(outputs)
    ensures DistinctKeys(outputs[1..]) && forall x :: x in outputs[1..] ==> x.0 != outputs[0].0
  {
    forall a, b | 0 <= a < b < |outputs[1..]| ensures outputs[1..][a].0 != outputs[1..][b].0 {
      assert outputs[a + 1].0 != outputs[b + 1].0;
    }
  }

  lemma KeysWithFirst(first: (Path, Content), rest: seq<(Path, Content)>)
    requires DistinctKeys(rest) && forall x :: x in rest ==> x.0 != first.0
    ensures DistinctKeys([first] + rest) && forall x :: x in [first] + rest <==> x == first || x in rest
  {
    var d := [first] + rest;
    forall a, b | 0 <= a < b < |d| ensures d[a].0 != d[b].0 {
      if a == 0 { assert d[b] in rest; } else { assert d[a] == rest[a - 1] && d[b] == rest[b - 1]; }
    }
  }

  /** The output is the new content of an entry for its file. */
  predicate MadeBy(run: Run, tree: Tree, hunks: map<Path, seq<Hunk>>, e: Entry, x: (Path, Content)) {
    && Present(run, tree, e) && x.0 == Source(run, tree, e) && run.sha256(x.1) == e.postimage
    && Updated(run, hunks, e, tree[Source(run, tree, e)]) == Ok(x.1)
  }

  lemma {:induction false} OutputsShape(run: Run, tree: Tree, hunks: map<Path, seq<Hunk>>, files: seq<Entry>, before: seq<(Path, Content)>, outputs: seq<(Path, Content)>)
    requires (forall e :: e in files ==> Present(run, tree, e)) && DistinctKeys(before)
    requires Outputs(run, tree, hunks, files, before) == Ok(outputs)
    ensures DistinctKeys(outputs)
    ensures forall x :: x in outputs ==> x in before || exists e :: e in files && MadeBy(run, tree, hunks, e, x)
    ensures forall e :: e in files ==> exists x :: x in outputs && x.0 == Source(run, tree, e)
    ensures forall x :: x in before ==> exists y :: y in outputs && y.0 == x.0
    decreases |files|
  {
    hide Updated, SetItem, DistinctKeys;
    if files != [] {
      var e := files[0];
      var x := (Source(run, tree, e), Updated(run, hunks, e, tree[Source(run, tree, e)]).value);
      var next := SetItem(before, x.0, x.1);
      SetItemShape(before, x.0, x.1);
      assert MadeBy(run, tree, hunks, e, x);
      OutputsShape(run, tree, hunks, files[1..], next, outputs);
      assert forall f :: f in files <==> f == e || f in files[1..];
    }
  }

  function PathsOf(outputs: seq<(Path, Content)>): seq<Path> {
    if outputs == [] then [] else [outputs[0].0] + PathsOf(outputs[1..])
  }

  /** The files the entries name, added to those known in the order of their first mention. */
  function Mentioned(run: Run, known: seq<Path>, files: seq<Entry>): seq<Path>
    decreases |files|
  {
    if files == [] then known
    else
      match run.resolve(files[0].relative)
      case None => Mentioned(run, known, files[1..])
      case Some(path) => Mentioned(run, if path in known then known else known + [path], files[1..])
  }

  lemma {:induction false} SetItemPaths(outputs: seq<(Path, Content)>, path: Path, data: Content)
    ensures var known := PathsOf(outputs); PathsOf(SetItem(outputs, path, data)) == if path in known then known else known + [path]
    ensures forall x :: x in SetItem(outputs, path, data) ==> x == (path, data) || x in outputs
  {
    if outputs != [] {
      SetItemPaths(outputs[1..], path, data);
      assert PathsOf(outputs)[1..] == PathsOf(outputs[1..]);
      var d := SetItem(outputs, path, data);
      if outputs[0].0 == path {
        assert d[1..] == outputs[1..];
      } else {
        assert d[1..] == SetItem(outputs[1..], path, data);
      }
    }
  }

  /** Files are written in the order in which the manifest first names them. */
  lemma {:induction false} WriteOrder(run: Run, tree: Tree, hunks: map<Path, seq<Hunk>>, files: seq<Entry>, before: seq<(Path, Content)>, outputs: seq<(Path, Content)>)
    requires (forall e :: e in files ==> Present(run, tree, e)) && Outputs(run, tree, hunks, files, before) == Ok(outputs)
    ensures PathsOf(outputs) == Mentioned(run, PathsOf(before), files)
    decreases |files|
  {
    hide Updated, SetItem, PathsOf;
    if files != [] {
      var data := Updated(run, hunks, files[0], tree[Source(run, tree, files[0])]).value;
      SetItemPaths(before, Source(run, tree, files[0]), data);
      WriteOrder(run, tree, hunks, files[1..], SetItem(before, Source(run, tree, files[0]), data), outputs);
    }
  }

  /** Of several entries for one file the last one makes its output. */
  ghost predicate LastMakes(run: Run, tree: Tree, hunks: map<Path, seq<Hunk>>, files: seq<Entry>, i: nat, x: (Path, Content)) {
    i < |files| && MadeBy(run, tree, hunks, files[i], x) && forall j :: i < j < |files| ==> run.resolve(files[j].relative) != Some(x.0)
  }

  lemma {:induction false} LastEntryMakes(run: Run, tree: Tree, hunks: map<Path, seq<Hunk>>, files: seq<Entry>, before: seq<(Path, Content)>, outputs: seq<(Path, Content)>, x: (Path, Content))
    requires (forall e :: e in files ==> Present(run, tree, e)) && DistinctKeys(before)
    requires Outputs(run, tree, hunks, files, before) == Ok(outputs) && x in outputs
    ensures (x in before && forall j :: 0 <= j < |files| ==> run.resolve(files[j].relative) != Some(x.0)) || exists i :: LastMakes(run, tree, hunks, files, i, x)
    decreases |files|
  {
    hide Updated, SetItem;
    if files != [] {
      var e, rest := files[0], files[1..];
      var made := (Source(run, tree, e), Updated(run, hunks, e, tree[Source(run, tree, e)]).value);
      var next := SetItem(before, made.0, made.1);
      SetItemShape(before, made.0, made.1);
      LastEntryMakes(run, tree, hunks, rest, next, outputs, x);
      assert forall j :: 0 < j < |files| ==> files[j] == rest[j - 1];
      if i: nat :| LastMakes(run, tree, hunks, rest, i, x) {
        assert LastMakes(run, tree, hunks, files, i + 1, x);
      } else if x == made {
        assert MadeBy(run, tree, hunks, files[0], x);
        assert LastMakes(run, tree, hunks, files, 0, x);
      } else {
        OneValue(next, x, made);
      }
    }
  }

  lemma OneValue(outputs: seq<(Path, Content)>, x: (Path, Content), y: (Path, Content))
    requires DistinctKeys(outputs) && x in outputs && y in outputs && x != y
    ensures x.0 != y.0
  {
    var a :| 0 <= a < |outputs| && outputs[a] == x;
    var b :| 0 <= b < |outputs| && outputs[b] == y;
    assert a < b || b < a;
  }

  /** What Decide settled when it is time to write: one output a file, by an entry for it. */
  ghost predicate Planned(run: Run, tree: Tree, outputs: seq<(Path, Content)>) {
    && AllPresent(run, tree) && DistinctKeys(outputs)
    && (forall i :: 0 <= i < |run.manifest.files| ==> EntryPlanned(run, tree, outputs, i))
    && (forall b :: 0 <= b < |outputs| ==> OutputPlanned(run, tree, outputs[b]))
  }

  ghost predicate EntryPlanned(run: Run, tree: Tree, outputs: seq<(Path, Content)>, i: nat)
    requires AllPresent(run, tree) && i < |run.manifest.files|
  {
    var e := run.manifest.files[i];
    HashOf(run, tree, e) == e.preimage && exists b :: 0 <= b < |outputs| && outputs[b].0 == Source(run, tree, e)
  }

  ghost predicate OutputPlanned(run: Run, tree: Tree, x: (Path, Content))
    requires AllPresent(run, tree)
  {
    exists i :: 0 <= i < |run.manifest.files| && Makes(run, tree, i, x)
  }

  /** The entry accounts for the output; one that changes nothing leaves the file as it is. */
  predicate Makes(run: Run, tree: Tree, i: nat, x: (Path, Content))
    requires AllPresent(run, tree) && i < |run.manifest.files|
  {
    var e := run.manifest.files[i];
    x.0 == Source(run, tree, e) && run.sha256(x.1) == e.postimage && (e.preimage == e.postimage ==> x.1 == tree[x.0])
  }

  lemma WhenDecided(run: Run, tree: Tree, outputs: seq<(Path, Content)>)
    requires Decide(run, tree, false) == WriteOut(outputs)
    ensures AllPresent(run, tree) && AllPreimage(run, tree) && !AllPostimage(run, tree) && CheckInputs(run)
    ensures ParsedPatch(run).Ok? && ParsedPatch(run).value.Keys == ChangedPaths(run.manifest.files)
    ensures (forall e :: e in run.manifest.files ==> Present(run, tree, e)) && Outputs(run, tree, ParsedPatch(run).value, run.manifest.files, []) == Ok(outputs)
  {
    hide CheckInputs, ParsedPatch, Outputs, ChangedPaths, AllPreimage, AllPostimage;
  }

  lemma MadeIsMakes(run: Run, tree: Tree, hunks: map<Path, seq<Hunk>>, i: nat, x: (Path, Content))
    requires DistinctPaths(run) && AllPresent(run, tree) && i < |run.manifest.files| && hunks.Keys == ChangedPaths(run.manifest.files)
    requires MadeBy(run, tree, hunks, run.manifest.files[i], x)
    ensures Makes(run, tree, i, x)
  {
    hide Updated, ChangedPaths, DistinctPaths, AllPresent;
    var e := run.manifest.files[i];
    if e.preimage == e.postimage {
      UnchangedPath(run, i);
      UnnamedStays(run, hunks, e, tree[Source(run, tree, e)]);
    }
  }

  lemma EveryMakes(run: Run, tree: Tree, hunks: map<Path, seq<Hunk>>, x: (Path, Content))
    requires DistinctPaths(run) && AllPresent(run, tree) && hunks.Keys == ChangedPaths(run.manifest.files)
    requires exists e :: e in run.manifest.files && MadeBy(run, tree, hunks, e, x)
    ensures OutputPlanned(run, tree, x)
  {
    hide ChangedPaths, DistinctPaths, AllPresent, Makes, MadeBy;
    var e :| e in run.manifest.files && MadeBy(run, tree, hunks, e, x);
    var i :| 0 <= i < |run.manifest.files| && run.manifest.files[i] == e;
    MadeIsMakes(run, tree, hunks, i, x);
  }

  lemma EveryReached(run: Run, tree: Tree, outputs: seq<(Path, Content)>, i: nat)
    requires AllPresent(run, tree) && AllPreimage(run, tree) && i < |run.manifest.files|
    requires exists x :: x in outputs && x.0 == Source(run, tree, run.manifest.files[i])
    ensures EntryPlanned(run, tree, outputs, i)
  {
    var x :| x in outputs && x.0 == Source(run, tree, run.manifest.files[i]);
  }

  lemma DecidedIsPlanned(run: Run, tree: Tree, outputs: seq<(Path, Content)>)
    requires DistinctPaths(run) && Decide(run, tree, false) == WriteOut(outputs)
    ensures Planned(run, tree, outputs)
  {
    hide Decide, CheckInputs, ParsedPatch, DistinctKeys, DistinctPaths, Updated, ChangedPaths, Outputs, MadeBy, Makes, HashOf, AllPresent, AllPreimage,
      AllPostimage, Present, EntryPlanned, OutputPlanned;
    WhenDecided(run, tree, outputs);
    var files, hunks := run.manifest.files, ParsedPatch(run).value;
    NoKeys();
    OutputsShape(run, tree, hunks, files, [], outputs);
    forall b | 0 <= b < |outputs| ensures OutputPlanned(run, tree, outputs[b]) {
      assert outputs[b] in outputs;
      EveryMakes(run, tree, hunks, outputs[b]);
    }
    forall i | 0 <= i < |files| ensures EntryPlanned(run, tree, outputs, i) {
      assert files[i] in files;
      EveryReached(run, tree, outputs, i);
    }
  }

  lemma NoKeys()
    ensures DistinctKeys([])
  {}

  lemma UnnamedStays(run: Run, hunks: map<Path, seq<Hunk>>, e: Entry, original: Content)
    requires e.relative !in hunks
    ensures Updated(run, hunks, e, original) == Ok(original)
  {}

  lemma UnchangedPath(run: Run, i: nat)
    requires DistinctPaths(run) && i < |run.manifest.files| && run.manifest.files[i].preimage == run.manifest.files[i].postimage
    ensures run.manifest.files[i].relative !in ChangedPaths(run.manifest.files)
  {
    var files := run.manifest.files;
    forall e | e in files && e.relative == files[i].relative ensures e == files[i] {
      var j :| 0 <= j < |files| && files[j] == e;
      assert j == i;
    }
  }

  lemma {:induction false} Elsewhere(tree: Tree, outputs: seq<(Path, Content)>, k: nat, p: Path)
    requires k <= |outputs| && p in tree && forall j :: 0 <= j < k ==> outputs[j].0 != p
    ensures p in Write(tree, outputs[..k]) && Write(tree, outputs[..k])[p] == tree[p]
    decreases k
  {
    if k > 0 {
      WriteOne(tree, outputs, k - 1);
      Elsewhere(tree, outputs, k - 1, p);
    }
  }

  lemma {:induction false} SamePaths(tree: Tree, outputs: seq<(Path, Content)>, k: nat)
    requires k <= |outputs| && forall j :: 0 <= j < k ==> outputs[j].0 in tree
    ensures Write(tree, outputs[..k]).Keys == tree.Keys
    decreases k
  {
    if k > 0 {
      WriteOne(tree, outputs, k - 1);
      SamePaths(tree, outputs, k - 1);
    }
  }

  /** After k atomic writes each file of the outputs has its new content or its original. */
  lemma FileAfter(run: Run, tree: Tree, outputs: seq<(Path, Content)>, k: nat, b: nat)
    requires Planned(run, tree, outputs) && k <= |outputs| && b < |outputs|
    ensures AllPresent(run, Write(tree, outputs[..k])) && Write(tree, outputs[..k]).Keys == tree.Keys
    ensures Write(tree, outputs[..k])[outputs[b].0] == if b < k then outputs[b].1 else tree[outputs[b].0]
  {
    forall c | 0 <= c < |outputs| ensures outputs[c].0 in tree { PlannedAt(run, tree, outputs, c); }
    SamePaths(tree, outputs, k);
    assert forall c :: 0 <= c < |outputs| && c != b ==> outputs[c].0 != outputs[b].0;
    hide EntryPlanned, OutputPlanned, DistinctKeys;
    assert AllPresent(run, Write(tree, outputs[..k]));
    hide Planned, AllPresent;
    if k <= b {
      Elsewhere(tree, outputs, k, outputs[b].0);
    } else {
      AfterItsWrite(tree, outputs, k, b);
    }
  }

  lemma {:induction false} AfterItsWrite(tree: Tree, outputs: seq<(Path, Content)>, k: nat, i: nat)
    requires i < k <= |outputs| && forall j :: i < j < k ==> outputs[j].0 != outputs[i].0
    ensures outputs[i].0 in Write(tree, outputs[..k]) && Write(tree, outputs[..k])[outputs[i].0] == outputs[i].1
    decreases k
  {
    WriteOne(tree, outputs, k - 1);
    if i < k - 1 { AfterItsWrite(tree, outputs, k - 1, i); }
  }

  /** The output is not what the file held. */
  predicate Changed(run: Run, tree: Tree, outputs: seq<(Path, Content)>, b: nat) {
    b < |outputs| && outputs[b].0 in tree && run.sha256(tree[outputs[b].0]) != run.sha256(outputs[b].1)
  }

  /** The hunks are in order and do not overlap. */
  ghost predicate Ordered(hunks: seq<Hunk>) {
    Ascending(hunks, if hunks == [] then 0 else Position(hunks[0]))
  }

  /** A file the patch does not name is left as it is; one it names is a text that has every old
      side in its place, and gets all new sides at once. */
  ghost predicate Rewritten(run: Run, hunks: map<Path, seq<Hunk>>, e: Entry, before: Content, after: Content) {
    run.sha256(after) == e.postimage &&
    if e.relative !in hunks then after == before
    else before.Text? && after.Text? && (Ordered(hunks[e.relative]) ==>
      var lines := SplitLines(before.text);
      var placed := Placed(|lines|, 0, hunks[e.relative]);
      AllOccur(lines, placed) && Ascending(placed, 0) && after.text == Join(Simultaneous(lines, 0, placed)))
  }

  lemma MadeIsRewritten(run: Run, tree: Tree, hunks: map<Path, seq<Hunk>>, e: Entry, x: (Path, Content))
    requires MadeBy(run, tree, hunks, e, x)
    ensures Rewritten(run, hunks, e, tree[x.0], x.1)
  {
    hide SplitLines, Join, AllOccur, Ascending, Simultaneous, Placed;
    if e.relative in hunks && Ordered(hunks[e.relative]) {
      SpliceIsSimultaneous(SplitLines(tree[x.0].text), hunks[e.relative]);
    }
  }

  /** The last entry of the manifest that names the file. */
  ghost predicate LastNames(run: Run, i: int, p: Path) {
    && 0 <= i < |run.manifest.files| && run.resolve(run.manifest.files[i].relative) == Some(p)
    && forall j :: i < j < |run.manifest.files| ==> run.resolve(run.manifest.files[j].relative) != Some(p)
  }

  /** What a "patched" run leaves: each controlled file as rewritten for the last entry that
      names it, every other file as it was. */
  lemma PatchedFiles(run: Run, tree: Tree, outputs: seq<(Path, Content)>, p: Path)
    requires DistinctPaths(run) && Decide(run, tree, false) == WriteOut(outputs) && p in tree
    ensures var final := Write(tree, outputs);
      p in final && if exists e :: e in run.manifest.files && run.resolve(e.relative) == Some(p)
        then exists i :: LastNames(run, i, p) && Rewritten(run, ParsedPatch(run).value, run.manifest.files[i], tree[p], final[p])
        else final[p] == tree[p]
  {
    DecidedIsPlanned(run, tree, outputs);
    WhenDecided(run, tree, outputs);
    assert outputs[..|outputs|] == outputs;
    hide Decide, CheckInputs, ParsedPatch, Outputs, ChangedPaths, DistinctPaths, Rewritten, Updated, AllPreimage, AllPostimage, HashOf, LastNames, OutputPlanned, Makes, DistinctKeys;
    if b :| 0 <= b < |outputs| && outputs[b].0 == p {
      FileAfter(run, tree, outputs, |outputs|, b);
      hide Planned, AllPresent, Write;
      var i := OutputRewritten(run, tree, outputs, b);
      assert run.manifest.files[i] in run.manifest.files && run.resolve(run.manifest.files[i].relative) == Some(p) by { LastNamesHere(run, i, p); }
    } else {
      Elsewhere(tree, outputs, |outputs|, p);
      forall e | e in run.manifest.files ensures run.resolve(e.relative) != Some(p) {
        var i :| 0 <= i < |run.manifest.files| && run.manifest.files[i] == e;
        assert EntryPlanned(run, tree, outputs, i);
      }
    }
  }

  lemma LastNamesHere(run: Run, i: int, p: Path)
    requires LastNames(run, i, p)
    ensures 0 <= i < |run.manifest.files| && run.resolve(run.manifest.files[i].relative) == Some(p)
  {}

  lemma OutputRewritten(run: Run, tree: Tree, outputs: seq<(Path, Content)>, b: nat) returns (i: nat)
    requires Decide(run, tree, false) == WriteOut(outputs) && b < |outputs|
    ensures ParsedPatch(run).Ok? && outputs[b].0 in tree && LastNames(run, i, outputs[b].0)
    ensures Rewritten(run, ParsedPatch(run).value, run.manifest.files[i], tree[outputs[b].0], outputs[b].1)
  {
    WhenDecided(run, tree, outputs);
    NoKeys();
    hide Decide, CheckInputs, ParsedPatch, Outputs, ChangedPaths, Rewritten, MadeBy, Updated, AllPreimage, AllPostimage, HashOf, DistinctKeys, AllPresent;
    assert outputs[b] in outputs;
    LastEntryMakes(run, tree, ParsedPatch(run).value, run.manifest.files, [], outputs, outputs[b]);
    i :| LastMakes(run, tree, ParsedPatch(run).value, run.manifest.files, i, outputs[b]);
    MadeIsRewritten(run, tree, ParsedPatch(run).value, run.manifest.files[i], outputs[b]);
    MadeHere(run, tree, ParsedPatch(run).value, run.manifest.files[i], outputs[b]);
  }

  /** ... and the writes come in the order in which the manifest first names the files. */
  lemma WrittenInOrder(run: Run, tree: Tree, outputs: seq<(Path, Content)>)
    requires Decide(run, tree, false) == WriteOut(outputs)
    ensures PathsOf(outputs) == Mentioned(run, [], run.manifest.files)
  {
    WhenDecided(run, tree, outputs);
    hide Decide, CheckInputs, ParsedPatch, Outputs, ChangedPaths, Mentioned, AllPreimage, AllPostimage, AllPresent;
    WriteOrder(run, tree, ParsedPatch(run).value, run.manifest.files, [], outputs);
  }

  lemma MadeHere(run: Run, tree: Tree, hunks: map<Path, seq<Hunk>>, e: Entry, x: (Path, Content))
    requires MadeBy(run, tree, hunks, e, x)
    ensures run.resolve(e.relative) == Some(x.0) && x.0 in tree
  {}

  /** Some of the first k writes changed its file. */
  predicate SomeWritten(run: Run, tree: Tree, outputs: seq<(Path, Content)>, k: nat) {
    exists b :: 0 <= b < |outputs| && b < k && Changed(run, tree, outputs, b)
  }

  /** Some file that changes has not been written after k writes. */
  predicate SomeLeft(run: Run, tree: Tree, outputs: seq<(Path, Content)>, k: nat) {
    exists b :: 0 <= b < |outputs| && k <= b && Changed(run, tree, outputs, b)
  }

  lemma PlannedAt(run: Run, tree: Tree, outputs: seq<(Path, Content)>, b: nat)
    requires Planned(run, tree, outputs) && b < |outputs|
    ensures outputs[b].0 in tree && (!Changed(run, tree, outputs, b) ==> outputs[b].1 == tree[outputs[b].0])
  {
    hide DistinctKeys;
    assert OutputPlanned(run, tree, outputs[b]);
    var i :| 0 <= i < |run.manifest.files| && Makes(run, tree, i, outputs[b]);
    assert EntryPlanned(run, tree, outputs, i);
  }

  /** Two trees reached by k and l writes agree if no changed file was written in between. */
  lemma SameTrees(run: Run, tree: Tree, outputs: seq<(Path, Content)>, k: nat, l: nat)
    requires Planned(run, tree, outputs) && k <= l <= |outputs|
    requires forall b :: 0 <= b < |outputs| && k <= b < l ==> !Changed(run, tree, outputs, b)
    ensures Write(tree, outputs[..k]) == Write(tree, outputs[..l])
  {
    hide Planned;
    var a, c := Write(tree, outputs[..k]), Write(tree, outputs[..l]);
    forall j | 0 <= j < |outputs| ensures outputs[j].0 in tree { PlannedAt(run, tree, outputs, j); }
    SamePaths(tree, outputs, k);
    SamePaths(tree, outputs, l);
    forall p | p in tree ensures a[p] == c[p] {
      if b :| 0 <= b < |outputs| && outputs[b].0 == p {
        PlannedAt(run, tree, outputs, b);
        FileAfter(run, tree, outputs, k, b);
        FileAfter(run, tree, outputs, l, b);
      } else {
        Elsewhere(tree, outputs, k, p);
        Elsewhere(tree, outputs, l, p);
      }
    }
  }

  /** The output for a manifest entry's file. */
  ghost predicate OutputOf(run: Run, tree: Tree, outputs: seq<(Path, Content)>, i: nat, b: nat) {
    && i < |run.manifest.files| && b < |outputs| && Present(run, tree, run.manifest.files[i])
    && outputs[b].0 == Source(run, tree, run.manifest.files[i])
  }

  /** Its hashes before and after, when the manifest agrees with itself. */
  lemma OutputHashes(run: Run, tree: Tree, outputs: seq<(Path, Content)>, i: nat, b: nat)
    requires Planned(run, tree, outputs) && Consistent(run) && OutputOf(run, tree, outputs, i, b)
    ensures var e := run.manifest.files[i];
      outputs[b].0 in tree && run.sha256(tree[outputs[b].0]) == e.preimage && run.sha256(outputs[b].1) == e.postimage
  {
    hide DistinctKeys;
    assert OutputPlanned(run, tree, outputs[b]);
    var j :| 0 <= j < |run.manifest.files| && Makes(run, tree, j, outputs[b]);
    assert EntryPlanned(run, tree, outputs, i);
    assert SameFile(run, i, j);
  }

  lemma OutputFound(run: Run, tree: Tree, outputs: seq<(Path, Content)>, i: nat) returns (b: nat)
    requires Planned(run, tree, outputs) && i < |run.manifest.files|
    ensures OutputOf(run, tree, outputs, i, b)
  {
    hide DistinctKeys, Makes, HashOf;
    assert EntryPlanned(run, tree, outputs, i);
    b :| 0 <= b < |outputs| && outputs[b].0 == Source(run, tree, run.manifest.files[i]);
  }

  lemma EntryFound(run: Run, tree: Tree, outputs: seq<(Path, Content)>, b: nat) returns (i: nat)
    requires Planned(run, tree, outputs) && b < |outputs|
    ensures OutputOf(run, tree, outputs, i, b)
  {
    hide DistinctKeys, HashOf;
    assert OutputPlanned(run, tree, outputs[b]);
    i :| 0 <= i < |run.manifest.files| && Makes(run, tree, i, outputs[b]);
  }

  /** Hash of a controlled file after k writes. */
  lemma HashAfter(run: Run, tree: Tree, outputs: seq<(Path, Content)>, k: nat, i: nat, b: nat)
    requires Planned(run, tree, outputs) && Consistent(run) && OutputOf(run, tree, outputs, i, b) && k <= |outputs|
    ensures AllPresent(run, Write(tree, outputs[..k])) && Present(run, Write(tree, outputs[..k]), run.manifest.files[i])
    ensures HashOf(run, Write(tree, outputs[..k]), run.manifest.files[i]) ==
      if b < k then run.manifest.files[i].postimage else run.manifest.files[i].preimage
  {
    FileAfter(run, tree, outputs, k, b);
    OutputHashes(run, tree, outputs, i, b);
    hide Planned, Consistent, Write;
  }

  /** A crash after k of the atomic writes, and a rerun, under a manifest that agrees with
      itself. If no changed file was written the tree is as before and the rerun completes; if
      all were, it is already the final tree and the rerun reports "postimage"; otherwise the
      rerun refuses without writing. */
  lemma CrashRerun(run: Run, tree: Tree, outputs: seq<(Path, Content)>, k: nat)
    requires DistinctPaths(run) && Consistent(run) && Decide(run, tree, false) == WriteOut(outputs) && k <= |outputs|
    ensures var mid := Write(tree, outputs[..k]);
      && (!SomeWritten(run, tree, outputs, k) ==> mid == tree && Outcome(run, mid, false) == (Ok(Patched), Write(tree, outputs)))
      && (!SomeLeft(run, tree, outputs, k) ==> mid == Write(tree, outputs) && Outcome(run, mid, false) == (Ok(Postimage), mid))
      && (SomeWritten(run, tree, outputs, k) && SomeLeft(run, tree, outputs, k) ==> Outcome(run, mid, false) == (ContractError, mid))
      && (SomeWritten(run, tree, outputs, |outputs|) && !SomeLeft(run, tree, outputs, |outputs|))
  {
    DecidedIsPlanned(run, tree, outputs);
    var mid, files := Write(tree, outputs[..k]), run.manifest.files;
    assert CheckInputs(run) && !AllPostimage(run, tree);
    assert outputs[..0] == [] && outputs[..|outputs|] == outputs;
    hide CheckInputs, Outputs, ChangedPaths, Planned, Consistent, DistinctPaths, HashOf, Changed;
    SomethingChanges(run, tree, outputs);
    MidPresent(run, tree, outputs, k);
    if !SomeWritten(run, tree, outputs, k) {
      SameTrees(run, tree, outputs, 0, k);
    } else if !SomeLeft(run, tree, outputs, k) {
      SameTrees(run, tree, outputs, k, |outputs|);
      LastWritten(run, tree, outputs, k);
    } else {
      MixedHashes(run, tree, outputs, k);
    }
  }

  lemma MidPresent(run: Run, tree: Tree, outputs: seq<(Path, Content)>, k: nat)
    requires Planned(run, tree, outputs) && k <= |outputs|
    ensures AllPresent(run, Write(tree, outputs[..k]))
  {
    if |outputs| > 0 {
      FileAfter(run, tree, outputs, k, 0);
    } else {
      hide EntryPlanned, OutputPlanned, DistinctKeys;
    }
  }

  lemma SomethingChanges(run: Run, tree: Tree, outputs: seq<(Path, Content)>)
    requires Planned(run, tree, outputs) && Consistent(run) && AllPresent(run, tree) && !AllPostimage(run, tree)
    ensures SomeWritten(run, tree, outputs, |outputs|)
  {
    var i :| 0 <= i < |run.manifest.files| && HashOf(run, tree, run.manifest.files[i]) != run.manifest.files[i].postimage;
    hide Planned, Consistent;
    var b := OutputFound(run, tree, outputs, i);
    OutputHashes(run, tree, outputs, i, b);
    assert Changed(run, tree, outputs, b);
  }

  lemma LastWritten(run: Run, tree: Tree, outputs: seq<(Path, Content)>, k: nat)
    requires Planned(run, tree, outputs) && Consistent(run) && k <= |outputs| && !SomeLeft(run, tree, outputs, k)
    ensures AllPresent(run, Write(tree, outputs[..k])) && AllPostimage(run, Write(tree, outputs[..k]))
  {
    hide Planned, Consistent, Write, HashOf;
    MidPresent(run, tree, outputs, k);
    forall i | 0 <= i < |run.manifest.files| ensures HashOf(run, Write(tree, outputs[..k]), run.manifest.files[i]) == run.manifest.files[i].postimage {
      var b := OutputFound(run, tree, outputs, i);
      HashAfter(run, tree, outputs, k, i, b);
      OutputHashes(run, tree, outputs, i, b);
      assert k <= b ==> !Changed(run, tree, outputs, b);
    }
  }

  lemma MixedHashes(run: Run, tree: Tree, outputs: seq<(Path, Content)>, k: nat)
    requires Planned(run, tree, outputs) && Consistent(run) && k <= |outputs|
    requires SomeWritten(run, tree, outputs, k) && SomeLeft(run, tree, outputs, k)
    ensures AllPresent(run, Write(tree, outputs[..k])) && !AllPostimage(run, Write(tree, outputs[..k])) && !AllPreimage(run, Write(tree, outputs[..k]))
  {
    hide Planned, Consistent, Write, HashOf;
    var b :| 0 <= b < |outputs| && b < k && Changed(run, tree, outputs, b);
    var c :| 0 <= c < |outputs| && k <= c && Changed(run, tree, outputs, c);
    var i := EntryFound(run, tree, outputs, b);
    var j := EntryFound(run, tree, outputs, c);
    HashAfter(run, tree, outputs, k, i, b);
    HashAfter(run, tree, outputs, k, j, c);
    OutputHashes(run, tree, outputs, i, b);
    OutputHashes(run, tree, outputs, j, c);
  }

  /** A "patched" run is followed by "postimage" if and only if paths of the manifest that
      resolve to one file agree on its postimage. */
  lemma PatchedThenPostimageIff(run: Run, tree: Tree, outputs: seq<(Path, Content)>)
    requires DistinctPaths(run) && Decide(run, tree, false) == WriteOut(outputs)
    ensures Outcome(run, Write(tree, outputs), false).0 == Ok(Postimage) <==> Consistent(run)
  {
    var final := Write(tree, outputs);
    assert outputs[..|outputs|] == outputs;
    if Consistent(run) {
      CrashRerun(run, tree, outputs, |outputs|);
      hide Decide, Consistent;
    } else if Outcome(run, final, false).0 == Ok(Postimage) {
      hide CheckInputs, Outputs, ChangedPaths, ParsedPatch;
      assert AllPresent(run, final) && AllPostimage(run, final);
      PostimagesAgree(run, final);
      assert false;
    }
  }

  lemma PostimagesAgree(run: Run, tree: Tree)
    requires AllPresent(run, tree) && AllPostimage(run, tree)
    ensures Consistent(run)
  {
    forall i, j | SameFile(run, i, j)
      ensures run.manifest.files[i].postimage == run.manifest.files[j].postimage
    {
      assert HashOf(run, tree, run.manifest.files[i]) == HashOf(run, tree, run.manifest.files[j]);
    }
  }

  // ------------------------------------------------------------ one file, two paths

  function Digits(c: char): string { seq(64, _ => c) }

  const ZEROS := Digits('0')
  const ONES := Digits('1')

  lemma TwoHashes()
    ensures IsSha256(ZEROS) && IsSha256(ONES) && ZEROS != ONES && ZEROS != ""
  {
    assert ZEROS[0] != ONES[0];
  }

  const ONE_HUNK := Hunk(1, [Removed("x\n"), Added("y\n")])

  /** The path "./a.c" names the file of "a.c" and is to stay as it is. */
  function AliasRun(): Run {
    Run(c => if c == Text("x\n") then ZEROS else ONES, (p: Path) => Some("a.c"),
        Manifest("url", ZEROS, ZEROS, [Entry("a.c", ZEROS, ONES), Entry("./a.c", ZEROS, ZEROS)]), "url", ZEROS, ZEROS,
        OneHeader, Some(PatchText(OnePatch("a.c", ONE_LINE, ONE_HUNK))))
  }

  const ALIAS_TREE: Tree := map["a.c" := Text("x\n")]

  lemma AliasManifest()
    ensures CheckInputs(AliasRun()) && DistinctPaths(AliasRun()) && !Consistent(AliasRun()) && ChangedPaths(AliasRun().manifest.files) == {"a.c"}
  {
    hide IsSha256, PatchText;
    var run := AliasRun();
    TwoHashes();
    hide Digits;
    assert SameFile(run, 0, 1);
    assert run.manifest.files[0] in run.manifest.files;
  }

  lemma HunkWritten()
    ensures WriteBody(ONE_HUNK.lines) == ["-x\n", "+y\n"] && OldSide(ONE_HUNK.lines) == ["x\n"] && NewSide(ONE_HUNK.lines) == ["y\n"]
    ensures WholeLine("-x\n") && WholeLine("+y\n") && forall l :: l in ONE_HUNK.lines ==> Readable(l)
  {
    var ls, last := ONE_HUNK.lines, [Added("y\n")];
    assert ls[1..] == last && last[1..] == [];
    assert WriteBody(last) == ["+" + "y\n"] + [] && WriteBody(ls) == ["-" + "x\n"] + WriteBody(last);
    assert OldSide(last) == [] + [] && NewSide(last) == ["y\n"] + [];
    assert "+" + "y\n" == "+y\n" && "-" + "x\n" == "-x\n";
  }

  lemma AliasPatch()
    ensures ReadText(OneHeader, PatchText(OnePatch("a.c", ONE_LINE, ONE_HUNK))) == Ok([Section("a.c", [ONE_HUNK])])
  {
    hide ReadText, PatchText, SectionsOf, WellFormed, WriteSections, WriteBody, Readable, Clean, Ended, OldSide, NewSide, Boundary;
    var patch := OnePatch("a.c", ONE_LINE, ONE_HUNK);
    HunkWritten();
    OneWellFormed(OneHeader, "a.c", ONE_LINE, ONE_HUNK, 1, 1);
    OneWritten("a.c", ONE_LINE, ONE_HUNK);
    HeaderLineWhole();
    PathLinesWhole("a.c");
    TextRoundTripIff(OneHeader, patch);
  }

  lemma AliasParsed()
    ensures ParsedPatch(AliasRun()) == Ok(map["a.c" := [ONE_HUNK]])
  {
    hide ReadText, PatchText;
    AliasPatch();
    var sections := [Section("a.c", [ONE_HUNK])];
    assert SectionMap(sections[1..]) == map[];
  }

  lemma AliasUpdates()
    ensures SplitLines("x\n") == ["x\n"] && Running(["x\n"], 0, [ONE_HUNK]) == Ok(["y\n"]) && Join(["y\n"]) == "y\n"
  {
    HunkWritten();
    hide WriteBody, OldSide, NewSide, WholeLine;
    var x, y := "x\n", "y\n";
    assert x[1..] == "\n" && FirstLine("\n") == 1;
    assert FirstLine(x) == 2 && x[..2] == x && x[2..] == "" && SplitLines("") == [];
    assert SplitLines(x) == [x[..2]] + SplitLines(x[2..]);
    assert [ONE_HUNK][1..] == [] && [y][1..] == [];
    assert [x][..0] + [y] + [x][1..] == [y];
    assert Join([y]) == y + Join([]) && y + "" == y;
  }

  lemma AliasOutputs(run: Run)
    requires run == AliasRun()
    ensures (forall e :: e in run.manifest.files ==> Present(run, ALIAS_TREE, e))
    ensures Outputs(run, ALIAS_TREE, map["a.c" := [ONE_HUNK]], run.manifest.files, []) == Ok([("a.c", Text("x\n"))])
  {
    hide PatchText, SplitLines, Running, Join;
    AliasUpdates();
    TwoHashes();
    hide Digits;
    var files := run.manifest.files;
    var hunks, x, y := map["a.c" := [ONE_HUNK]], Text("x\n"), Text("y\n");
    var last := [Entry("./a.c", ZEROS, ZEROS)];
    assert files[1..] == last && last[1..] == [];
    assert Updated(run, hunks, files[0], x) == Ok(y) && Updated(run, hunks, last[0], x) == Ok(x);
    assert SetItem([], "a.c", y) == [("a.c", y)] && SetItem([("a.c", y)], "a.c", x) == [("a.c", x)] by { assert [("a.c", y)][1..] == []; }
    assert Outputs(run, ALIAS_TREE, hunks, last, [("a.c", y)]) == Outputs(run, ALIAS_TREE, hunks, [], [("a.c", x)]);
  }

  lemma AliasHashes(run: Run)
    requires run == AliasRun()
    ensures AllPresent(run, ALIAS_TREE) && AllPreimage(run, ALIAS_TREE) && !AllPostimage(run, ALIAS_TREE)
  {
    hide PatchText;
    TwoHashes();
    hide Digits;
    assert HashOf(run, ALIAS_TREE, run.manifest.files[0]) == ZEROS;
  }

  /** That run says "patched", leaves the file as it was, and will say so again. */
  lemma AliasedPathsPatchAgain()
    ensures !Consistent(AliasRun()) && Outcome(AliasRun(), ALIAS_TREE, false) == (Ok(Patched), ALIAS_TREE)
  {
    hide CheckInputs, AllPresent, AllPreimage, AllPostimage, ParsedPatch, ChangedPaths, Outputs, Consistent, DistinctPaths, PatchText;
    var run := AliasRun();
    AliasManifest();
    AliasParsed();
    AliasOutputs(run);
    AliasHashes(run);
    assert map["a.c" := [ONE_HUNK]].Keys == {"a.c"};
    hide AliasRun;
    var written := [("a.c", Text("x\n"))];
    assert Write(ALIAS_TREE, written) == ALIAS_TREE by { assert written[1..] == []; }
  }
}
