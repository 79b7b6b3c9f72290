/** The Record Processor: the loop of `extract_scripts` over the decoded
    records, which opens a folder for each marker record and writes each
    script record into the folder opened last. */
module Extract {
  import opened Results
  import opened Text
  import opened Newlines
  import opened Sanitize
  import opened Script
  import opened Files

  /** The glyph of a flat folder marker, `▼`. */
  const FlatGlyph: char := '\U{25BC}'
  /** The glyph of a nested folder marker, `■`. */
  const NestedGlyph: char := '\U{25A0}'

  /** One decoded record: identifier, title (`None` for a nil title) and code. */
  datatype Record = Record(id: int, name: Option<string>, code: Content)

  /** What the run depends on besides the records: the output directory,
      the UTF-8 codec, the line boundaries of `splitlines`, and which record
      indices the system refuses to write. */
  datatype Env = Env(root: Path, decode: seq<byte> -> string, breaks: set<char>, refused: nat -> bool)

  datatype Marker = Flat | Nested

  /** The state the loop carries: `current_dir`, `id_carpeta`,
      `list_scripts`, the filesystem, and whether an exception has ended
      the run. */
  datatype RunState = RunState(current: Path, folders: nat, manifest: seq<string>, fs: Fs, aborted: bool)

  function Glyph(m: Marker): char {
    if m == Flat then FlatGlyph else NestedGlyph
  }

  /** The folder marker of a title: `▼` when present, else `■` when present. */
  function MarkerOf(name: string): Option<Marker> {
    if FlatGlyph in name then Some(Flat)
    else if NestedGlyph in name then Some(Nested)
    else None
  }

  /** A title that `if name:` lets through. */
  predicate Named(r: Record) {
    r.name.Some? && r.name.value != []
  }

  /** A record that opens a folder. */
  predicate IsMarker(r: Record) {
    Named(r) && MarkerOf(r.name.value).Some?
  }

  /** `f"{k}_{name.replace(glyph, '').strip()}"`. */
  function GroupName(k: nat, name: string, m: Marker): string {
    NatToString(k) + "_" + Strip(RemoveAll(name, {Glyph(m)}))
  }

  /** The directory a marker whose folder is titled `title` opens under
      `root`: one segment, the sanitized title, for `▼`; the stripped
      `/`-segments of the title for `■`. */
  function FolderDir(root: Path, title: string, m: Marker): Path {
    if m == Flat then root + [SanitizeFilename(title)]
    else root + StripEach(Split(title, '/'))
  }

  /** The directory the `k`-th marker, titled `name`, opens under `root`. */
  function MarkerDir(root: Path, k: nat, name: string, m: Marker): Path {
    FolderDir(root, GroupName(k, name, m), m)
  }

  /** `f"{n + 1}_{filename}"` for the record at position `n`. */
  function LeafName(n: nat, filename: string): string {
    NatToString(n + 1) + "_" + filename
  }

  /** The manifest line of a written path: the path with `\` turned into
      `/`, then a newline. */
  function ManifestEntry(p: Path): string {
    ReplaceAll(Join(p, "/"), {'\\'}, '/') + "\n"
  }

  /** `os.makedirs(output_dir, exist_ok=True)` before the loop; when it
      raises the run ends there. */
  function Start(root: Path, fs0: Fs): RunState {
    var (fs, ok) := MakeDirsOn(fs0, root);
    RunState(root, 0, [], fs, !ok)
  }

  /** Where the marker titled `title` puts the current directory, and the
      filesystem after making the directories on the way (`None` where a
      `makedirs` raises): `os.path.join` of the sanitized title for `▼`,
      `create_directory_structure` for `■`. */
  function FolderTarget(env: Env, fs: Fs, title: string, m: Marker): (Fs, Option<Path>) {
    if m == Flat then (fs, Some(FolderDir(env.root, title, m)))
    else StructureOn(fs, env.root, StripEach(Split(title, '/')))
  }

  /** A marker record, whose folder is titled `title`: the counter goes up,
      the folder is made and becomes the current directory. A `makedirs`
      that raises ends the run. */
  function FolderStep(env: Env, st: RunState, title: string, m: Marker): RunState {
    var k := st.folders + 1;
    var target := FolderTarget(env, st.fs, title, m);
    if target.1.None? then st.(folders := k, fs := target.0, aborted := true)
    else
      var made := MakeDirsOn(target.0, target.1.value);
      st.(current := target.1.value, folders := k, fs := made.0, aborted := !made.1)
  }

  /** A script record at position `n`: its path goes into the manifest,
      then its stripped text is written. An exception in `process_script`
      or in the write is caught, and the loop goes on. */
  function LeafStep(env: Env, st: RunState, n: nat, name: string, code: Content): RunState {
    match ProcessScript(env.decode, env.breaks, name, code)
    case Err(_) => st
    case Ok((filename, content)) =>
      var path := st.current + [LeafName(n, filename)];
      var (fs1, _) := WriteOn(st.fs, path, Strip(content), env.refused(n));
      st.(manifest := st.manifest + [ManifestEntry(path)], fs := fs1)
  }

  /** One iteration of the loop, for the record `r` at position `n`. */
  function Step(env: Env, st: RunState, n: nat, r: Record): RunState {
    if st.aborted || !Named(r) then st
    else
      match MarkerOf(r.name.value)
      case Some(m) => FolderStep(env, st, GroupName(st.folders + 1, r.name.value, m), m)
      case None => LeafStep(env, st, n, r.name.value, r.code)
  }

  /** The state after the first `k` records. */
  function Run(env: Env, fs0: Fs, recs: seq<Record>, k: nat): RunState
    requires k <= |recs|
  {
    if k == 0 then Start(env.root, fs0)
    else Step(env, Run(env, fs0, recs, k - 1), k - 1, recs[k - 1])
  }

  /** The body of `if folder_marker:` for the marker `m` and the folder
      title `title`: the new `current_dir` and `id_carpeta`, and `ok` false
      where a `makedirs` raises. */
  method OpenFolder(disk: Disk, env: Env, current: Path, folders: nat, manifest: seq<string>, title: string, m: Marker)
    returns (current': Path, folders': nat, ok: bool)
    modifies disk
    ensures RunState(current', folders', manifest, disk.Snapshot(), !ok)
         == FolderStep(env, RunState(current, folders, manifest, old(disk.Snapshot()), false), title, m)
  {
    ghost var st := RunState(current, folders, manifest, disk.Snapshot(), false);
    ghost var target := FolderTarget(env, st.fs, title, m);
    FolderStepUnfold(env, st, title, m, target);
    folders' := folders + 1;
    if m == Flat {
      current' := FolderDir(env.root, title, m);
    } else {
      current', ok := disk.CreateDirectoryStructure(env.root, title);
      if !ok {
        current' := current;
        return;
      }
    }
    ok := disk.MakeDirs(current');
  }

  /** The body of the `try:` for the script record at position `n`: the
      manifest with the new line, the file written where `open` succeeds. */
  method SaveScript(disk: Disk, env: Env, current: Path, folders: nat, manifest: seq<string>, n: nat, name: string, code: Content)
    returns (manifest': seq<string>)
    modifies disk
    ensures RunState(current, folders, manifest', disk.Snapshot(), false)
         == LeafStep(env, RunState(current, folders, manifest, old(disk.Snapshot()), false), n, name, code)
  {
    manifest' := manifest;
    var processed := ProcessScript(env.decode, env.breaks, name, code);
    if processed.Ok? {
      var (filename, content) := processed.value;
      var path := current + [LeafName(n, filename)];
      manifest' := manifest + [ManifestEntry(path)];
      var _ := disk.WriteFile(path, Strip(content), env.refused(n));
    }
  }

  /** `extract_scripts` after the records are loaded: the lines of
      `list_scripts`, and whether the loop ran to its end rather than
      ending in an exception. */
  method ExtractScripts(disk: Disk, env: Env, records: seq<Record>) returns (manifest: seq<string>, completed: bool)
    modifies disk
    ensures var st := Run(env, old(disk.Snapshot()), records, |records|);
      disk.Snapshot() == st.fs && manifest == st.manifest && completed == !st.aborted
  {
    ghost var fs0 := disk.Snapshot();
    manifest := [];
    var made := disk.MakeDirs(env.root);
    if !made {
      AbortIsFinal(env, fs0, records, 0, |records|);
      return manifest, false;
    }
    var current := env.root;
    var folders := 0;
    for n := 0 to |records|
      invariant Run(env, fs0, records, n) == RunState(current, folders, manifest, disk.Snapshot(), false)
    {
      var ok;
      current, folders, manifest, ok := ExtractRecord(disk, env, current, folders, manifest, n, records[n]);
      if !ok {
        AbortIsFinal(env, fs0, records, n + 1, |records|);
        return manifest, false;
      }
    }
    completed := true;
  }

  /** One pass of the loop body of `extract_scripts` over the record `r` at
      position `n`; `ok` is false where a `makedirs` raises. */
  method ExtractRecord(disk: Disk, env: Env, current: Path, folders: nat, manifest: seq<string>, n: nat, r: Record)
    returns (current': Path, folders': nat, manifest': seq<string>, ok: bool)
    modifies disk
    ensures RunState(current', folders', manifest', disk.Snapshot(), !ok)
         == Step(env, RunState(current, folders, manifest, old(disk.Snapshot()), false), n, r)
  {
    current', folders', manifest', ok := current, folders, manifest, true;
    if Named(r) {
      var name := r.name.value;
      var marker := MarkerOf(name);
      if marker.Some? {
        var title := GroupName(folders + 1, name, marker.value);
        current', folders', ok := OpenFolder(disk, env, current, folders, manifest, title, marker.value);
      } else {
        manifest' := SaveScript(disk, env, current, folders, manifest, n, name, r.code);
      }
    }
  }

  // ---------------------------------------------------------------- lemmas

  /** `FolderStep` in terms of where the marker points. */
  lemma FolderStepUnfold(env: Env, st: RunState, title: string, m: Marker, target: (Fs, Option<Path>))
    requires target == FolderTarget(env, st.fs, title, m)
    ensures target.1.None? ==>
      FolderStep(env, st, title, m) == st.(folders := st.folders + 1, fs := target.0, aborted := true)
    ensures target.1.Some? ==>
      var made := MakeDirsOn(target.0, target.1.value);
      FolderStep(env, st, title, m)
        == st.(current := target.1.value, folders := st.folders + 1, fs := made.0, aborted := !made.1)
  {
  }

  /** An exception ends the run: nothing after it changes the state. */
  lemma {:induction false} AbortIsFinal(env: Env, fs0: Fs, recs: seq<Record>, k: nat, j: nat)
    requires k <= j <= |recs|
    requires Run(env, fs0, recs, k).aborted
    ensures Run(env, fs0, recs, j) == Run(env, fs0, recs, k)
    decreases j
  {
    if j > k {
      AbortIsFinal(env, fs0, recs, k, j - 1);
    }
  }

  // The reference definitions the loop is compared with.

  /** The number of marker records in `recs`. */
  function MarkerCount(recs: seq<Record>): nat {
    if recs == [] then 0
    else MarkerCount(recs[..|recs| - 1]) + (if IsMarker(recs[|recs| - 1]) then 1 else 0)
  }

  /** A record whose script `process_script` turns into a file. */
  predicate IsScript(r: Record) {
    Named(r) && MarkerOf(r.name.value).None? && !r.code.Other?
  }

  /** The number of script records in `recs`. */
  function ScriptCount(recs: seq<Record>): nat {
    if recs == [] then 0
    else ScriptCount(recs[..|recs| - 1]) + (if IsScript(recs[|recs| - 1]) then 1 else 0)
  }

  /** The directory of the last marker in `recs`, `root` when there is none. */
  function LastFolder(root: Path, recs: seq<Record>): Path {
    if recs == [] then root
    else
      var r := recs[|recs| - 1];
      if IsMarker(r) then MarkerDir(root, MarkerCount(recs), r.name.value, MarkerOf(r.name.value).value)
      else LastFolder(root, recs[..|recs| - 1])
  }

  /** What one iteration does to the counter, the current directory and the
      abort flag. */
  lemma StepFacts(env: Env, st: RunState, n: nat, r: Record)
    ensures st.aborted || !Named(r) ==> Step(env, st, n, r) == st
    ensures !Step(env, st, n, r).aborted ==> !st.aborted
    ensures !IsMarker(r) ==>
      var st' := Step(env, st, n, r);
      st'.folders == st.folders && st'.current == st.current && st'.aborted == st.aborted
    ensures IsMarker(r) && !Step(env, st, n, r).aborted ==>
      var m := MarkerOf(r.name.value).value;
      var st' := Step(env, st, n, r);
      st'.folders == st.folders + 1 && st'.current == MarkerDir(env.root, st'.folders, r.name.value, m)
      && st'.current in st'.fs.dirs && st'.manifest == st.manifest
  {
    if !st.aborted && IsMarker(r) {
      var m := MarkerOf(r.name.value).value;
      var title := GroupName(st.folders + 1, r.name.value, m);
      var target := FolderTarget(env, st.fs, title, m);
      FolderStepUnfold(env, st, title, m, target);
      if m == Nested && target.1.Some? {
        StructureIsOneMakeDirs(st.fs, env.root, StripEach(Split(title, '/')));
      }
      if target.1.Some? && MakeDirsOn(target.0, target.1.value).1 {
        MakeDirsAgain(target.0, target.1.value);
      }
    }
  }

  /** A record with no title or an empty one changes nothing: the state
      after it is the state before it, and putting any other untitled record
      in its place changes no state of the run. */
  lemma {:induction false} UnnamedIsSkipped(env: Env, fs0: Fs, recs: seq<Record>, n: nat, other: Record, k: nat)
    requires n < |recs| && !Named(recs[n]) && !Named(other) && k <= |recs|
    ensures Run(env, fs0, recs, n + 1) == Run(env, fs0, recs, n)
    ensures Run(env, fs0, recs[n := other], k) == Run(env, fs0, recs, k)
  {
    StepFacts(env, Run(env, fs0, recs, n), n, recs[n]);
    if k > 0 {
      UnnamedIsSkipped(env, fs0, recs, n, other, k - 1);
      var st := Run(env, fs0, recs, k - 1);
      if k - 1 == n {
        StepFacts(env, st, n, other);
      } else {
        assert recs[n := other][k - 1] == recs[k - 1];
      }
    }
  }

  /** While the run goes on, `id_carpeta` is the number of markers seen. */
  lemma {:induction false} FoldersCountMarkers(env: Env, fs0: Fs, recs: seq<Record>, k: nat)
    requires k <= |recs| && !Run(env, fs0, recs, k).aborted
    ensures Run(env, fs0, recs, k).folders == MarkerCount(recs[..k])
  {
    if k > 0 {
      StepFacts(env, Run(env, fs0, recs, k - 1), k - 1, recs[k - 1]);
      FoldersCountMarkers(env, fs0, recs, k - 1);
      assert recs[..k][..k - 1] == recs[..k - 1];
    }
  }

  /** While the run goes on, `current_dir` is the directory of the last
      marker seen, `output_dir` before the first, and it exists. */
  lemma {:induction false} CurrentIsLastFolder(env: Env, fs0: Fs, recs: seq<Record>, k: nat)
    requires k <= |recs| && !Run(env, fs0, recs, k).aborted
    ensures Run(env, fs0, recs, k).current == LastFolder(env.root, recs[..k])
    ensures Run(env, fs0, recs, k).current in Run(env, fs0, recs, k).fs.dirs
  {
    if k == 0 {
      MakeDirsAgain(fs0, env.root);
    } else {
      var st := Run(env, fs0, recs, k - 1);
      StepFacts(env, st, k - 1, recs[k - 1]);
      CurrentIsLastFolder(env, fs0, recs, k - 1);
      FoldersCountMarkers(env, fs0, recs, k);
      assert recs[..k][..k - 1] == recs[..k - 1];
      assert recs[..k][k - 1] == recs[k - 1];
      if !IsMarker(recs[k - 1]) && Named(recs[k - 1]) {
        LeafKeepsDirs(env, st, k - 1, recs[k - 1].name.value, recs[k - 1].code);
      }
    }
  }

  /** A script record adds no directory and removes none. */
  lemma LeafKeepsDirs(env: Env, st: RunState, n: nat, name: string, code: Content)
    ensures LeafStep(env, st, n, name, code).fs.dirs == st.fs.dirs
  {
  }

  /** `▼` takes precedence over `■`: a title holding both opens one
      directory right under `output_dir`, named after the title without its
      `▼`, even when the title contains `/`. */
  lemma FlatGlyphWins(env: Env, st: RunState, n: nat, r: Record)
    requires Named(r) && FlatGlyph in r.name.value && NestedGlyph in r.name.value
    requires !Step(env, st, n, r).aborted
    ensures var st' := Step(env, st, n, r);
      && st'.folders == st.folders + 1
      && st'.current == env.root + [SanitizeFilename(GroupName(st.folders + 1, r.name.value, Flat))]
      && st'.current in st'.fs.dirs
  {
    StepFacts(env, st, n, r);
  }

  /** Only the chosen glyph leaves the folder title: any other character
      that is not whitespace, `_` or a digit occurs in the title as often as
      in the record's title. */
  lemma GlyphRemoval(k: nat, name: string, m: Marker, c: char)
    requires c !in Whitespace && c != '_' && !IsDigit(c)
    ensures multiset(GroupName(k, name, m))[c] == if c == Glyph(m) then 0 else multiset(name)[c]
  {
    var removed := RemoveAll(name, {Glyph(m)});
    StripCharsCount(removed, Whitespace, c);
    assert multiset(NatToString(k))[c] == 0;
    if c == Glyph(m) {
      assert multiset(removed)[c] == 0;
    } else {
      RemoveAllCount(name, {Glyph(m)}, c);
    }
    assert GroupName(k, name, m) == NatToString(k) + "_" + Strip(removed);
  }

  /** In a title holding both glyphs, the `▼` goes and every `■` stays. */
  lemma FlatTitleKeepsNested(k: nat, name: string)
    ensures multiset(GroupName(k, name, Flat))[FlatGlyph] == 0
    ensures multiset(GroupName(k, name, Flat))[NestedGlyph] == multiset(name)[NestedGlyph]
  {
    assert multiset(GroupName(k, name, Flat))[FlatGlyph] == 0 by {
      GlyphRemoval(k, name, Flat, FlatGlyph);
    }
    assert multiset(GroupName(k, name, Flat))[NestedGlyph] == multiset(name)[NestedGlyph] by {
      GlyphRemoval(k, name, Flat, NestedGlyph);
    }
  }

  /** A `▼` marker opens one directory right under `output_dir`: the
      sanitized folder title, never empty, starting with the counter's
      first digit. */
  lemma FlatFolderDir(root: Path, k: nat, name: string)
    ensures var d := MarkerDir(root, k, name, Flat);
      && |d| == |root| + 1 && d[..|root|] == root
      && d[|root|] == SanitizeFilename(GroupName(k, name, Flat))
      && IsSanitized(d[|root|])
      && d[|root|] != [] && d[|root|][0] == NatToString(k)[0]
  {
    var title := GroupName(k, name, Flat);
    SanitizeIsSafe(title);
    SanitizeKeepsLeadingDigit(title);
  }

  /** Under a `/`-free prefix `w`, the nested directories of `w + t` are
      those of `t` with `w` put in front of the first segment. */
  lemma NestedDirOfPrefixed(root: Path, w: string, t: string)
    requires '/' !in w
    ensures var rest := Split(t, '/');
      FolderDir(root, w + t, Nested) == root + [Strip(w + rest[0])] + StripEach(rest[1..])
  {
    var rest := Split(t, '/');
    SplitAfterPrefix(w, t, '/');
    MapSeqConcat(Strip, [w + rest[0]], rest[1..]);
    assert root + ([Strip(w + rest[0])] + StripEach(rest[1..])) == root + [Strip(w + rest[0])] + StripEach(rest[1..]);
  }

  /** A `■` marker nests one directory per `/`-segment of its title, and
      the counter prefixes only the first segment. */
  lemma NestedFolderDir(root: Path, k: nat, name: string)
    ensures var rest := Split(Strip(RemoveAll(name, {NestedGlyph})), '/');
      MarkerDir(root, k, name, Nested)
        == root + [Strip(NatToString(k) + "_" + rest[0])] + StripEach(rest[1..])
  {
    var w := NatToString(k) + "_";
    assert '/' !in w;
    NestedDirOfPrefixed(root, w, Strip(RemoveAll(name, {NestedGlyph})));
  }

  /** A script record at position `n` goes into the directory of the last
      marker before it (`output_dir` when there is none) as
      `{n+1}_{sanitized title}.rb`. Its manifest line is added whether or
      not the write succeeds; the file then holds the stripped text exactly
      when the write is not refused and the path is not a directory. */
  lemma LeafPlacement(env: Env, fs0: Fs, recs: seq<Record>, n: nat)
    requires n < |recs| && IsScript(recs[n]) && !Run(env, fs0, recs, n).aborted
    ensures var st := Run(env, fs0, recs, n);
      var r := recs[n];
      var content := ProcessScript(env.decode, env.breaks, r.name.value, r.code).value.1;
      var path := LastFolder(env.root, recs[..n]) + [LeafName(n, SanitizeFilename(r.name.value) + ".rb")];
      var written := !env.refused(n) && path !in st.fs.dirs;
      Run(env, fs0, recs, n + 1)
        == st.(manifest := st.manifest + [ManifestEntry(path)],
               fs := if written then st.fs.(files := st.fs.files[path := Strip(content)]) else st.fs)
  {
    var st := Run(env, fs0, recs, n);
    var r := recs[n];
    CurrentIsLastFolder(env, fs0, recs, n);
    ProcessScriptOutcome(env.decode, env.breaks, r.name.value, r.code);
    var path := st.current + [LeafName(n, SanitizeFilename(r.name.value) + ".rb")];
    assert path[..|path| - 1] == st.current;
  }

  /** A script record whose code `process_script` cannot take (neither
      `str` nor `bytes`) changes nothing: no manifest line, no file. */
  lemma FailedScriptIsSkipped(env: Env, fs0: Fs, recs: seq<Record>, n: nat)
    requires n < |recs| && Named(recs[n]) && MarkerOf(recs[n].name.value).None? && recs[n].code.Other?
    ensures Run(env, fs0, recs, n + 1) == Run(env, fs0, recs, n)
  {
    ProcessScriptOutcome(env.decode, env.breaks, recs[n].name.value, recs[n].code);
  }

  /** While the run goes on, the manifest has one line per script record
      seen, in order. */
  lemma {:induction false} ManifestCountsScripts(env: Env, fs0: Fs, recs: seq<Record>, k: nat)
    requires k <= |recs| && !Run(env, fs0, recs, k).aborted
    ensures |Run(env, fs0, recs, k).manifest| == ScriptCount(recs[..k])
  {
    if k > 0 {
      var r := recs[k - 1];
      StepFacts(env, Run(env, fs0, recs, k - 1), k - 1, r);
      ManifestCountsScripts(env, fs0, recs, k - 1);
      assert recs[..k][..k - 1] == recs[..k - 1];
      if Named(r) && !IsMarker(r) {
        ProcessScriptOutcome(env.decode, env.breaks, r.name.value, r.code);
      }
    }
  }

  /** Records at different positions never share a file name. */
  lemma LeafNamesDistinct(n: nat, m: nat, f: string, g: string)
    requires n != m
    ensures LeafName(n, f) != LeafName(m, g)
  {
    var a, b := NatToString(n + 1), NatToString(m + 1);
    var x, y := LeafName(n, f), LeafName(m, g);
    if |a| == |b| {
      assert a != b by {
        if a == b {
          NatToStringInjective(n + 1, m + 1);
        }
      }
      var i :| 0 <= i < |a| && a[i] != b[i];
      assert x[i] == a[i] && y[i] == b[i];
    } else if |a| < |b| {
      assert x[|a|] == '_' && y[|a|] == b[|a|];
    } else {
      assert y[|b|] == '_' && x[|b|] == a[|b|];
    }
  }

  /** A manifest line is the path joined with `/`, with no `\` left in it,
      ending in a newline. */
  lemma ManifestEntryShape(p: Path)
    ensures var e := ManifestEntry(p);
      && |e| == |Join(p, "/")| + 1 && e[|e| - 1] == '\n' && '\\' !in e
      && (forall i :: 0 <= i < |e| - 1 && Join(p, "/")[i] != '\\' ==> e[i] == Join(p, "/")[i])
      && (forall i :: 0 <= i < |e| - 1 && Join(p, "/")[i] == '\\' ==> e[i] == '/')
  {
  }
}
