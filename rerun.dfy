/** Running `extract_scripts` again on the directory a completed run left
    behind: every `makedirs` finds its directory, every write puts back the
    text the file already holds, and the manifest comes out the same. */
module Rerun {
  import opened Results
  import opened Text
  import opened Newlines
  import opened Script
  import opened Files
  import opened Extract

  /** `b` comes later than `a` in one run: no directory goes away, and a
      directory that was not a file never becomes one. */
  predicate Grows(a: Fs, b: Fs) {
    && a.dirs <= b.dirs
    && forall q :: q in a.dirs && q !in a.files ==> q !in b.files
  }

  /** The file name `process_script` gives the record, when the record is a
      script that it accepts. */
  function ScriptFile(env: Env, r: Record): (f: Option<string>)
    ensures f.Some? ==> IsScript(r)
  {
    if !Named(r) || MarkerOf(r.name.value).Some? then None
    else
      match ProcessScript(env.decode, env.breaks, r.name.value, r.code)
      case Err(_) => None
      case Ok((filename, _)) => Some(filename)
  }

  lemma GrowsTrans(a: Fs, b: Fs, c: Fs)
    requires Grows(a, b) && Grows(b, c)
    ensures Grows(a, c)
  {
  }

  /** `makedirs` only adds directories, and none of them over a file. */
  lemma MakeDirsGrows(fs: Fs, p: Path)
    ensures Grows(fs, MakeDirsOn(fs, p).0)
  {
    MakeDirsOutcome(fs, p);
  }

  /** A `makedirs` that succeeded succeeds again, changing nothing, on any
      later filesystem of the same run. */
  lemma MakeDirsReplay(fs: Fs, p: Path, g: Fs)
    requires MakeDirsOn(fs, p).1 && Grows(MakeDirsOn(fs, p).0, g)
    ensures MakeDirsOn(g, p) == (g, true)
  {
    MakeDirsOutcome(fs, p);
    var fs1 := MakeDirsOn(fs, p).0;
    forall i | 1 <= i <= |p| ensures p[..i] !in g.files {
      assert p[..i] in Prefixes(p);
      assert p[..i] in fs1.dirs && p[..i] !in fs1.files;
    }
    MakeDirsOutcome(g, p);
    assert g.dirs + Prefixes(p) == g.dirs;
  }

  /** A marker step changes no file. */
  lemma FolderStepKeepsFiles(env: Env, st: RunState, title: string, m: Marker)
    ensures FolderStep(env, st, title, m).fs.files == st.fs.files
    ensures Grows(st.fs, FolderStep(env, st, title, m).fs)
  {
    var target := FolderTarget(env, st.fs, title, m);
    FolderStepUnfold(env, st, title, m, target);
    if m == Nested {
      var parts := StripEach(Split(title, '/'));
      StructureIsOneMakeDirs(st.fs, env.root, parts);
      MakeDirsGrows(st.fs, env.root + parts);
    }
    if target.1.Some? {
      MakeDirsOutcome(target.0, target.1.value);
      MakeDirsGrows(target.0, target.1.value);
      GrowsTrans(st.fs, target.0, MakeDirsOn(target.0, target.1.value).0);
    }
  }

  /** A script step only writes a file that is not a directory. */
  lemma LeafGrows(env: Env, st: RunState, n: nat, name: string, code: Content)
    ensures Grows(st.fs, LeafStep(env, st, n, name, code).fs)
  {
  }

  /** One step of the loop keeps the filesystem growing. */
  lemma StepGrows(env: Env, st: RunState, n: nat, r: Record)
    ensures Grows(st.fs, Step(env, st, n, r).fs)
  {
    if st.aborted || !Named(r) {
      assert Step(env, st, n, r) == st;
    } else {
      match MarkerOf(r.name.value)
      case Some(m) =>
        var title := GroupName(st.folders + 1, r.name.value, m);
        assert Step(env, st, n, r) == FolderStep(env, st, title, m);
        FolderStepKeepsFiles(env, st, title, m);
      case None =>
        assert Step(env, st, n, r) == LeafStep(env, st, n, r.name.value, r.code);
        LeafGrows(env, st, n, r.name.value, r.code);
    }
  }

  /** A script step at position `m` leaves a file written at position `n`
      as it is: the names of the files the two positions write differ. */
  lemma LeafKeepsFile(env: Env, st: RunState, m: nat, name: string, code: Content, p: Path, n: nat, g: string)
    requires n != m && p != [] && p[|p| - 1] == LeafName(n, g) && p in st.fs.files
    ensures p in LeafStep(env, st, m, name, code).fs.files
    ensures LeafStep(env, st, m, name, code).fs.files[p] == st.fs.files[p]
  {
    match ProcessScript(env.decode, env.breaks, name, code)
    case Err(_) =>
    case Ok((filename, _)) =>
      var path := st.current + [LeafName(m, filename)];
      assert path[|path| - 1] == LeafName(m, filename);
      LeafNamesDistinct(n, m, g, filename);
  }

  /** A step at another position leaves a file written at position `n` as
      it is. */
  lemma StepKeepsFile(env: Env, st: RunState, after: RunState, m: nat, r: Record, p: Path, n: nat, g: string)
    requires after == Step(env, st, m, r)
    requires n != m && p != [] && p[|p| - 1] == LeafName(n, g) && p in st.fs.files
    ensures p in after.fs.files && after.fs.files[p] == st.fs.files[p]
  {
    if st.aborted || !Named(r) {
      assert after == st;
    } else {
      match MarkerOf(r.name.value)
      case Some(mk) =>
        var title := GroupName(st.folders + 1, r.name.value, mk);
        assert after == FolderStep(env, st, title, mk);
        FolderStepKeepsFiles(env, st, title, mk);
      case None =>
        assert after == LeafStep(env, st, m, r.name.value, r.code);
        LeafKeepsFile(env, st, m, r.name.value, r.code, p, n, g);
    }
  }

  /** While the run goes on, an earlier state is not aborted either. */
  lemma {:induction false} StillRunning(env: Env, fs0: Fs, recs: seq<Record>, k: nat, j: nat)
    requires k <= j <= |recs| && !Run(env, fs0, recs, j).aborted
    ensures !Run(env, fs0, recs, k).aborted
    decreases j
  {
    if k < j {
      StepFacts(env, Run(env, fs0, recs, j - 1), j - 1, recs[j - 1]);
      StillRunning(env, fs0, recs, k, j - 1);
    }
  }

  /** The filesystem grows along the run. */
  lemma {:induction false} RunGrows(env: Env, fs0: Fs, recs: seq<Record>, k: nat, j: nat)
    requires k <= j <= |recs|
    ensures Grows(Run(env, fs0, recs, k).fs, Run(env, fs0, recs, j).fs)
    decreases j
  {
    if k < j {
      RunGrows(env, fs0, recs, k, j - 1);
      StepGrows(env, Run(env, fs0, recs, j - 1), j - 1, recs[j - 1]);
      GrowsTrans(Run(env, fs0, recs, k).fs, Run(env, fs0, recs, j - 1).fs, Run(env, fs0, recs, j).fs);
    }
  }

  /** The file the record at position `n` wrote keeps its text to the end. */
  lemma {:induction false} RunKeepsFile(env: Env, fs0: Fs, recs: seq<Record>, n: nat, g: string, p: Path, j: nat)
    requires n < j <= |recs|
    requires p != [] && p[|p| - 1] == LeafName(n, g) && p in Run(env, fs0, recs, n + 1).fs.files
    ensures p in Run(env, fs0, recs, j).fs.files
    ensures Run(env, fs0, recs, j).fs.files[p] == Run(env, fs0, recs, n + 1).fs.files[p]
    decreases j
  {
    if j > n + 1 {
      RunKeepsFile(env, fs0, recs, n, g, p, j - 1);
      StepKeepsFile(env, Run(env, fs0, recs, j - 1), Run(env, fs0, recs, j), j - 1, recs[j - 1], p, n, g);
    }
  }

  /** A marker step replayed on a later filesystem `g` of the same run
      finds its directory made and leaves `g` as it is. */
  lemma ReplayFolder(env: Env, st: RunState, title: string, m: Marker, g: Fs)
    requires !FolderStep(env, st, title, m).aborted
    requires Grows(FolderStep(env, st, title, m).fs, g)
    ensures FolderStep(env, st.(fs := g), title, m) == FolderStep(env, st, title, m).(fs := g)
  {
    var target := FolderTarget(env, st.fs, title, m);
    FolderStepUnfold(env, st, title, m, target);
    FolderStepUnfold(env, st.(fs := g), title, m, FolderTarget(env, g, title, m));
    var d := target.1.value;
    if m == Nested {
      var parts := StripEach(Split(title, '/'));
      StructureIsOneMakeDirs(st.fs, env.root, parts);
      StructureIsOneMakeDirs(g, env.root, parts);
      MakeDirsAgain(st.fs, d);
    }
    MakeDirsReplay(st.fs, d, g);
  }

  /** A script step replayed on a later filesystem `g` of the same run
      lists the same path and leaves `g` as it is, provided `g` still holds
      the file the step wrote. */
  lemma ReplayLeaf(env: Env, st: RunState, n: nat, name: string, code: Content, g: Fs)
    requires st.current in st.fs.dirs
    requires Grows(LeafStep(env, st, n, name, code).fs, g)
    requires ProcessScript(env.decode, env.breaks, name, code).Ok? ==>
      var p := st.current + [LeafName(n, ProcessScript(env.decode, env.breaks, name, code).value.0)];
      var written := LeafStep(env, st, n, name, code).fs;
      p in written.files ==> p in g.files && g.files[p] == written.files[p]
    ensures LeafStep(env, st.(fs := g), n, name, code) == LeafStep(env, st, n, name, code).(fs := g)
  {
    match ProcessScript(env.decode, env.breaks, name, code)
    case Err(_) =>
    case Ok((filename, content)) =>
      var path := st.current + [LeafName(n, filename)];
      var text := Strip(content);
      assert path[..|path| - 1] == st.current;
      if WriteOn(g, path, text, env.refused(n)).1 {
        assert WriteOn(st.fs, path, text, env.refused(n)).1;
        assert g.files[path := text] == g.files;
      }
  }

  /** `g` still holds, with the same text, the file that the step from
      `st` to `after` for the record `r` at position `n` wrote, if any. */
  predicate KeepsWritten(env: Env, st: RunState, after: RunState, n: nat, r: Record, g: Fs) {
    ScriptFile(env, r).Some? ==>
      var p := st.current + [LeafName(n, ScriptFile(env, r).value)];
      p in after.fs.files ==> p in g.files && g.files[p] == after.fs.files[p]
  }

  /** One step replayed on a later filesystem `g` of the same run does the
      same thing and leaves `g` as it is, provided `g` still holds the file
      the step wrote. */
  lemma ReplayStep(env: Env, st: RunState, after: RunState, n: nat, r: Record, g: Fs)
    requires after == Step(env, st, n, r)
    requires !after.aborted && st.current in st.fs.dirs && Grows(after.fs, g)
    requires KeepsWritten(env, st, after, n, r, g)
    ensures Step(env, st.(fs := g), n, r) == after.(fs := g)
  {
    if Named(r) {
      var name := r.name.value;
      assert !st.aborted;
      match MarkerOf(name)
      case Some(m) =>
        var title := GroupName(st.folders + 1, name, m);
        assert after == FolderStep(env, st, title, m);
        ReplayFolder(env, st, title, m, g);
      case None =>
        assert after == LeafStep(env, st, n, name, r.code);
        ReplayLeaf(env, st, n, name, r.code, g);
    }
  }

  /** The file the record at position `n` wrote is still there, with the
      same text, when the run ends. */
  lemma WrittenFileSurvives(env: Env, fs0: Fs, recs: seq<Record>, n: nat)
    requires n < |recs|
    ensures KeepsWritten(env, Run(env, fs0, recs, n), Run(env, fs0, recs, n + 1), n, recs[n],
                         Run(env, fs0, recs, |recs|).fs)
  {
    var r := recs[n];
    if ScriptFile(env, r).Some? {
      var p := Run(env, fs0, recs, n).current + [LeafName(n, ScriptFile(env, r).value)];
      if p in Run(env, fs0, recs, n + 1).fs.files {
        RunKeepsFile(env, fs0, recs, n, ScriptFile(env, r).value, p, |recs|);
      }
    }
  }

  /** The replayed run takes one more step as `ReplayStep` says. */
  lemma ReplayNext(env: Env, g: Fs, recs: seq<Record>, k: nat, st: RunState, after: RunState)
    requires 0 < k <= |recs|
    requires Run(env, g, recs, k - 1) == st.(fs := g)
    requires Step(env, st.(fs := g), k - 1, recs[k - 1]) == after.(fs := g)
    ensures Run(env, g, recs, k) == after.(fs := g)
  {
  }

  /** Replaying the first `k` records on the final filesystem of a run that
      completed gives the states of that run, with the final filesystem. */
  lemma {:induction false} Replay(env: Env, fs0: Fs, recs: seq<Record>, k: nat)
    requires k <= |recs| && !Run(env, fs0, recs, |recs|).aborted
    ensures var g := Run(env, fs0, recs, |recs|).fs;
      Run(env, g, recs, k) == Run(env, fs0, recs, k).(fs := g)
  {
    var g := Run(env, fs0, recs, |recs|).fs;
    StillRunning(env, fs0, recs, k, |recs|);
    RunGrows(env, fs0, recs, k, |recs|);
    if k == 0 {
      MakeDirsReplay(fs0, env.root, g);
    } else {
      Replay(env, fs0, recs, k - 1);
      var st, after := Run(env, fs0, recs, k - 1), Run(env, fs0, recs, k);
      StillRunning(env, fs0, recs, k - 1, |recs|);
      CurrentIsLastFolder(env, fs0, recs, k - 1);
      WrittenFileSurvives(env, fs0, recs, k - 1);
      ReplayStep(env, st, after, k - 1, recs[k - 1], g);
      ReplayNext(env, g, recs, k, st, after);
    }
  }

  /** Running again, with the same records and the same refusals, on what a
      completed run left behind reproduces that run: the same directories,
      the same files with the same text, the same manifest. */
  lemma RerunIsIdempotent(env: Env, fs0: Fs, recs: seq<Record>)
    requires !Run(env, fs0, recs, |recs|).aborted
    ensures var last := Run(env, fs0, recs, |recs|);
      Run(env, last.fs, recs, |recs|) == last
  {
    Replay(env, fs0, recs, |recs|);
  }
}
