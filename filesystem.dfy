/** The Directory Builder and the part of the filesystem it works on:
    `os.makedirs(..., exist_ok=True)`, `open(path, "w")` and
    `create_directory_structure`. */
module Files {
  import opened Results
  import opened Text

  /** A path as its segments: `os.path.join(p, s)` is `p + [s]`. */
  type Path = seq<string>

  /** The directories that exist and the files with their text. */
  datatype Fs = Fs(dirs: set<Path>, files: map<Path, string>)

  /** The non-empty prefixes of `p`: `p` and every directory above it. */
  function Prefixes(p: Path): set<Path> {
    set i | 1 <= i <= |p| :: p[..i]
  }

  /** The length of the shortest prefix of `p` that is a file, from `i`
      on; `|p| + 1` when there is none. */
  function FirstFileFrom(fs: Fs, p: Path, i: nat): (j: nat)
    requires 1 <= i <= |p| + 1
    ensures i <= j <= |p| + 1
    ensures forall k :: i <= k < j ==> p[..k] !in fs.files
    ensures j <= |p| ==> p[..j] in fs.files
    decreases |p| + 1 - i
  {
    if i > |p| || p[..i] in fs.files then i else FirstFileFrom(fs, p, i + 1)
  }

  /** The length of the shortest prefix of `p` that is a file, `|p| + 1`
      when there is none. */
  function FirstFile(fs: Fs, p: Path): nat {
    FirstFileFrom(fs, p, 1)
  }

  /** `os.makedirs(p, exist_ok=True)`: every prefix of `p` becomes a
      directory, whether or not it already was one. It raises (the `false`)
      for the empty path, and when some prefix of `p` is a file, after it has
      made the directories above that file. */
  function MakeDirsOn(fs: Fs, p: Path): (Fs, bool) {
    if p == [] then (fs, false)
    else
      var j := FirstFile(fs, p);
      (fs.(dirs := fs.dirs + Prefixes(p[..j - 1])), j == |p| + 1)
  }

  /** `open(p, "w").write(text)`: creates or overwrites the file `p`. It
      raises (the `false`) when `refused` says the system refuses the write,
      when the parent of `p` is not a directory, and when `p` is one. */
  function WriteOn(fs: Fs, p: Path, text: string, refused: bool): (Fs, bool) {
    if !refused && p != [] && (|p| == 1 || p[..|p| - 1] in fs.dirs) && p !in fs.dirs then
      (fs.(files := fs.files[p := text]), true)
    else
      (fs, false)
  }

  /** The loop of `create_directory_structure` from path `p` over the
      remaining stripped segments `parts`: join the segment, `makedirs` the
      result, go on; the exception of a failed `makedirs` ends it (`None`). */
  function StructureOn(fs: Fs, p: Path, parts: seq<string>): (Fs, Option<Path>)
    decreases |parts|
  {
    if parts == [] then (fs, Some(p))
    else
      var next := p + [parts[0]];
      var (fs1, ok) := MakeDirsOn(fs, next);
      if ok then StructureOn(fs1, next, parts[1..]) else (fs1, None)
  }

  // ---------------------------------------------------------------- lemmas

  /** Creating a directory that exists is not an error and changes nothing. */
  lemma MakeDirsAgain(fs: Fs, p: Path)
    requires MakeDirsOn(fs, p).1
    ensures MakeDirsOn(MakeDirsOn(fs, p).0, p) == MakeDirsOn(fs, p)
    ensures p in MakeDirsOn(fs, p).0.dirs
  {
    assert p[..|p|] == p;
    assert FirstFile(MakeDirsOn(fs, p).0, p) == |p| + 1;
  }

  /** `makedirs` succeeds exactly when the path is not empty and none of
      its prefixes is a file, and then every prefix is a directory. */
  lemma MakeDirsOutcome(fs: Fs, p: Path)
    ensures MakeDirsOn(fs, p).1 <==> p != [] && forall i :: 1 <= i <= |p| ==> p[..i] !in fs.files
    ensures MakeDirsOn(fs, p).1 ==> MakeDirsOn(fs, p).0 == fs.(dirs := fs.dirs + Prefixes(p))
    ensures MakeDirsOn(fs, p).0.files == fs.files && fs.dirs <= MakeDirsOn(fs, p).0.dirs
  {
    if p != [] {
      assert p[..|p|] == p;
    }
  }

  /** The prefixes of a prefix of `q` are prefixes of `q`. */
  lemma PrefixesOfPrefix(p: Path, q: Path)
    requires |p| <= |q| && q[..|p|] == p
    ensures Prefixes(p) <= Prefixes(q)
  {
    forall x | x in Prefixes(p) ensures x in Prefixes(q) {
      var i :| 1 <= i <= |p| && x == p[..i];
      assert x == q[..i];
    }
  }

  /** Two paths that agree up to the first file under one of them meet
      that file at the same place. */
  lemma FirstFileOfExtension(fs: Fs, p: Path, q: Path)
    requires |p| <= |q| && q[..|p|] == p
    ensures FirstFile(fs, p) <= |p| ==> FirstFile(fs, q) == FirstFile(fs, p)
    ensures FirstFile(fs, p) == |p| + 1 ==> FirstFile(fs, q) > |p|
  {
    var j, k := FirstFile(fs, p), FirstFile(fs, q);
    if k <= |p| {
      assert p[..k] == q[..k];
    }
    if j <= |p| {
      assert p[..j] == q[..j];
    }
  }

  /** Where the first file lies depends only on the files. */
  lemma {:induction false} FirstFileFromSameFiles(fs: Fs, gs: Fs, p: Path, i: nat)
    requires 1 <= i <= |p| + 1 && fs.files == gs.files
    ensures FirstFileFrom(fs, p, i) == FirstFileFrom(gs, p, i)
    decreases |p| + 1 - i
  {
    if i <= |p| && p[..i] !in fs.files {
      FirstFileFromSameFiles(fs, gs, p, i + 1);
    }
  }

  /** Making a prefix `p` of `q` first leaves what making `q` does as it is. */
  lemma MakeDirsAfterPrefix(fs: Fs, p: Path, q: Path)
    requires p != [] && |p| <= |q| && q[..|p|] == p
    ensures var (fs1, ok) := MakeDirsOn(fs, p);
      ok ==> MakeDirsOn(fs1, q) == MakeDirsOn(fs, q)
    ensures var (fs1, ok) := MakeDirsOn(fs, p);
      !ok ==> MakeDirsOn(fs, q) == (fs1, false)
  {
    FirstFileOfExtension(fs, p, q);
    var j := FirstFile(fs, p);
    var k := FirstFile(fs, q);
    if j == |p| + 1 {
      var fs1 := MakeDirsOn(fs, p).0;
      FirstFileFromSameFiles(fs, fs1, q, 1);
      assert p[..j - 1] == p;
      assert q[..k - 1][..|p|] == p;
      PrefixesOfPrefix(p, q[..k - 1]);
      assert fs1.dirs + Prefixes(q[..k - 1]) == fs.dirs + Prefixes(q[..k - 1]);
    } else {
      assert q[..j - 1] == p[..j - 1];
    }
  }

  /** Building a structure segment by segment does what one `makedirs` of
      the whole path does: the same directories, and it fails exactly when
      that one fails. */
  lemma {:induction false} StructureIsOneMakeDirs(fs: Fs, base: Path, parts: seq<string>)
    requires |parts| >= 1
    ensures var full := base + parts;
      StructureOn(fs, base, parts)
        == (MakeDirsOn(fs, full).0, if MakeDirsOn(fs, full).1 then Some(full) else None)
    decreases |parts|
  {
    var full := base + parts;
    var next := base + [parts[0]];
    assert full == next + parts[1..];
    assert full[..|next|] == next;
    MakeDirsAfterPrefix(fs, next, full);
    if MakeDirsOn(fs, next).1 {
      if |parts| == 1 {
        assert full == next;
      } else {
        StructureIsOneMakeDirs(MakeDirsOn(fs, next).0, next, parts[1..]);
      }
    }
  }

  /** `create_directory_structure` ends at `base` extended by the stripped
      segments, in order, with every directory on the way made; it fails
      exactly when one of those paths is a file. */
  lemma StructureOutcome(fs: Fs, base: Path, parts: seq<string>)
    requires |parts| >= 1
    ensures var (fs', dir) := StructureOn(fs, base, parts);
      && (dir.Some? <==> forall i :: 1 <= i <= |base + parts| ==> (base + parts)[..i] !in fs.files)
      && (dir.Some? ==> dir.value == base + parts && Prefixes(base + parts) <= fs'.dirs)
      && fs'.files == fs.files && fs.dirs <= fs'.dirs
  {
    StructureIsOneMakeDirs(fs, base, parts);
    MakeDirsOutcome(fs, base + parts);
  }

  /** The filesystem as the running program sees it. */
  class Disk {
    var dirs: set<Path>
    var files: map<Path, string>

    function Snapshot(): Fs
      reads this
    {
      Fs(dirs, files)
    }

    constructor (fs: Fs)
      ensures Snapshot() == fs
    {
      dirs := fs.dirs;
      files := fs.files;
    }

    /** `os.makedirs(p, exist_ok=True)`; `ok` is false where it raises. */
    method MakeDirs(p: Path) returns (ok: bool)
      modifies this
      ensures (Snapshot(), ok) == MakeDirsOn(old(Snapshot()), p)
    {
      var (fs, made) := MakeDirsOn(Snapshot(), p);
      dirs, ok := fs.dirs, made;
    }

    /** `open(p, "w").write(text)`; `ok` is false where it raises. */
    method WriteFile(p: Path, text: string, refused: bool) returns (ok: bool)
      modifies this
      ensures (Snapshot(), ok) == WriteOn(old(Snapshot()), p, text, refused)
    {
      var (fs, written) := WriteOn(Snapshot(), p, text, refused);
      files, ok := fs.files, written;
    }

    /** The loop of `create_directory_structure` over the segments `segs`:
        each segment stripped and joined to the path, each step made a
        directory. `ok` is false where a `makedirs` raises. */
    method MakeDirsAlong(base: Path, segs: seq<string>) returns (path: Path, ok: bool)
      modifies this
      ensures (Snapshot(), if ok then Some(path) else None) == StructureOn(old(Snapshot()), base, StripEach(segs))
    {
      ghost var parts := StripEach(segs);
      ghost var fs0 := Snapshot();
      path := base;
      ok := true;
      var i := 0;
      while i < |segs|
        invariant 0 <= i <= |segs|
        invariant StructureOn(Snapshot(), path, parts[i..]) == StructureOn(fs0, base, parts)
      {
        MapSeqAt(Strip, segs, i);
        assert parts[i..][1..] == parts[i + 1..];
        ghost var before, from := Snapshot(), path;
        path := path + [Strip(segs[i])];
        ok := MakeDirs(path);
        if !ok {
          assert StructureOn(before, from, parts[i..]) == (Snapshot(), None);
          return;
        }
        i := i + 1;
      }
      assert parts[i..] == [];
    }

    /** `create_directory_structure(base, name)`: `name` split at `/` and
        made a directory segment by segment; on success the whole stripped
        path exists, and it fails exactly where one `makedirs` of that path
        would. */
    method CreateDirectoryStructure(base: Path, name: string) returns (path: Path, ok: bool)
      modifies this
      ensures (Snapshot(), if ok then Some(path) else None) == StructureOn(old(Snapshot()), base, StripEach(Split(name, '/')))
      ensures ok ==> path == base + StripEach(Split(name, '/'))
    {
      var segs := Split(name, '/');
      StructureIsOneMakeDirs(Snapshot(), base, StripEach(segs));
      path, ok := MakeDirsAlong(base, segs);
    }
  }
}
