/** The walk `os.walk` performs over a directory tree. The dumpers never
    prune `dirnames`: an excluded directory is skipped with `continue`, but
    its subdirectories are still walked, and each one is excluded again by
    its own relative path. This module derives the walk from a tree and
    proves what that means for `gather_files`. */
module WalkTree {
  import opened Text
  import opened Scanner

  /** A directory: its name (unused for the root), its files and its
      subdirectories, both in the order the filesystem lists them. */
  datatype Dir = Dir(name: string, files: seq<FileEntry>, children: seq<Dir>)

  /** Top-down walk of `d`, which sits at `segments` below the root: the
      directory itself, then each subdirectory's walk in listing order. */
  function WalkFrom(segments: seq<string>, d: Dir): seq<WalkEntry>
    decreases d, 1
  {
    [WalkEntry(segments, d.files)] + WalkChildren(segments, d.children)
  }

  function WalkChildren(segments: seq<string>, cs: seq<Dir>): seq<WalkEntry>
    decreases cs, 0
  {
    if |cs| == 0 then []
    else WalkFrom(segments + [cs[0].name], cs[0]) + WalkChildren(segments, cs[1..])
  }

  /** `os.walk(root)` over the tree `root`. */
  function Walk(root: Dir): seq<WalkEntry> {
    WalkFrom([], root)
  }

  /** `n` is the directory reached from `d` by following the names `path`. */
  predicate IsPathTo(d: Dir, path: seq<string>, n: Dir)
    decreases |path|
  {
    if |path| == 0 then n == d
    else exists c :: c in d.children && c.name == path[0] && IsPathTo(c, path[1..], n)
  }

  /** No directory name in the tree contains the separator. */
  predicate PlainNames(d: Dir) {
    forall c :: c in d.children ==> Sep !in c.name && PlainNames(c)
  }

  /** No piece the exclusion test sees for this directory is one of `names`. */
  predicate NoPieceNamed(path: seq<string>, names: seq<string>) {
    forall x :: x in RelPieces(path) ==> x !in names
  }

  lemma ChildWalkIncluded(segments: seq<string>, cs: seq<Dir>, c: Dir, e: WalkEntry)
    requires c in cs
    requires e in WalkFrom(segments + [c.name], c)
    ensures e in WalkChildren(segments, cs)
    decreases |cs|
  {
    if cs[0] != c {
      ChildWalkIncluded(segments, cs[1..], c, e);
    }
  }

  /** Every directory of the tree is walked, however deep: nothing is pruned. */
  lemma {:induction false} WalkVisitsEveryDirectory(segments: seq<string>, d: Dir, path: seq<string>, n: Dir)
    requires IsPathTo(d, path, n)
    ensures WalkEntry(segments + path, n.files) in WalkFrom(segments, d)
    decreases |path|
  {
    if |path| == 0 {
      assert segments + path == segments;
    } else {
      var c :| c in d.children && c.name == path[0] && IsPathTo(c, path[1..], n);
      WalkVisitsEveryDirectory(segments + [c.name], c, path[1..], n);
      assert segments + [c.name] + path[1..] == segments + path;
      ChildWalkIncluded(segments, d.children, c, WalkEntry(segments + path, n.files));
    }
  }

  /** Conversely, every walk entry is a directory of the tree at its segments. */
  lemma {:induction false} WalkEntryIsDirectory(segments: seq<string>, d: Dir, e: WalkEntry)
    requires e in WalkFrom(segments, d)
    ensures exists path, n :: IsPathTo(d, path, n) && e == WalkEntry(segments + path, n.files)
    decreases d, 1
  {
    if e == WalkEntry(segments, d.files) {
      assert IsPathTo(d, [], d) && segments + [] == segments;
    } else {
      WalkChildEntry(segments, d, d.children, e);
    }
  }

  lemma {:induction false} WalkChildEntry(segments: seq<string>, d: Dir, cs: seq<Dir>, e: WalkEntry)
    requires forall c :: c in cs ==> c in d.children
    requires e in WalkChildren(segments, cs)
    ensures exists path, n :: IsPathTo(d, path, n) && e == WalkEntry(segments + path, n.files)
    decreases cs, 0
  {
    var c := cs[0];
    if e in WalkFrom(segments + [c.name], c) {
      WalkEntryIsDirectory(segments + [c.name], c, e);
      var path, n :| IsPathTo(c, path, n) && e == WalkEntry(segments + [c.name] + path, n.files);
      assert ([c.name] + path)[1..] == path;
      assert IsPathTo(d, [c.name] + path, n);
      assert segments + [c.name] + path == segments + ([c.name] + path);
    } else {
      WalkChildEntry(segments, d, cs[1..], e);
    }
  }

  /** Paths through a tree with plain names have plain segments. */
  lemma {:induction false} PathIsPlain(d: Dir, path: seq<string>, n: Dir)
    requires PlainNames(d) && IsPathTo(d, path, n)
    ensures PlainSegments(path)
    decreases |path|
  {
    if |path| > 0 {
      var c :| c in d.children && c.name == path[0] && IsPathTo(c, path[1..], n);
      PathIsPlain(c, path[1..], n);
      assert path == [path[0]] + path[1..];
    }
  }

  /** The walk is not pruned: a directory below an excluded (non-root)
      directory is walked, lands in the excluded list, and not in the list
      of scanned directories. */
  lemma DescendantOfExcludedIsExcluded(cfg: ScanConfig, root: string, t: Dir, p: seq<string>, q: seq<string>, n: Dir)
    requires PlainNames(t)
    requires IsPathTo(t, p + q, n)
    requires |p| > 0 && IsExcludedDir(RelPath(p), ExclusionNames(cfg))
    ensures RelPath(p + q) in GatherFiles(cfg, root, Walk(t)).excluded
    ensures RelPath(p + q) !in GatherFiles(cfg, root, Walk(t)).directories
  {
    var names := ExclusionNames(cfg);
    PathIsPlain(t, p + q, n);
    assert PlainSegments(p) by {
      forall i | 0 <= i < |p| ensures Sep !in p[i] {
        assert p[i] == (p + q)[i];
      }
    }
    ExcludedIffSegmentNamed(p, names);
    var x :| x in names && x in p;
    assert x in p + q;
    ExcludedIffSegmentNamed(p + q, names);
    WalkVisitsEveryDirectory([], t, p + q, n);
    assert [] + (p + q) == p + q;
  }

  /** Every collected file comes from a readable, included file of a tree
      directory none of whose path pieces is an excluded name: nothing below
      an excluded directory is ever collected. */
  lemma CollectedFileLiesInScannedDirectory(cfg: ScanConfig, root: string, t: Dir, rec: FileRecord)
    requires PlainNames(t)
    requires rec in GatherFiles(cfg, root, Walk(t)).files
    ensures exists path, n, f :: IsPathTo(t, path, n) && NoPieceNamed(path, ExclusionNames(cfg))
                                 && f in n.files && IsCollected(cfg, f)
                                 && rec == RecordOf(DirPath(root, path), f)
  {
    var names := ExclusionNames(cfg);
    var e :| e in Walk(t) && Contributes(cfg, root, e, rec);
    WalkEntryIsDirectory([], t, e);
    var path, n :| IsPathTo(t, path, n) && e == WalkEntry([] + path, n.files);
    assert [] + path == path;
    PathIsPlain(t, path, n);
    ExcludedIffSegmentNamed(path, names);
    var f :| f in e.files && IsCollected(cfg, f) && rec == RecordOf(DirPath(root, e.segments), f);
    assert IsPathTo(t, path, n) && NoPieceNamed(path, names) && f in n.files;
  }

  /** Conversely, every readable, included file of such a directory is
      collected, with the path `os.walk` and `os.path.join` give it. */
  lemma ScannedDirectoryFileIsCollected(cfg: ScanConfig, root: string, t: Dir, path: seq<string>, n: Dir, f: FileEntry)
    requires PlainNames(t)
    requires IsPathTo(t, path, n) && NoPieceNamed(path, ExclusionNames(cfg))
    requires f in n.files && IsCollected(cfg, f)
    ensures RecordOf(DirPath(root, path), f) in GatherFiles(cfg, root, Walk(t)).files
  {
    var names := ExclusionNames(cfg);
    WalkVisitsEveryDirectory([], t, path, n);
    assert [] + path == path;
    PathIsPlain(t, path, n);
    ExcludedIffSegmentNamed(path, names);
    var e := WalkEntry(path, n.files);
    assert Contributes(cfg, root, e, RecordOf(DirPath(root, path), f));
  }
}
