/** Worked examples of the dumpers over a small tree. */
module Scenarios {
  import opened Wrappers
  import opened Text
  import opened Scanner
  import opened WalkTree
  import opened Manifest

  function CacheDir(): Dir {
    Dir("__pycache__", [FileEntry("x.py", Some("cached"))], [])
  }

  function ADir(): Dir {
    Dir("a", [FileEntry("keep.py", Some("print(1)"))], [CacheDir()])
  }

  function OldDir(): Dir {
    Dir("VERSIONS_old", [FileEntry("v.py", Some("old"))], [])
  }

  function Sample(): Dir {
    Dir("", [FileEntry("b.md", Some("# notes"))], [ADir(), OldDir()])
  }

  /** A plain directory name is excluded iff it is itself one of the names. */
  lemma PlainNameNotExcluded(w: string, names: seq<string>)
    requires Sep !in w && w !in names
    ensures !IsExcludedDir(w, names)
  {
    SplitWithoutSep(w, Sep);
  }

  /** A name occurring somewhere in a path suppresses it. */
  lemma SuppressedByOccurrence(s: string, n: string, names: seq<string>, i: int)
    requires n in names && OccursAt(s, n, i)
    ensures Suppressed(s, names)
  {
    ContainsIffOccurs(s, n);
  }

  lemma CacheDirExcluded()
    ensures IsExcludedDir("a/__pycache__", ExclusionNames(DirectoryDumper))
  {
    SplitJoin(["a", "__pycache__"], Sep);
    assert "__pycache__" in ExclusionNames(DirectoryDumper);
  }

  /** Every output-exclude name of `gather_directory.py` has a character
      outside `s`, so none of them occurs in `s`. */
  lemma NotSuppressedByMissingChars(s: string)
    requires 'g' !in s && '_' !in s && 'V' !in s
    ensures !Suppressed(s, DirectoryDumper.outputExclude)
  {
    MissingCharNotContained(s, ".git", 'g');
    MissingCharNotContained(s, "directory_printouts", '_');
    MissingCharNotContained(s, "VERSIONS", 'V');
    MissingCharNotContained(s, "__pycache__", '_');
  }

  lemma CacheDirSuppressed()
    ensures Suppressed("a/__pycache__", DirectoryDumper.outputExclude)
  {
    SuppressedByOccurrence("a/__pycache__", "__pycache__", DirectoryDumper.outputExclude, 2);
  }

  /** `VERSIONS_old` passes the segment test, since no exclude name is a
      whole piece of it, but the substring test still suppresses it. */
  lemma VersionsOldSuppressed()
    ensures !IsExcludedDir("VERSIONS_old", ExclusionNames(DirectoryDumper))
    ensures Suppressed("VERSIONS_old", DirectoryDumper.outputExclude)
  {
    PlainNameNotExcluded("VERSIONS_old", ExclusionNames(DirectoryDumper));
    SuppressedByOccurrence("VERSIONS_old", "VERSIONS", DirectoryDumper.outputExclude, 0);
  }

  /** A collected file below `VERSIONS_old` is in neither the path list nor
      the contents, whatever it holds. */
  lemma VersionsOldFileSuppressed(data: seq<FileRecord>, contents: string)
    ensures FileRecord("./VERSIONS_old/v.py", contents) !in VisibleFiles(data, DirectoryDumper.outputExclude)
  {
    SuppressedByOccurrence("./VERSIONS_old/v.py", "VERSIONS", DirectoryDumper.outputExclude, 2);
  }

  /** Joining two plain components inserts exactly one separator. */
  lemma JoinPlain(a: string, b: string)
    requires |a| > 0 && a[|a| - 1] != Sep
    requires |b| > 0 && b[0] != Sep
    ensures PathJoin(a, b) == a + [Sep] + b
  {
    assert !IsPrefix([Sep], b) by { assert b[..1] == [b[0]]; }
    assert !EndsWith(a, [Sep]) by { assert a[|a| - 1..] == [a[|a| - 1]]; }
  }

  lemma SampleDirPaths()
    ensures DirPath(".", []) == "."
    ensures DirPath(".", ["a"]) == "./a"
    ensures DirPath(".", ["VERSIONS_old"]) == "./VERSIONS_old"
  {
    assert ["a"][..0] == [] && ["VERSIONS_old"][..0] == [];
    JoinPlain(".", "a");
    JoinPlain(".", "VERSIONS_old");
  }

  lemma SampleFilePaths()
    ensures PathJoin(".", "b.md") == "./b.md"
    ensures PathJoin("./a", "keep.py") == "./a/keep.py"
    ensures PathJoin("./VERSIONS_old", "v.py") == "./VERSIONS_old/v.py"
  {
    JoinPlain(".", "b.md");
    JoinPlain("./a", "keep.py");
    JoinPlain("./VERSIONS_old", "v.py");
  }

  lemma SamplePlain()
    ensures PlainNames(Sample())
  {
    assert PlainNames(CacheDir());
    assert PlainNames(ADir());
    assert PlainNames(OldDir());
  }

  lemma SamplePaths()
    ensures PlainNames(Sample())
    ensures IsPathTo(Sample(), ["a"], Sample().children[0])
    ensures IsPathTo(Sample(), ["a", "__pycache__"], Sample().children[0].children[0])
    ensures IsPathTo(Sample(), ["VERSIONS_old"], Sample().children[1])
  {
    SamplePlain();
    assert IsPathTo(ADir(), [], ADir());
    assert IsPathTo(Sample(), ["a"], ADir());
    assert IsPathTo(CacheDir(), [], CacheDir());
    assert ["a", "__pycache__"][1..] == ["__pycache__"];
    assert ["__pycache__"][1..] == [];
    assert IsPathTo(ADir(), ["__pycache__"], CacheDir());
    assert IsPathTo(Sample(), ["a", "__pycache__"], CacheDir());
    assert IsPathTo(OldDir(), [], OldDir());
    assert IsPathTo(Sample(), ["VERSIONS_old"], OldDir());
  }

  /** The walk reaches `a/__pycache__` below the scanned `a` and excludes it. */
  lemma SampleCacheExcluded(t: Dir)
    requires t == Sample()
    ensures "a/__pycache__" in GatherFiles(DirectoryDumper, ".", Walk(t)).excluded
    ensures "a/__pycache__" !in GatherFiles(DirectoryDumper, ".", Walk(t)).directories
  {
    SamplePaths();
    assert RelPath(["a", "__pycache__"]) == "a/__pycache__";
    CacheDirExcluded();
    assert ["a", "__pycache__"] + [] == ["a", "__pycache__"];
    DescendantOfExcludedIsExcluded(DirectoryDumper, ".", t, ["a", "__pycache__"], [], t.children[0].children[0]);
  }

  /** The Python file of `a` is collected under its walked path. */
  lemma SampleKeepCollected(t: Dir)
    requires t == Sample()
    ensures FileRecord("./a/keep.py", "print(1)") in GatherFiles(DirectoryDumper, ".", Walk(t)).files
  {
    var f := FileEntry("keep.py", Some("print(1)"));
    SamplePaths();
    assert NoPieceNamed(["a"], ExclusionNames(DirectoryDumper));
    assert IsCollected(DirectoryDumper, f) by { assert "keep.py"[4..] == ".py"; }
    SampleDirPaths();
    SampleFilePaths();
    ScannedDirectoryFileIsCollected(DirectoryDumper, ".", t, ["a"], t.children[0], f);
  }

  /** The Python file of `a` is collected and also written to the report. */
  lemma SampleKeepListed(t: Dir)
    requires t == Sample()
    ensures FileRecord("./a/keep.py", "print(1)")
            in VisibleFiles(GatherFiles(DirectoryDumper, ".", Walk(t)).files, DirectoryDumper.outputExclude)
  {
    KeepPathShown();
    SampleKeepCollected(t);
    ShownFileListed(GatherFiles(DirectoryDumper, ".", Walk(t)).files, FileRecord("./a/keep.py", "print(1)"),
                    DirectoryDumper.outputExclude);
  }

  lemma KeepPathShown()
    ensures !Suppressed("./a/keep.py", DirectoryDumper.outputExclude)
  {
    NotSuppressedByMissingChars("./a/keep.py");
  }

  lemma ShownFileListed(data: seq<FileRecord>, rec: FileRecord, names: seq<string>)
    requires rec in data && !Suppressed(rec.path, names)
    ensures rec in VisibleFiles(data, names)
  {
  }
}
