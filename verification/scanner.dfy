/** `gather_files` of the two source-tree dumpers (`gather_directory.py` and
    `gather_pythons.py`). The filesystem walk is an input: a sequence of
    directory entries in the order `os.walk` yields them, each carrying the
    directory's path segments below the root and its files with their read
    outcome. The two scripts differ only in their configuration constants,
    so each is one `ScanConfig`. */
module Scanner {
  import opened Wrappers
  import opened Text
  import opened Order
  import opened Seqs

  /** The file name both scripts always skip, whatever its directory. */
  const SkippedName: string := "gather_pythons.py"

  /** A file as the walk lists it, with the outcome of reading it as UTF-8
      text: `None` when the read raised (a decoding or any other error). */
  datatype FileEntry = FileEntry(name: string, contents: Option<string>)

  /** One step of the walk: a directory given by its path segments below the
      root (`[]` for the root itself) and the files directly inside it. */
  datatype WalkEntry = WalkEntry(segments: seq<string>, files: seq<FileEntry>)

  /** The constants a dumper passes to `gather_files`. */
  datatype ScanConfig = ScanConfig(
    scanExclude: seq<string>,
    outputExclude: seq<string>,
    includeHtml: bool,
    includeJs: bool,
    includeCss: bool,
    includeMd: bool)

  /** A collected file: its path (the walked directory joined with the file
      name) and its full text. */
  datatype FileRecord = FileRecord(path: string, contents: string)

  /** What `gather_files` returns: files in walk order, then the sorted
      visited and excluded relative directory paths. */
  datatype ScanResult = ScanResult(files: seq<FileRecord>, directories: seq<string>, excluded: seq<string>)

  /** The configuration of `gather_directory.py`. */
  const DirectoryDumper: ScanConfig := ScanConfig(
    [".git", "directory_printouts", "VERSIONS", "__pycache__", "othersecretefolder"],
    [".git", "directory_printouts", "VERSIONS", "__pycache__"],
    true, true, true, true)

  /** The configuration of `gather_pythons.py`, which has no Markdown flag. */
  const PythonsDumper: ScanConfig := ScanConfig(
    ["VERSIONS", "__pycache__", "pets_venv", "ip_adapter", "2024sept7_test", "othersecretefolder"],
    ["VERSIONS", "__pycache__", "pets_venv"],
    true, true, true, false)

  /** The names tested against every directory: both lists, concatenated. */
  function ExclusionNames(cfg: ScanConfig): seq<string> {
    cfg.scanExclude + cfg.outputExclude
  }

  /** `os.path.relpath(dirpath, root)` for a directory reached through
      `segments`: `"."` for the root, the segments joined by `/` otherwise. */
  function RelPath(segments: seq<string>): string {
    if |segments| == 0 then "." else Join(segments, Sep)
  }

  /** The directory test: some piece of the relative path, split on the
      separator, equals one of the names. */
  predicate IsExcludedDir(relPath: string, names: seq<string>) {
    exists n :: n in names && n in Split(relPath, Sep)
  }

  /** The pieces the exclusion test sees for a directory: its segments, or
      the single piece `"."` for the root. */
  function RelPieces(segments: seq<string>): seq<string> {
    if |segments| == 0 then ["."] else segments
  }

  /** No segment contains the separator, as holds for real directory names. */
  predicate PlainSegments(segments: seq<string>) {
    forall i :: 0 <= i < |segments| ==> Sep !in segments[i]
  }

  /** Splitting the relative path gives back exactly the directory's pieces. */
  lemma RelPathPieces(segments: seq<string>)
    requires PlainSegments(segments)
    ensures Split(RelPath(segments), Sep) == RelPieces(segments)
  {
    if |segments| == 0 {
      SplitWithoutSep(".", Sep);
    } else {
      SplitJoin(segments, Sep);
    }
  }

  /** A directory is excluded iff one of its own path segments (or `"."` for
      the root) is equal to one of the names; a name that only occurs inside
      a segment does not exclude. */
  lemma ExcludedIffSegmentNamed(segments: seq<string>, names: seq<string>)
    requires PlainSegments(segments)
    ensures IsExcludedDir(RelPath(segments), names)
            <==> exists n :: n in names && n in RelPieces(segments)
  {
    RelPathPieces(segments);
  }

  /** The extension test: `.py` always, the other four when their flag is on. */
  predicate HasIncludedExtension(cfg: ScanConfig, name: string) {
    EndsWith(name, ".py")
    || (cfg.includeHtml && EndsWith(name, ".html"))
    || (cfg.includeJs && EndsWith(name, ".js"))
    || (cfg.includeCss && EndsWith(name, ".css"))
    || (cfg.includeMd && EndsWith(name, ".md"))
  }

  /** A file of a scanned directory ends up in the result iff it is not the
      skipped name, has an included extension and could be read. */
  predicate IsCollected(cfg: ScanConfig, f: FileEntry) {
    f.name != SkippedName && HasIncludedExtension(cfg, f.name) && f.contents.Some?
  }

  lemma EndsWithLastChar(s: string, suffix: string)
    requires |suffix| > 0 && EndsWith(s, suffix)
    ensures s[|s| - 1] == suffix[|suffix| - 1]
  {
    assert s[|s| - |suffix|..][|suffix| - 1] == s[|s| - 1];
  }

  /** The two dumpers collect the same files except Markdown, which only
      `gather_directory.py` includes. */
  lemma PythonsDumperIsDirectoryDumperWithoutMarkdown(f: FileEntry)
    ensures IsCollected(PythonsDumper, f) <==> IsCollected(DirectoryDumper, f) && !EndsWith(f.name, ".md")
  {
    if EndsWith(f.name, ".md") {
      EndsWithLastChar(f.name, ".md");
      if EndsWith(f.name, ".py") { EndsWithLastChar(f.name, ".py"); }
      if EndsWith(f.name, ".html") { EndsWithLastChar(f.name, ".html"); }
      if EndsWith(f.name, ".js") { EndsWithLastChar(f.name, ".js"); }
      if EndsWith(f.name, ".css") { EndsWithLastChar(f.name, ".css"); }
    }
  }

  /** The skip test compares the bare name with `gather_pythons.py` only, so
      `gather_directory.py` collects its own source when it lies in the tree,
      and neither dumper ever collects a file of that name. */
  lemma SelfSkipIsByName(contents: string, cfg: ScanConfig)
    ensures IsCollected(DirectoryDumper, FileEntry("gather_directory.py", Some(contents)))
    ensures !IsCollected(cfg, FileEntry(SkippedName, Some(contents)))
  {
    assert "gather_directory.py"[16..] == ".py";
    assert "gather_directory.py"[7] != SkippedName[7];
  }

  /** The `dirpath` `os.walk` reports: the root, extended one
      `os.path.join` per segment. */
  function DirPath(root: string, segments: seq<string>): string
    decreases |segments|
  {
    if |segments| == 0 then root
    else PathJoin(DirPath(root, segments[..|segments| - 1]), segments[|segments| - 1])
  }

  function RecordOf(dirPath: string, f: FileEntry): FileRecord
    requires f.contents.Some?
  {
    FileRecord(PathJoin(dirPath, f.name), f.contents.value)
  }

  /** The inner loop over one scanned directory's files. */
  function CollectFiles(cfg: ScanConfig, dirPath: string, files: seq<FileEntry>): (r: seq<FileRecord>)
    ensures |r| <= |files|
    ensures forall rec :: rec in r <==>
      exists f :: f in files && IsCollected(cfg, f) && rec == RecordOf(dirPath, f)
    decreases |files|
  {
    if |files| == 0 then []
    else
      var rest := CollectFiles(cfg, dirPath, files[1..]);
      assert files == [files[0]] + files[1..];
      if IsCollected(cfg, files[0]) then [RecordOf(dirPath, files[0])] + rest else rest
  }

  /** One record per readable file, in order. */
  function RecordsOf(dirPath: string, files: seq<FileEntry>): (r: seq<FileRecord>)
    requires forall f :: f in files ==> f.contents.Some?
    ensures |r| == |files|
    ensures forall i :: 0 <= i < |files| ==> r[i] == RecordOf(dirPath, files[i])
  {
    seq(|files|, i requires 0 <= i < |files| => RecordOf(dirPath, files[i]))
  }

  lemma RecordsOfCons(dirPath: string, f: FileEntry, files: seq<FileEntry>)
    requires f.contents.Some? && forall g :: g in files ==> g.contents.Some?
    ensures RecordsOf(dirPath, [f] + files) == [RecordOf(dirPath, f)] + RecordsOf(dirPath, files)
  {
  }

  /** The inner loop appends in `filenames` order: its records are those of
      the collected files, in the order the walk lists them. */
  lemma {:induction false} CollectFilesInOrder(cfg: ScanConfig, dirPath: string, files: seq<FileEntry>)
    ensures CollectFiles(cfg, dirPath, files) == RecordsOf(dirPath, Filter(files, f => IsCollected(cfg, f)))
    decreases |files|
  {
    var keep := f => IsCollected(cfg, f);
    if |files| > 0 {
      CollectFilesInOrder(cfg, dirPath, files[1..]);
      assert files == [files[0]] + files[1..];
      var kept := Filter(files, keep);
      var rest := Filter(files[1..], keep);
      if keep(files[0]) {
        assert kept == [files[0]] + rest;
        RecordsOfCons(dirPath, files[0], rest);
      } else {
        assert kept == rest;
      }
    }
  }

  /** Scanning two runs of files one after the other collects the first
      run's records, then the second's. */
  lemma {:induction false} CollectFilesAppend(cfg: ScanConfig, dirPath: string, fs1: seq<FileEntry>, fs2: seq<FileEntry>)
    ensures CollectFiles(cfg, dirPath, fs1 + fs2) == CollectFiles(cfg, dirPath, fs1) + CollectFiles(cfg, dirPath, fs2)
    decreases |fs1|
  {
    if |fs1| > 0 {
      assert (fs1 + fs2)[0] == fs1[0];
      assert (fs1 + fs2)[1..] == fs1[1..] + fs2;
      CollectFilesAppend(cfg, dirPath, fs1[1..], fs2);
    } else {
      assert fs1 + fs2 == fs2;
    }
  }

  /** `rec` is one of the records the walk step `e` contributes. */
  predicate Contributes(cfg: ScanConfig, root: string, e: WalkEntry, rec: FileRecord) {
    && !IsExcludedDir(RelPath(e.segments), ExclusionNames(cfg))
    && exists f :: f in e.files && IsCollected(cfg, f) && rec == RecordOf(DirPath(root, e.segments), f)
  }

  /** The three accumulators of the walk loop before sorting: files and
      directory paths in walk order. */
  datatype Traversal = Traversal(files: seq<FileRecord>, directories: seq<string>, excluded: seq<string>)

  /** The walk loop: an excluded directory adds its relative path to the
      excluded list and nothing else; any other directory adds its relative
      path and its collected files. */
  function Visit(cfg: ScanConfig, root: string, walk: seq<WalkEntry>): Traversal
    decreases |walk|
  {
    if |walk| == 0 then Traversal([], [], [])
    else
      var e := walk[0];
      var rest := Visit(cfg, root, walk[1..]);
      var rel := RelPath(e.segments);
      if IsExcludedDir(rel, ExclusionNames(cfg)) then
        Traversal(rest.files, rest.directories, [rel] + rest.excluded)
      else
        Traversal(CollectFiles(cfg, DirPath(root, e.segments), e.files) + rest.files,
                  [rel] + rest.directories, rest.excluded)
  }

  /** The loop's directory list holds exactly the walked directories that
      pass the exclusion test. */
  lemma {:induction false} VisitListsScannedDirectories(cfg: ScanConfig, root: string, walk: seq<WalkEntry>)
    ensures forall d :: d in Visit(cfg, root, walk).directories <==>
      exists e :: e in walk && d == RelPath(e.segments) && !IsExcludedDir(d, ExclusionNames(cfg))
    decreases |walk|
  {
    if |walk| > 0 {
      VisitListsScannedDirectories(cfg, root, walk[1..]);
      assert walk == [walk[0]] + walk[1..];
    }
  }

  /** The loop's excluded list holds exactly the walked directories that
      fail the exclusion test. */
  lemma {:induction false} VisitListsExcludedDirectories(cfg: ScanConfig, root: string, walk: seq<WalkEntry>)
    ensures forall d :: d in Visit(cfg, root, walk).excluded <==>
      exists e :: e in walk && d == RelPath(e.segments) && IsExcludedDir(d, ExclusionNames(cfg))
    decreases |walk|
  {
    if |walk| > 0 {
      VisitListsExcludedDirectories(cfg, root, walk[1..]);
      assert walk == [walk[0]] + walk[1..];
    }
  }

  /** The loop's file list holds exactly the files the walked directories
      contribute. */
  lemma {:induction false} VisitCollectsContributedFiles(cfg: ScanConfig, root: string, walk: seq<WalkEntry>)
    ensures forall rec :: rec in Visit(cfg, root, walk).files <==>
      exists e :: e in walk && Contributes(cfg, root, e, rec)
    decreases |walk|
  {
    if |walk| > 0 {
      VisitCollectsContributedFiles(cfg, root, walk[1..]);
      forall rec ensures rec in Visit(cfg, root, walk).files <==>
        exists e :: e in walk && Contributes(cfg, root, e, rec)
      {
        VisitFileStep(cfg, root, walk, rec);
      }
    }
  }

  lemma VisitFileStep(cfg: ScanConfig, root: string, walk: seq<WalkEntry>, rec: FileRecord)
    requires |walk| > 0
    requires forall r :: r in Visit(cfg, root, walk[1..]).files <==>
      exists e :: e in walk[1..] && Contributes(cfg, root, e, r)
    ensures rec in Visit(cfg, root, walk).files <==> exists e :: e in walk && Contributes(cfg, root, e, rec)
  {
    var e := walk[0];
    var here := CollectFiles(cfg, DirPath(root, e.segments), e.files);
    assert walk == [e] + walk[1..];
    assert !IsExcludedDir(RelPath(e.segments), ExclusionNames(cfg)) ==> (rec in here <==> Contributes(cfg, root, e, rec));
    if exists x :: x in walk && Contributes(cfg, root, x, rec) {
      var x :| x in walk && Contributes(cfg, root, x, rec);
      if x != e {
        assert x in walk[1..];
      }
    }
  }

  /** `gather_files`: every walked directory lands in exactly one of the two
      sorted, duplicate-free lists according to the exclusion test, and the
      files are exactly those the scanned directories contribute. */
  function GatherFiles(cfg: ScanConfig, root: string, walk: seq<WalkEntry>): (r: ScanResult)
    ensures StrictlySorted(r.directories) && StrictlySorted(r.excluded)
    ensures forall d :: d in r.directories <==>
      exists e :: e in walk && d == RelPath(e.segments) && !IsExcludedDir(d, ExclusionNames(cfg))
    ensures forall d :: d in r.excluded <==>
      exists e :: e in walk && d == RelPath(e.segments) && IsExcludedDir(d, ExclusionNames(cfg))
    ensures forall d :: d in r.directories ==> d !in r.excluded
    ensures forall rec :: rec in r.files <==> exists e :: e in walk && Contributes(cfg, root, e, rec)
  {
    var t := Visit(cfg, root, walk);
    VisitListsScannedDirectories(cfg, root, walk);
    VisitListsExcludedDirectories(cfg, root, walk);
    VisitCollectsContributedFiles(cfg, root, walk);
    ScanResult(t.files, SortedUnique(t.directories), SortedUnique(t.excluded))
  }

  /** Files keep walk order: the files of an earlier part of the walk come
      before those of a later part. */
  lemma {:induction false} FilesFollowWalkOrder(cfg: ScanConfig, root: string, w1: seq<WalkEntry>, w2: seq<WalkEntry>)
    ensures GatherFiles(cfg, root, w1 + w2).files
         == GatherFiles(cfg, root, w1).files + GatherFiles(cfg, root, w2).files
    decreases |w1|
  {
    if |w1| == 0 {
      assert w1 + w2 == w2;
    } else {
      assert (w1 + w2)[1..] == w1[1..] + w2;
      FilesFollowWalkOrder(cfg, root, w1[1..], w2);
    }
  }

  /** Scanning the same walk twice gives the same result, and the directory
      lists only depend on which directories were walked, not on the order. */
  lemma DirectoryListsIgnoreWalkOrder(cfg: ScanConfig, root: string, w1: seq<WalkEntry>, w2: seq<WalkEntry>)
    requires forall e :: e in w1 <==> e in w2
    ensures GatherFiles(cfg, root, w1).directories == GatherFiles(cfg, root, w2).directories
    ensures GatherFiles(cfg, root, w1).excluded == GatherFiles(cfg, root, w2).excluded
  {
    var r1 := GatherFiles(cfg, root, w1);
    var r2 := GatherFiles(cfg, root, w2);
    SortedListingIsUnique(r1.directories, r2.directories);
    SortedListingIsUnique(r1.excluded, r2.excluded);
  }
}
