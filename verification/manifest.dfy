/** `write_to_file` of the two dumpers: the report as the sequence of strings
    passed to successive `file.write` calls (the file's text is their
    concatenation). Entries are suppressed by a substring test against the
    output-exclude names, which is broader than the segment test the scan
    uses. */
module Manifest {
  import opened Text
  import opened Seqs
  import opened Scanner

  /** Appended to every listed excluded directory. */
  const ExcludedMarker: string := " [excluded from files_within.txt]"

  const FilesLabel: string := "Number of files: "
  const DirectoriesLabel: string := "Number of directories: "
  const StructureTitle: string := "Directory structure:\n"
  const PathListTitle: string := "List of file paths:\n"

  /** The output filter: one of the names occurs somewhere in `s`. */
  predicate Suppressed(s: string, names: seq<string>) {
    exists n :: n in names && Contains(s, n)
  }

  /** The directory paths that are written, in their given order. */
  function VisibleDirs(dirs: seq<string>, names: seq<string>): (r: seq<string>)
    ensures |r| <= |dirs|
    ensures forall d :: d in r <==> d in dirs && !Suppressed(d, names)
    ensures IsSubsequence(r, dirs)
    ensures forall d :: multiset(r)[d] == if Suppressed(d, names) then 0 else multiset(dirs)[d]
  {
    FilterOrder(dirs, d => !Suppressed(d, names));
    Filter(dirs, d => !Suppressed(d, names))
  }

  /** The collected files that are written, in their collected order. */
  function VisibleFiles(data: seq<FileRecord>, names: seq<string>): (r: seq<FileRecord>)
    ensures |r| <= |data|
    ensures forall rec :: rec in r <==> rec in data && !Suppressed(rec.path, names)
    ensures IsSubsequence(r, data)
    ensures forall rec :: multiset(r)[rec] == if Suppressed(rec.path, names) then 0 else multiset(data)[rec]
  {
    FilterOrder(data, (rec: FileRecord) => !Suppressed(rec.path, names));
    Filter(data, (rec: FileRecord) => !Suppressed(rec.path, names))
  }

  /** The line naming a scanned directory. */
  function DirLine(d: string): string {
    d + "\n"
  }

  /** The line naming an excluded directory, with its marker. */
  function ExcludedLine(d: string): string {
    d + ExcludedMarker + "\n"
  }

  function DirLines(dirs: seq<string>): (r: seq<string>)
    ensures |r| == |dirs|
    ensures forall i :: 0 <= i < |dirs| ==> r[i] == DirLine(dirs[i])
  {
    seq(|dirs|, i requires 0 <= i < |dirs| => DirLine(dirs[i]))
  }

  function ExcludedLines(dirs: seq<string>): (r: seq<string>)
    ensures |r| == |dirs|
    ensures forall i :: 0 <= i < |dirs| ==> r[i] == ExcludedLine(dirs[i])
  {
    seq(|dirs|, i requires 0 <= i < |dirs| => ExcludedLine(dirs[i]))
  }

  /** The line naming a listed file. */
  function PathLine(rec: FileRecord): string {
    rec.path + "\n"
  }

  /** The entry giving a listed file's contents. */
  function ContentEntry(rec: FileRecord): string {
    rec.path + ":\n" + rec.contents + "\n"
  }

  function PathLines(files: seq<FileRecord>): (r: seq<string>)
    ensures |r| == |files|
    ensures forall i :: 0 <= i < |files| ==> r[i] == PathLine(files[i])
  {
    seq(|files|, i requires 0 <= i < |files| => PathLine(files[i]))
  }

  function ContentEntries(files: seq<FileRecord>): (r: seq<string>)
    ensures |r| == |files|
    ensures forall i :: 0 <= i < |files| ==> r[i] == ContentEntry(files[i])
  {
    seq(|files|, i requires 0 <= i < |files| => ContentEntry(files[i]))
  }

  /** The two count lines and the structure title. */
  function Header(data: seq<FileRecord>, dirs: seq<string>, excluded: seq<string>): (r: seq<string>)
    ensures |r| == 3
  {
    [FilesLabel + NatToString(|data|) + "\n",
     DirectoriesLabel + NatToString(|dirs| + |excluded|) + "\n\n",
     StructureTitle]
  }

  /** The blank line closing the structure and the path-list title. */
  const Between: seq<string> := ["\n", PathListTitle]

  /** The blank line closing the path list. */
  const Gap: seq<string> := ["\n"]

  /** The writes of `write_to_file` for given header lines and the
      directories and files that pass the output filter. */
  function Layout(head: seq<string>, vd: seq<string>, ve: seq<string>, shown: seq<FileRecord>): seq<string> {
    Sections(head, DirLines(vd), ExcludedLines(ve),
             Between, PathLines(shown), Gap, ContentEntries(shown))
  }

  /** The writes of `write_to_file`, in order. */
  function Report(data: seq<FileRecord>, dirs: seq<string>, excluded: seq<string>, names: seq<string>): seq<string> {
    Layout(Header(data, dirs, excluded), VisibleDirs(dirs, names), VisibleDirs(excluded, names), VisibleFiles(data, names))
  }

  /** The seven-part concatenation the report is made of. */
  function Sections<T>(head: seq<T>, a: seq<T>, b: seq<T>, mid: seq<T>, c: seq<T>, gap: seq<T>, d: seq<T>): seq<T> {
    head + (a + (b + (mid + (c + (gap + d)))))
  }

  // Where each part of `Sections` lands, for a three-element head, a
  // two-element middle and a one-element gap.

  lemma FixedPositions<T>(head: seq<T>, a: seq<T>, b: seq<T>, mid: seq<T>, c: seq<T>, gap: seq<T>, d: seq<T>)
    requires |head| == 3 && |mid| == 2 && |gap| == 1
    ensures
      var r := Sections(head, a, b, mid, c, gap, d);
      var k := |a| + |b|;
      && |r| == 6 + k + |c| + |d|
      && r[0] == head[0] && r[1] == head[1] && r[2] == head[2]
      && r[3 + k] == mid[0] && r[4 + k] == mid[1]
      && r[5 + k + |c|] == gap[0]
  {
    var t5 := gap + d;
    var t4 := c + t5;
    var t3 := mid + t4;
    var t2 := b + t3;
    var t1 := a + t2;
    var r := head + t1;
    var k := |a| + |b|;
    assert r[3 + k] == t1[k] == t2[|b|] == t3[0];
    assert r[4 + k] == t1[k + 1] == t2[|b| + 1] == t3[1];
    assert r[5 + k + |c|] == t1[k + 2 + |c|] == t2[|b| + 2 + |c|] == t3[2 + |c|] == t4[|c|] == t5[0];
  }

  lemma InFirst<T>(head: seq<T>, a: seq<T>, b: seq<T>, mid: seq<T>, c: seq<T>, gap: seq<T>, d: seq<T>, i: int)
    requires |head| == 3 && 0 <= i < |a|
    ensures Sections(head, a, b, mid, c, gap, d)[3 + i] == a[i]
  {
    var t1 := a + (b + (mid + (c + (gap + d))));
    assert Sections(head, a, b, mid, c, gap, d)[3 + i] == t1[i];
  }

  lemma InSecond<T>(head: seq<T>, a: seq<T>, b: seq<T>, mid: seq<T>, c: seq<T>, gap: seq<T>, d: seq<T>, i: int)
    requires |head| == 3 && 0 <= i < |b|
    ensures Sections(head, a, b, mid, c, gap, d)[3 + |a| + i] == b[i]
  {
    var t2 := b + (mid + (c + (gap + d)));
    var t1 := a + t2;
    assert Sections(head, a, b, mid, c, gap, d)[3 + |a| + i] == t1[|a| + i] == t2[i];
  }

  lemma InThird<T>(head: seq<T>, a: seq<T>, b: seq<T>, mid: seq<T>, c: seq<T>, gap: seq<T>, d: seq<T>, i: int)
    requires |head| == 3 && |mid| == 2 && 0 <= i < |c|
    ensures Sections(head, a, b, mid, c, gap, d)[5 + |a| + |b| + i] == c[i]
  {
    var t4 := c + (gap + d);
    var t3 := mid + t4;
    var t2 := b + t3;
    var t1 := a + t2;
    var k := |a| + |b|;
    assert Sections(head, a, b, mid, c, gap, d)[5 + k + i] == t1[k + 2 + i] == t2[|b| + 2 + i] == t3[2 + i] == t4[i];
  }

  lemma InFourth<T>(head: seq<T>, a: seq<T>, b: seq<T>, mid: seq<T>, c: seq<T>, gap: seq<T>, d: seq<T>, i: int)
    requires |head| == 3 && |mid| == 2 && |gap| == 1 && 0 <= i < |d|
    ensures Sections(head, a, b, mid, c, gap, d)[6 + |a| + |b| + |c| + i] == d[i]
  {
    var t5 := gap + d;
    var t4 := c + t5;
    var t3 := mid + t4;
    var t2 := b + t3;
    var t1 := a + t2;
    var k := |a| + |b|;
    assert Sections(head, a, b, mid, c, gap, d)[6 + k + |c| + i] == t1[k + 3 + |c| + i] == t2[|b| + 3 + |c| + i] == t3[3 + |c| + i]
        == t4[|c| + 1 + i] == t5[1 + i];
  }

  /** Where each line of the report lands, for a three-line header. */
  lemma LayoutPositions(head: seq<string>, vd: seq<string>, ve: seq<string>, shown: seq<FileRecord>)
    requires |head| == 3
    ensures |Layout(head, vd, ve, shown)| == 6 + |vd| + |ve| + 2 * |shown|
    ensures var r := Layout(head, vd, ve, shown);
            && r[0] == head[0] && r[1] == head[1] && r[2] == head[2]
            && r[3 + |vd| + |ve|] == "\n" && r[4 + |vd| + |ve|] == PathListTitle
            && r[5 + |vd| + |ve| + |shown|] == "\n"
    ensures var r := Layout(head, vd, ve, shown); forall i :: 0 <= i < |vd| ==> r[3 + i] == DirLine(vd[i])
    ensures var r := Layout(head, vd, ve, shown); forall i :: 0 <= i < |ve| ==> r[3 + |vd| + i] == ExcludedLine(ve[i])
    ensures var r := Layout(head, vd, ve, shown);
            forall i :: 0 <= i < |shown| ==> r[5 + |vd| + |ve| + i] == PathLine(shown[i])
    ensures var r := Layout(head, vd, ve, shown);
            forall i :: 0 <= i < |shown| ==> r[6 + |vd| + |ve| + |shown| + i] == ContentEntry(shown[i])
  {
    var r := Layout(head, vd, ve, shown);
    LayoutFixedLines(head, vd, ve, shown);
    forall i | 0 <= i < |vd| ensures r[3 + i] == DirLine(vd[i]) {
      DirLineAt(head, vd, ve, shown, i);
    }
    forall i | 0 <= i < |ve| ensures r[3 + |vd| + i] == ExcludedLine(ve[i]) {
      ExcludedLineAt(head, vd, ve, shown, i);
    }
    forall i | 0 <= i < |shown| ensures r[5 + |vd| + |ve| + i] == PathLine(shown[i]) {
      PathLineAt(head, vd, ve, shown, i);
    }
    forall i | 0 <= i < |shown| ensures r[6 + |vd| + |ve| + |shown| + i] == ContentEntry(shown[i]) {
      ContentEntryAt(head, vd, ve, shown, i);
    }
  }

  lemma LayoutFixedLines(head: seq<string>, vd: seq<string>, ve: seq<string>, shown: seq<FileRecord>)
    requires |head| == 3
    ensures |Layout(head, vd, ve, shown)| == 6 + |vd| + |ve| + 2 * |shown|
    ensures var r := Layout(head, vd, ve, shown);
            && r[0] == head[0] && r[1] == head[1] && r[2] == head[2]
            && r[3 + |vd| + |ve|] == "\n" && r[4 + |vd| + |ve|] == PathListTitle
            && r[5 + |vd| + |ve| + |shown|] == "\n"
  {
    assert Between[0] == "\n" && Between[1] == PathListTitle && Gap[0] == "\n";
    FixedPositions(head, DirLines(vd), ExcludedLines(ve), Between, PathLines(shown), Gap, ContentEntries(shown));
  }

  lemma DirLineAt(head: seq<string>, vd: seq<string>, ve: seq<string>, shown: seq<FileRecord>, i: int)
    requires |head| == 3 && 0 <= i < |vd|
    ensures Layout(head, vd, ve, shown)[3 + i] == DirLine(vd[i])
  {
    InFirst(head, DirLines(vd), ExcludedLines(ve), Between, PathLines(shown), Gap, ContentEntries(shown), i);
  }

  lemma ExcludedLineAt(head: seq<string>, vd: seq<string>, ve: seq<string>, shown: seq<FileRecord>, i: int)
    requires |head| == 3 && 0 <= i < |ve|
    ensures Layout(head, vd, ve, shown)[3 + |vd| + i] == ExcludedLine(ve[i])
  {
    InSecond(head, DirLines(vd), ExcludedLines(ve), Between, PathLines(shown), Gap, ContentEntries(shown), i);
  }

  lemma PathLineAt(head: seq<string>, vd: seq<string>, ve: seq<string>, shown: seq<FileRecord>, i: int)
    requires |head| == 3 && 0 <= i < |shown|
    ensures Layout(head, vd, ve, shown)[5 + |vd| + |ve| + i] == PathLine(shown[i])
  {
    InThird(head, DirLines(vd), ExcludedLines(ve), Between, PathLines(shown), Gap, ContentEntries(shown), i);
  }

  lemma ContentEntryAt(head: seq<string>, vd: seq<string>, ve: seq<string>, shown: seq<FileRecord>, i: int)
    requires |head| == 3 && 0 <= i < |shown|
    ensures Layout(head, vd, ve, shown)[6 + |vd| + |ve| + |shown| + i] == ContentEntry(shown[i])
  {
    InFourth(head, DirLines(vd), ExcludedLines(ve), Between, PathLines(shown), Gap, ContentEntries(shown), i);
  }

  /** The layout of the report. With `k` structure lines and `m` listed
      files: the two count lines, the structure title, the visible
      directories, the visible excluded directories with their marker, a
      blank line, the path-list title, the `m` paths, a blank line, then the
      `m` content entries of the same files in the same order. The file count
      is that of all collected files, listed or not. */
  lemma ReportLayout(data: seq<FileRecord>, dirs: seq<string>, excluded: seq<string>, names: seq<string>)
    ensures
      var r := Report(data, dirs, excluded, names);
      var vd := VisibleDirs(dirs, names);
      var ve := VisibleDirs(excluded, names);
      var shown := VisibleFiles(data, names);
      var k := |vd| + |ve|;
      var m := |shown|;
      && |r| == 6 + k + 2 * m
      && r[0] == FilesLabel + NatToString(|data|) + "\n"
      && r[1] == DirectoriesLabel + NatToString(|dirs| + |excluded|) + "\n\n"
      && r[2] == StructureTitle
      && (forall i :: 0 <= i < |vd| ==> r[3 + i] == DirLine(vd[i]))
      && (forall i :: 0 <= i < |ve| ==> r[3 + |vd| + i] == ExcludedLine(ve[i]))
      && r[3 + k] == "\n"
      && r[4 + k] == PathListTitle
      && (forall i :: 0 <= i < m ==> r[5 + k + i] == PathLine(shown[i]))
      && r[5 + k + m] == "\n"
      && (forall i :: 0 <= i < m ==> r[6 + k + m + i] == ContentEntry(shown[i]))
  {
    LayoutPositions(Header(data, dirs, excluded), VisibleDirs(dirs, names), VisibleDirs(excluded, names), VisibleFiles(data, names));
  }

  /** The header's file count reads back as the number of collected files. */
  lemma FileCountReadsBack(data: seq<FileRecord>, dirs: seq<string>, excluded: seq<string>, names: seq<string>)
    ensures var line := Report(data, dirs, excluded, names)[0];
            && IsPrefix(FilesLabel, line)
            && EndsWith(line, "\n")
            && var digits := line[|FilesLabel|..|line| - 1];
               (forall i :: 0 <= i < |digits| ==> IsDigit(digits[i])) && ParseDecimal(digits) == |data|
  {
    ReportLayout(data, dirs, excluded, names);
    var line := Report(data, dirs, excluded, names)[0];
    assert line[|FilesLabel|..|line| - 1] == NatToString(|data|);
    ParseNatToString(|data|);
  }

  /** The header counts every collected file, listed or not: the listing
      falls short of the count exactly when some file's path is suppressed. */
  lemma FileCountIncludesSuppressed(data: seq<FileRecord>, names: seq<string>)
    ensures |VisibleFiles(data, names)| <= |data|
    ensures |VisibleFiles(data, names)| < |data| <==> exists rec :: rec in data && Suppressed(rec.path, names)
  {
    FilterKeepsAll(data, (rec: FileRecord) => !Suppressed(rec.path, names));
  }

  /** A path excluded by the segment test on some names is also suppressed
      by the substring test on the same names. */
  lemma SegmentMatchImpliesSuppressed(d: string, names: seq<string>)
    requires IsExcludedDir(d, names)
    ensures Suppressed(d, names)
  {
    var n :| n in names && n in Split(d, Sep);
    PieceIsSubstring(d, Sep, n);
  }

  /** Consequently a directory the scan excluded because of an output-exclude
      name never appears in the report. */
  lemma OutputExcludedDirectoryNotListed(cfg: ScanConfig, d: string, excluded: seq<string>)
    requires IsExcludedDir(d, cfg.outputExclude)
    ensures d !in VisibleDirs(excluded, cfg.outputExclude)
  {
    SegmentMatchImpliesSuppressed(d, cfg.outputExclude);
  }
}
