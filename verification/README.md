# Source-tree dumpers and deploy rules, modelled in Dafny

This project models the pure logic in two small Python tools of a Flask web
app repository.

**The source-tree dumpers.** `gather_directory.py` and its near-copy
`gather_pythons.py` each walk a directory tree and collect the text of
its source files, then write one report file. A dumper has two parts:

- `gather_files`. It walks the tree and excludes every directory for which
  some `/`-separated piece of its relative path equals an exclude name. It
  keeps the readable files with an included extension and skips the name
  `gather_pythons.py`. It returns the files in walk order, plus two sorted,
  duplicate-free lists: directory paths that were scanned and those that
  were excluded.
- `write_to_file`. It writes the two counts, the directory structure, the
  list of file paths, and then every file's contents. It drops any entry
  in which an output-exclude name occurs as a substring.

Both scripts are one model (`Scanner`, `Manifest`) with two configurations
(`DirectoryDumper`, `PythonsDumper`). The filesystem walk is an input, as a
sequence of directory entries. `WalkTree` derives that sequence from a
directory tree, as a top-down `os.walk` does. Because the scripts never
prune `dirnames`, every directory below an excluded one is still walked,
and each lands in the excluded list through its own path.

Both scripts skip the file name `gather_pythons.py`. So `gather_directory.py`
collects its own source when it lies in the scanned tree. The model follows
the code here (`Scanner.SelfSkipIsByName`).

**The deploy script** `gcloud_deploy.py` (`Deploy`) contributes these rules:

- the newest-first stable sort of the version listing;
- the "Service not found" fallback to no versions;
- the `VERSION_MAX = 15` retention slice, which is taken only after a
  successful deploy, with the delete loop stopping at the first failed
  delete;
- the parsing of `git diff --name-only` output into paths;
- the shape of generated version names;
- the project check: the working directory's base name must occur in the
  project id.

Every `gcloud` and `git` call is an input: the listing or its error text,
success flags, and standard output text. Because the sizes compared are
the counts from before the deploy, a clean run that finds more than 15
versions leaves 16: the 15 kept plus the new one.

Supporting modules:

- `Text` covers the Python string operations used: `split` and `join` on
  one character, substring `in`, `endswith`, `strip` with Python's
  whitespace set, POSIX `os.path.join` and `basename`, and `str(int)`.
- `Order` covers Python's string order and `sorted(set(...))`.
- `Seqs` covers order-preserving filtering.
- `Scenarios` has worked examples over a small tree.

## Model

| member | source | states |
|---|---|---|
| Text.Split | gather_directory.py:45 | `str.split` on the separator yields at least one piece, no piece contains the separator, and joining the pieces gives the string back |
| Text.SplitJoin | gather_directory.py:45 | splitting a join of separator-free parts recovers exactly those parts |
| Text.ContainsIffOccurs | gather_directory.py:92 | the substring test `x in s` holds iff `x` occurs at some position of `s` |
| Text.Strip | gcloud_deploy.py:53 | `strip()` returns a part of the input that neither starts nor ends with whitespace, surrounded in the input only by whitespace |
| Text.StripPadded | gcloud_deploy.py:137 | stripping a trimmed text followed by whitespace (such as a trailing newline) gives the text back |
| Text.PathJoin | gather_directory.py:62 | `os.path.join(a, b)` ends with `b` and is `b` when `b` is absolute; otherwise it is `a + b` exactly when `a` is empty or already ends with `/`, and `a + "/" + b` in every other case |
| Text.Basename | gcloud_deploy.py:134 | `os.path.basename` is the separator-free suffix of the path that is preceded by a separator or starts the path |
| Text.BasenameOfJoin | gcloud_deploy.py:134 | the base name of a directory joined with a plain name is that name |
| Text.ParseNatToString | gather_directory.py:87-88 | the decimal text written for a count reads back as that count |
| Order.StrLtIsStrictTotalOrder | gather_directory.py:72 | Python's string `<` is irreflexive, transitive and total |
| Order.SortedUnique | gather_directory.py:72 | `sorted(set(xs))` is strictly increasing and holds exactly the strings of `xs` |
| Order.SortedListingIsUnique | gather_directory.py:72 | two strictly increasing lists with the same strings are equal |
| Order.SortedUniqueIgnoresOrder | gather_directory.py:38-39 | the sorted listing depends only on which strings were added, not on order or repetition |
| Seqs.FilterOrder | gather_directory.py:100-107 | a guarded loop emits a subsequence of its input holding each kept element exactly as often as the input does and no other |
| Seqs.FilterIsUnique | gather_directory.py:100-107 | only one subsequence keeps exactly those counts, so the two facts above pin down the loop's output |
| Seqs.FilterAppend | gather_directory.py:100-107 | a guarded loop over two consecutive parts emits the first part's survivors before the second's |
| Scanner.ExcludedIffSegmentNamed | gather_directory.py:43-47 | a directory is excluded iff one of its path segments (or `.` for the root) equals a name in the combined exclude lists |
| Scanner.PythonsDumperIsDirectoryDumperWithoutMarkdown | gather_pythons.py:53-56 | the per-file test of `gather_pythons.py` accepts exactly the files the per-file test of `gather_directory.py` accepts, minus those ending in `.md` |
| Scanner.SelfSkipIsByName | gather_directory.py:53-54 | only the name `gather_pythons.py` is skipped, so `gather_directory.py` collects its own source |
| Scanner.CollectFiles | gather_directory.py:51-70 | a file of a scanned directory is collected, as its joined path and contents, iff it is not the skipped name, has an included extension and could be read |
| Scanner.CollectFilesInOrder | gather_directory.py:51-66 | the records of one directory are those of its collected files, in the order the walk lists the files, one per file |
| Scanner.CollectFilesAppend | gather_directory.py:51-66 | scanning two runs of files one after the other collects the first run's records, then the second's |
| Scanner.VisitListsScannedDirectories | gather_directory.py:41-49 | the loop records exactly the walked directories that pass the exclusion test |
| Scanner.VisitListsExcludedDirectories | gather_directory.py:41-47 | the loop records exactly the walked directories that fail the exclusion test |
| Scanner.VisitCollectsContributedFiles | gather_directory.py:41-70 | the loop collects exactly the files contributed by non-excluded walked directories |
| Scanner.GatherFiles | gather_directory.py:37-72 | both directory lists are sorted and duplicate-free, each walked directory lands in exactly one of them according to the exclusion test, and the files are exactly those of scanned directories |
| Scanner.FilesFollowWalkOrder | gather_directory.py:66 | files keep walk order: the files of an earlier part of the walk precede those of a later part |
| Scanner.DirectoryListsIgnoreWalkOrder | gather_pythons.py:67 | the returned directory lists depend only on which directories were walked |
| WalkTree.WalkVisitsEveryDirectory | gather_directory.py:41 | `os.walk` reaches every directory of the tree, at its path of names |
| WalkTree.WalkEntryIsDirectory | gather_directory.py:41 | every walked entry is a directory of the tree at its path |
| WalkTree.DescendantOfExcludedIsExcluded | gather_directory.py:41-47 | since the walk is not pruned, a directory below an excluded one is walked, lands in the excluded list and not in the scanned list |
| WalkTree.CollectedFileLiesInScannedDirectory | gather_pythons.py:38-65 | every collected file comes from a collectable file of a tree directory with no excluded path segment, so nothing below an excluded directory is collected |
| WalkTree.ScannedDirectoryFileIsCollected | gather_pythons.py:38-65 | every collectable file of a directory with no excluded path segment is collected, at the path `os.walk` and `os.path.join` give it |
| Manifest.VisibleDirs | gather_directory.py:91-96 | a directory is written iff it is in the list and no output-exclude name occurs in it; the written ones keep list order, each written as often as it is listed |
| Manifest.VisibleFiles | gather_directory.py:100-107 | a file is listed iff it was collected and no output-exclude name occurs in its path; the listed ones keep collection order, each listed as often as it was collected |
| Manifest.ReportLayout | gather_directory.py:87-107 | the writes, in order: both counts, the structure title, visible directories, visible excluded directories with the marker, a blank line, the path-list title, the visible paths, a blank line, then one `path:\ncontents\n` entry per visible file in the same order |
| Manifest.FileCountReadsBack | gather_directory.py:87 | the first header line is the label, a run of digits reading back as the number of collected files, and a newline |
| Manifest.FileCountIncludesSuppressed | gather_pythons.py:82 | the listing has fewer entries than the header's file count exactly when some collected path is suppressed |
| Manifest.SegmentMatchImpliesSuppressed | gather_directory.py:45 | a path excluded by the segment test on some names is also suppressed by the substring test on the same names |
| Manifest.OutputExcludedDirectoryNotListed | gather_directory.py:94-96 | a directory excluded because of an output-exclude name never appears in the excluded section |
| Scenarios.SampleCacheExcluded | gather_directory.py:41-47 | in a sample tree, `a/__pycache__` below the scanned `a` is walked and listed as excluded |
| Scenarios.SampleKeepCollected | gather_directory.py:57-66 | in the sample tree, `./a/keep.py` is collected with its contents |
| Scenarios.CacheDirSuppressed | gather_directory.py:95 | `a/__pycache__` is suppressed from the report by the substring test |
| Scenarios.VersionsOldSuppressed | gather_directory.py:92 | `VERSIONS_old` passes the segment test but is suppressed by the substring test |
| Scenarios.SampleKeepListed | gather_directory.py:100-107 | in the sample tree, `./a/keep.py` is also written to the report |
| Scenarios.VersionsOldFileSuppressed | gather_directory.py:100-107 | a collected file below `VERSIONS_old`, whatever its contents, is left out of both the path list and the contents section |
| Deploy.InsertNewest | gcloud_deploy.py:28 | inserting into a newest-first list keeps it newest first and adds exactly the one version |
| Deploy.InsertKeepsTimeOrder | gcloud_deploy.py:28 | insertion puts the version before the others of its timestamp and leaves every other timestamp's versions unchanged |
| Deploy.SortNewestFirst | gcloud_deploy.py:28 | the sort is a newest-first permutation in which versions sharing a timestamp keep their listed order (a stable `reverse=True` sort) |
| Deploy.FirstIsNewest | gcloud_deploy.py:28 | the first sorted version is a listed one and no listed version is newer |
| Deploy.GetVersions | gcloud_deploy.py:22-35 | a listing gives its newest-first permutation in which versions sharing a timestamp keep their listed order; a failure containing "Service not found" gives no versions; any other failure is raised again with its error |
| Deploy.CurrentVersions | gcloud_deploy.py:80-87 | `deploy_service` carries on with no versions after any listing failure, and otherwise with the stable newest-first sort of the listing |
| Deploy.ToDelete | gcloud_deploy.py:121-123 | nothing is marked for deletion unless there are more than 15 versions; otherwise exactly the versions after the first 15 are |
| Deploy.OldestAreDeleted | gcloud_deploy.py:121-124 | kept and deleted versions partition the list in order, and each deleted version is at most as new as each kept one |
| Deploy.DeleteVersions | gcloud_deploy.py:38-44 | deletes run in order and stop at the first failure: the deleted ids are a prefix of the list whose deletes all succeeded, and the raised error is flagged exactly when the prefix is short, the next delete being the one that failed |
| Deploy.DeployService | gcloud_deploy.py:65-127 | the latest version announced is the first sorted one; a failed deploy deletes nothing; nothing is deleted with 15 or fewer versions; deleted ids are a prefix of those from position 15 on, in order, each accepted by `gcloud`; a delete failed exactly when a successful deploy over more than 15 versions meets a refused delete, and then the failed one is the next after the prefix; otherwise all of them are deleted |
| Deploy.EndingAsWritten | gcloud_deploy.py:38-44 | as written, the run crashes exactly when a delete failed, since the uncaptured error output cannot be decoded |
| Deploy.FailedDeleteCrashesAsWritten | gcloud_deploy.py:121-127 | after a successful deploy over sixteen versions whose oldest refuses deletion, the script as written crashes |
| Deploy.EndingIntended | gcloud_deploy.py:121-127 | with the error output captured, the handler decodes it and every run finishes |
| Deploy.NewestSurvive | gcloud_deploy.py:121-124 | with unique ids, none of the 15 newest versions is deleted |
| Deploy.ListedNames | gcloud_deploy.py:53-54 | the names are the non-empty lines of the stripped output, in output order, each as often as it occurs |
| Deploy.ChangedFiles | gcloud_deploy.py:47-57 | the changed paths are the listed names joined onto the directory, one per name and in the same order; a failed `git diff` gives none |
| Deploy.ChangedFilesRoundTrip | gcloud_deploy.py:53-54 | parsing the newline-terminated listing of plain names gives those names back, in order, joined onto the directory |
| Deploy.VersionName | gcloud_deploy.py:60-62 | a generated name is `version-` followed by exactly ten lowercase letters or digits |
| Deploy.ReadPicks | gcloud_deploy.py:61 | the draws behind a name of that shape can be read back, one alphabet position per character |
| Deploy.VersionNameInverse | gcloud_deploy.py:60-62 | every string of the version-name shape is generated, by the draws read back from it |
| Deploy.VersionNameInjective | gcloud_deploy.py:61 | distinct draws give distinct names |
| Deploy.CheckProject | gcloud_deploy.py:133-148 | the check accepts, storing the stripped project id, iff the working directory's base name occurs in it; otherwise it exits with status 1; a failed `gcloud` call aborts |
| Deploy.ProjectNamedAfterDirectoryAccepted | gcloud_deploy.py:134-142 | a project id containing the directory's own name is accepted, whatever trailing whitespace `gcloud` prints |
| Deploy.RootDirectoryAlwaysAccepted | gcloud_deploy.py:134-142 | at the filesystem root the base name is empty, so every project id passes |

## Left out

- Filesystem I/O is left out: `os.walk`, `open`, `read`, `os.makedirs` and the output `file.write`. The walk is an input, a read is an `Option` (`None` for any error the scripts catch), and the report is the sequence of written strings.
- `os.path.relpath` is not modelled as such: the relative path is computed from the walk's segments (`.` for the root, `/`-joined otherwise), which is what `relpath` gives for directories below the root. The separator is fixed as `/`.
- The dumpers' `main`: timestamped output file names (`datetime.now`), the output directory and the final `print`.
- Encoding is left out: text is a sequence of characters, and UTF-8 decoding and `.decode()` of command output are not modelled.
- `subprocess.run` for `gcloud` and `git` is modelled only through its inputs: success flags, error text and output text.
- `json.loads` is left out, and so are the `KeyError` or decode errors a malformed listing would raise. The listing is given already parsed as `Version` records.
- Timestamps are compared as the strings they are in the listing; they are not parsed.
- `random.choices` is an input: ten draws, each an index into the 36-character alphabet.
- All `print` diagnostics, the deployment details block, the target URL and the elapsed-time report are left out.
- The stored global `PROJECT_ID` is left out, as is its use in the command lines.
- `main_deploy` is not modelled separately: it is only the sequence check-then-deploy.
- `app.py` and `utilities/` are not part of this model: they are template rendering and mail or network wrappers with no logic to state.
- WalkTree: the collected-files characterisation is given as two directional lemmas (`CollectedFileLiesInScannedDirectory`, `ScannedDirectoryFileIsCollected`) rather than one if-and-only-if.
- Scanner.CollectFiles: its own contract states which records are collected, not their order; the order is stated by `Scanner.CollectFilesInOrder` and `Scanner.CollectFilesAppend`.
- Deploy.DeployService: models the delete handler as evidently intended (it reports the failure and the run finishes); the crash of the handler as written is modelled by `Deploy.EndingAsWritten` (see Findings).
- Deploy.NewestSurvive: states survival of the 15 newest by id only when ids are unique. App Engine guarantees unique ids, but the listing input does not.

## Findings

| source | as written | input that shows it | evidently intended | confidence | as-written member | corrected member |
|---|---|---|---|---|---|---|
| gcloud_deploy.py:38-44, gcloud_deploy.py:121-127 | `delete_versions` runs `gcloud` with `check=True` but without `stderr=subprocess.PIPE`, so the raised error's `stderr` is `None` and the handler's `e.stderr.decode()` raises `AttributeError`, which ends the script | a successful deploy over 16 listed versions in which `gcloud` refuses to delete the oldest | the handler prints the failure and the script finishes | high, not executed | Deploy.EndingAsWritten, Deploy.FailedDeleteCrashesAsWritten | Deploy.EndingIntended, Deploy.DeployService |
