/** The selection rules of the App Engine deploy script (`gcloud_deploy.py`).
    Every `gcloud` and `git` call becomes an input: the parsed version list
    or the failed call's error text, the deploy's success, whether each
    delete succeeds, the standard output of `git diff` and of
    `gcloud config get-value project`, and the random picks for the name. */
module Deploy {
  import opened Wrappers
  import opened Text
  import opened Order
  import opened Seqs

  /** An App Engine version as the JSON listing describes it: its id and its
      `version.createTime` timestamp text. */
  datatype Version = Version(id: string, createTime: string)

  /** How many of the versions found before a deploy are kept. */
  const VersionMax: nat := 15

  /** The marker of the one listing error that means "no versions yet". */
  const ServiceNotFound: string := "Service not found"

  // ---------------------------------------------------------------------
  // Newest-first order

  /** Non-increasing `createTime`, compared as Python compares strings. */
  predicate NewestFirst(vs: seq<Version>) {
    forall i, j :: 0 <= i < j < |vs| ==> StrLe(vs[j].createTime, vs[i].createTime)
  }

  /** The versions stamped with the time `t`, in their order in `vs`. */
  function WithTime(vs: seq<Version>, t: string): (r: seq<Version>)
    ensures forall v :: v in r <==> v in vs && v.createTime == t
  {
    Filter(vs, (v: Version) => v.createTime == t)
  }

  lemma StrLeTotal(a: string, b: string)
    ensures StrLe(a, b) || StrLe(b, a)
  {
    StrLtTotal(a, b);
  }

  lemma StrLeTransitive(a: string, b: string, c: string)
    requires StrLe(a, b) && StrLe(b, c)
    ensures StrLe(a, c)
  {
    if a != b && b != c {
      StrLtTransitive(a, b, c);
    }
  }

  /** A version at least as new as every version of a newest-first list may
      go in front of it. */
  lemma PrependNewest(x: Version, s: seq<Version>)
    requires NewestFirst(s)
    requires forall y :: y in s ==> StrLe(y.createTime, x.createTime)
    ensures NewestFirst([x] + s)
  {
    var r := [x] + s;
    forall i, j | 0 <= i < j < |r| ensures StrLe(r[j].createTime, r[i].createTime) {
      if i == 0 {
        assert r[j] == s[j - 1];
      } else {
        assert r[i] == s[i - 1] && r[j] == s[j - 1];
      }
    }
  }

  /** Everything in a newest-first list is at most as new as a version that
      is not older than its head. */
  lemma HeadBoundsAll(v: Version, s: seq<Version>)
    requires NewestFirst(s) && |s| > 0
    requires !StrLt(v.createTime, s[0].createTime)
    ensures forall y :: y in s ==> StrLe(y.createTime, v.createTime)
  {
    StrLeTotal(v.createTime, s[0].createTime);
    forall y | y in s ensures StrLe(y.createTime, v.createTime) {
      var j :| 0 <= j < |s| && s[j] == y;
      StrLeTransitive(s[j].createTime, s[0].createTime, v.createTime);
    }
  }

  /** The rest of a newest-first list, with an older version added, stays
      below its head. */
  lemma TailBelowHead(v: Version, s: seq<Version>, tail: seq<Version>)
    requires NewestFirst(s) && |s| > 0
    requires StrLt(v.createTime, s[0].createTime)
    requires multiset(tail) == multiset(s[1..]) + multiset{v}
    ensures forall x :: x in tail ==> StrLe(x.createTime, s[0].createTime)
  {
    forall x | x in tail ensures StrLe(x.createTime, s[0].createTime) {
      assert x in multiset(tail);
      if x != v {
        assert x in multiset(s[1..]);
        var j :| 0 <= j < |s[1..]| && s[1..][j] == x;
        assert s[j + 1] == x;
      }
    }
  }

  /** Places `v` after every strictly newer version and before the rest, so
      it precedes the versions of its own time that were already sorted. */
  function InsertNewest(v: Version, s: seq<Version>): (r: seq<Version>)
    requires NewestFirst(s)
    ensures NewestFirst(r)
    ensures multiset(r) == multiset(s) + multiset{v}
    decreases |s|
  {
    if |s| == 0 then [v]
    else if StrLt(v.createTime, s[0].createTime) then
      var tail := InsertNewest(v, s[1..]);
      assert s == [s[0]] + s[1..];
      TailBelowHead(v, s, tail);
      PrependNewest(s[0], tail);
      [s[0]] + tail
    else
      HeadBoundsAll(v, s);
      PrependNewest(v, s);
      [v] + s
  }

  /** The versions of time `t` in a list with a given head. */
  lemma WithTimeCons(x: Version, rest: seq<Version>, t: string)
    ensures WithTime([x] + rest, t) == (if x.createTime == t then [x] else []) + WithTime(rest, t)
  {
    FilterAppend([x], rest, (v: Version) => v.createTime == t);
  }

  /** Putting the same head on two lists whose versions of time `t` differ
      by `added` in front keeps that difference, unless the head is of
      time `t` too. */
  lemma ConsKeepsAdded(x: Version, tail: seq<Version>, rest: seq<Version>, added: seq<Version>, t: string)
    requires x.createTime != t || added == []
    requires WithTime(tail, t) == added + WithTime(rest, t)
    ensures WithTime([x] + tail, t) == added + WithTime([x] + rest, t)
  {
    WithTimeCons(x, tail, t);
    WithTimeCons(x, rest, t);
    if x.createTime == t {
      assert WithTime([x] + tail, t) == [x] + WithTime(tail, t);
    } else {
      assert WithTime([x] + tail, t) == WithTime(tail, t);
      assert WithTime([x] + rest, t) == WithTime(rest, t);
    }
  }

  /** Inserting a version adds it in front of the others of its time and
      leaves every other time's versions as they were. */
  lemma {:induction false} InsertKeepsTimeOrder(v: Version, s: seq<Version>, t: string)
    requires NewestFirst(s)
    ensures WithTime(InsertNewest(v, s), t) == (if v.createTime == t then [v] else []) + WithTime(s, t)
    decreases |s|
  {
    if |s| == 0 {
      WithTimeCons(v, [], t);
    } else if StrLt(v.createTime, s[0].createTime) {
      var tail := InsertNewest(v, s[1..]);
      assert InsertNewest(v, s) == [s[0]] + tail;
      assert s == [s[0]] + s[1..];
      InsertKeepsTimeOrder(v, s[1..], t);
      if v.createTime == t {
        StrLtIrreflexive(t);
      }
      ConsKeepsAdded(s[0], tail, s[1..], if v.createTime == t then [v] else [], t);
    } else {
      WithTimeCons(v, s, t);
    }
  }

  /** `versions.sort(key=createTime, reverse=True)`: a stable sort, newest
      first. The result is a newest-first rearrangement of the input in
      which the versions sharing a timestamp keep their listed order. */
  function SortNewestFirst(vs: seq<Version>): (r: seq<Version>)
    ensures NewestFirst(r)
    ensures multiset(r) == multiset(vs)
    ensures forall t :: WithTime(r, t) == WithTime(vs, t)
    decreases |vs|
  {
    if |vs| == 0 then []
    else
      var rest := SortNewestFirst(vs[1..]);
      assert vs == [vs[0]] + vs[1..];
      var r := InsertNewest(vs[0], rest);
      forall t ensures WithTime(r, t) == WithTime(vs, t) {
        InsertKeepsTimeOrder(vs[0], rest, t);
        FilterAppend([vs[0]], vs[1..], (v: Version) => v.createTime == t);
      }
      r
  }

  /** The first version after sorting is a listed one, and no listed version
      is newer: it is the one announced as the latest. */
  lemma {:induction false} FirstIsNewest(vs: seq<Version>)
    requires |vs| > 0
    ensures SortNewestFirst(vs)[0] in vs
    ensures forall v :: v in vs ==> StrLe(v.createTime, SortNewestFirst(vs)[0].createTime)
  {
    var r := SortNewestFirst(vs);
    assert r[0] in multiset(r);
    forall v | v in vs ensures StrLe(v.createTime, r[0].createTime) {
      assert v in multiset(vs);
      var j :| 0 <= j < |r| && r[j] == v;
    }
  }

  // ---------------------------------------------------------------------
  // Listing the versions

  /** The outcome of `gcloud app versions list`: the parsed listing, or the
      failed call's error output. */
  datatype ListOutcome = Listed(versions: seq<Version>) | ListFailed(stderr: string)

  /** `get_versions`: the sorted listing; an empty one when the error says
      the service does not exist; otherwise the error is raised again. */
  function GetVersions(outcome: ListOutcome): (r: Result<seq<Version>, string>)
    ensures r.Err? <==> outcome.ListFailed? && !Contains(outcome.stderr, ServiceNotFound)
    ensures r.Err? ==> r.error == outcome.stderr
    ensures outcome.ListFailed? && r.Ok? ==> r.value == []
    ensures outcome.Listed? ==> r.Ok? && NewestFirst(r.value)
                                && multiset(r.value) == multiset(outcome.versions)
                                && forall t :: WithTime(r.value, t) == WithTime(outcome.versions, t)
  {
    match outcome
    case Listed(vs) => Ok(SortNewestFirst(vs))
    case ListFailed(stderr) =>
      if Contains(stderr, ServiceNotFound) then Ok([]) else Err(stderr)
  }

  /** The versions `deploy_service` works with: it catches the raised error
      and carries on with none. */
  function CurrentVersions(outcome: ListOutcome): (r: seq<Version>)
    ensures outcome.ListFailed? ==> r == []
    ensures outcome.Listed? ==> NewestFirst(r) && multiset(r) == multiset(outcome.versions)
    ensures outcome.Listed? ==> forall t :: WithTime(r, t) == WithTime(outcome.versions, t)
  {
    match GetVersions(outcome)
    case Ok(vs) => vs
    case Err(_) => []
  }

  // ---------------------------------------------------------------------
  // Retention

  /** The versions kept: the first `VERSION_MAX`, or all of them. */
  function Kept(versions: seq<Version>): (r: seq<Version>)
    ensures |r| == if |versions| > VersionMax then VersionMax else |versions|
  {
    if |versions| > VersionMax then versions[..VersionMax] else versions
  }

  /** `versions[VERSION_MAX:]` when there are more than `VERSION_MAX`
      versions, and nothing otherwise. */
  function ToDelete(versions: seq<Version>): (r: seq<Version>)
    ensures |versions| <= VersionMax ==> r == []
    ensures |versions| > VersionMax ==> |r| == |versions| - VersionMax
    ensures forall i :: 0 <= i < |r| ==> r[i] == versions[VersionMax + i]
  {
    if |versions| > VersionMax then versions[VersionMax..] else []
  }

  /** Every version is either kept or deleted, in listed order, so the kept
      ones are the newest when the list is newest first: each deleted version
      is at most as new as each kept one. */
  lemma OldestAreDeleted(versions: seq<Version>)
    requires NewestFirst(versions)
    ensures Kept(versions) + ToDelete(versions) == versions
    ensures forall k, d :: k in Kept(versions) && d in ToDelete(versions)
                           ==> StrLe(d.createTime, k.createTime)
  {
    if |versions| > VersionMax {
      assert versions[..VersionMax] + versions[VersionMax..] == versions;
      forall k, d | k in Kept(versions) && d in ToDelete(versions)
        ensures StrLe(d.createTime, k.createTime)
      {
        var i :| 0 <= i < VersionMax && versions[i] == k;
        var j :| 0 <= j < |ToDelete(versions)| && ToDelete(versions)[j] == d;
        assert versions[VersionMax + j] == d;
      }
    } else {
      assert versions + [] == versions;
    }
  }

  function Ids(vs: seq<Version>): (r: seq<string>)
    ensures |r| == |vs|
    ensures forall i :: 0 <= i < |vs| ==> r[i] == vs[i].id
  {
    seq(|vs|, i requires 0 <= i < |vs| => vs[i].id)
  }

  /** `delete_versions`: deletes in order, and the first failing delete
      raises, which ends the loop. `deletes(id)` is whether the delete call
      for `id` succeeds. Returns the ids deleted and whether one failed. */
  method DeleteVersions(toDelete: seq<Version>, deletes: string -> bool) returns (deleted: seq<string>, failed: bool)
    ensures |deleted| <= |toDelete|
    ensures deleted == Ids(toDelete[..|deleted|])
    ensures forall i :: 0 <= i < |deleted| ==> deletes(toDelete[i].id)
    ensures failed <==> |deleted| < |toDelete|
    ensures failed ==> !deletes(toDelete[|deleted|].id)
  {
    deleted := [];
    failed := false;
    var i := 0;
    while i < |toDelete|
      invariant 0 <= i <= |toDelete|
      invariant deleted == Ids(toDelete[..i])
      invariant forall j :: 0 <= j < i ==> deletes(toDelete[j].id)
    {
      if !deletes(toDelete[i].id) {
        failed := true;
        return;
      }
      deleted := deleted + [toDelete[i].id];
      i := i + 1;
    }
  }

  /** What one run of `deploy_service` decides: the versions it saw, the one
      it announced as latest, the name it deployed under, whether the deploy
      succeeded, the ids it deleted, in order, and whether a delete failed. */
  datatype DeployRun = DeployRun(
    versions: seq<Version>,
    latest: Option<string>,
    name: string,
    deployed: bool,
    deleted: seq<string>,
    deleteFailed: bool)

  /** `deploy_service` without its printing and timing, with the delete
      handler reporting a failed delete and letting the run finish. */
  method DeployService(listing: ListOutcome, picks: seq<nat>, deployOk: bool, deletes: string -> bool)
    returns (run: DeployRun)
    requires ValidPicks(picks)
    ensures run.versions == CurrentVersions(listing)
    ensures run.latest == (if |run.versions| > 0 then Some(run.versions[0].id) else None)
    ensures run.name == VersionName(picks)
    ensures run.deployed == deployOk
    ensures !deployOk ==> run.deleted == []
    ensures |run.versions| <= VersionMax ==> run.deleted == []
    ensures |run.deleted| <= |ToDelete(run.versions)|
    ensures run.deleted == Ids(ToDelete(run.versions)[..|run.deleted|])
    ensures forall i :: 0 <= i < |run.deleted| ==> deletes(run.deleted[i])
    ensures run.deleteFailed <==>
              deployOk && |run.versions| > VersionMax && exists v :: v in ToDelete(run.versions) && !deletes(v.id)
    ensures run.deleteFailed ==>
              |run.deleted| < |ToDelete(run.versions)| && !deletes(ToDelete(run.versions)[|run.deleted|].id)
    ensures deployOk && !run.deleteFailed ==> run.deleted == Ids(ToDelete(run.versions))
  {
    var versions := CurrentVersions(listing);
    var latest := if |versions| > 0 then Some(versions[0].id) else None;
    var name := VersionName(picks);
    if !deployOk {
      assert ToDelete(versions)[..0] == [];
      return DeployRun(versions, latest, name, false, [], false);
    }
    var deleted: seq<string> := [];
    var failed := false;
    if |versions| > VersionMax {
      deleted, failed := DeleteVersions(ToDelete(versions), deletes);
      if failed {
        assert ToDelete(versions)[|deleted|] in ToDelete(versions);
      } else {
        assert ToDelete(versions)[..|deleted|] == ToDelete(versions);
        forall v | v in ToDelete(versions) ensures deletes(v.id) {
          var i :| 0 <= i < |ToDelete(versions)| && ToDelete(versions)[i] == v;
          assert deleted[i] == v.id;
        }
      }
    } else {
      assert ToDelete(versions)[..0] == [];
    }
    run := DeployRun(versions, latest, name, true, deleted, failed);
  }

  // ---------------------------------------------------------------------
  // How a run ends

  /** A `subprocess.CalledProcessError`: its `stderr` is the captured error
      output, or `None` when the call did not capture it. */
  datatype ProcessError = ProcessError(stderr: Option<string>)

  /** `e.stderr.decode()`: the text, or nothing when `stderr` is `None` and
      the call raises `AttributeError` instead. */
  function DecodeStderr(e: ProcessError): Option<string> {
    e.stderr
  }

  datatype Ending = Finished | Crashed

  /** The error a failed delete raises as written: `delete_versions` runs
      `gcloud` with `check=True` but without `stderr=PIPE`, so nothing is
      captured. */
  const DeleteErrorAsWritten: ProcessError := ProcessError(None)

  /** How `deploy_service` ends as written: the handler around the deletes
      decodes `e.stderr`, which raises when a delete failed, so the error
      escapes and the script stops before its final report. */
  function EndingAsWritten(run: DeployRun): (r: Ending)
    ensures r == Crashed <==> run.deleteFailed
  {
    if run.deleteFailed && DecodeStderr(DeleteErrorAsWritten).None? then Crashed else Finished
  }

  /** A failed delete ends the script as written: after a successful deploy
      over sixteen versions whose oldest refuses deletion, a run that decides
      its failure as `DeployService` does crashes. */
  lemma FailedDeleteCrashesAsWritten(run: DeployRun, deletes: string -> bool)
    requires run.deployed && |run.versions| == VersionMax + 1
    requires !deletes(run.versions[VersionMax].id)
    requires run.deleteFailed <==>
               run.deployed && |run.versions| > VersionMax && exists v :: v in ToDelete(run.versions) && !deletes(v.id)
    ensures EndingAsWritten(run) == Crashed
  {
    assert ToDelete(run.versions)[0] == run.versions[VersionMax];
  }

  /** The intended handler: the delete's error output is captured, so the
      handler can print it and the run finishes. */
  function DeleteErrorIntended(stderr: string): (r: ProcessError)
    ensures DecodeStderr(r) == Some(stderr)
  {
    ProcessError(Some(stderr))
  }

  /** How `deploy_service` ends with the intended handler, for the error
      text `stderr` a failed delete prints. */
  function EndingIntended(run: DeployRun, stderr: string): (r: Ending)
    ensures r == Finished
  {
    if run.deleteFailed && DecodeStderr(DeleteErrorIntended(stderr)).None? then Crashed else Finished
  }

  /** None of the `VERSION_MAX` newest versions is deleted, when ids are
      unique as App Engine makes them. */
  lemma NewestSurvive(run: DeployRun)
    requires forall i, j :: 0 <= i < j < |run.versions| ==> run.versions[i].id != run.versions[j].id
    requires forall i :: 0 <= i < |run.deleted| ==>
               (VersionMax + i < |run.versions| && run.deleted[i] == run.versions[VersionMax + i].id)
    ensures forall i :: 0 <= i < VersionMax && i < |run.versions| ==> run.versions[i].id !in run.deleted
  {
    forall i | 0 <= i < VersionMax && i < |run.versions| ensures run.versions[i].id !in run.deleted {
      forall k | 0 <= k < |run.deleted| ensures run.deleted[k] != run.versions[i].id {
        assert i < VersionMax + k;
      }
    }
  }

  // ---------------------------------------------------------------------
  // Changed files

  /** `os.path.join(directory, f)` for each name, in order. */
  function JoinEach(directory: string, names: seq<string>): (r: seq<string>)
    ensures |r| == |names|
    ensures forall i :: 0 <= i < |r| ==> r[i] == PathJoin(directory, names[i])
  {
    seq(|names|, i requires 0 <= i < |names| => PathJoin(directory, names[i]))
  }

  /** The non-empty lines of the stripped output, in order, each as often as
      it occurs. */
  function ListedNames(stdout: string): (r: seq<string>)
    ensures forall f :: f in r <==> f in Split(Strip(stdout), '\n') && f != ""
    ensures IsSubsequence(r, Split(Strip(stdout), '\n'))
    ensures forall f :: multiset(r)[f] == if f == "" then 0 else multiset(Split(Strip(stdout), '\n'))[f]
  {
    FilterOrder(Split(Strip(stdout), '\n'), (f: string) => f != "");
    Filter(Split(Strip(stdout), '\n'), (f: string) => f != "")
  }

  /** `get_changed_files`: the names `git diff --name-only` prints, joined
      onto the directory; no names when the command fails. */
  function ChangedFiles(directory: string, stdout: Option<string>): (r: seq<string>)
    ensures stdout.None? ==> r == []
    ensures stdout.Some? ==> forall p :: p in r <==> exists f :: f in ListedNames(stdout.value) && p == PathJoin(directory, f)
    ensures stdout.Some? ==> |r| == |ListedNames(stdout.value)|
    ensures stdout.Some? ==> forall i :: 0 <= i < |r| ==> r[i] == PathJoin(directory, ListedNames(stdout.value)[i])
  {
    match stdout
    case None => []
    case Some(out) =>
      var names := ListedNames(out);
      var r := JoinEach(directory, names);
      forall p | p in r ensures exists f :: f in names && p == PathJoin(directory, f) {
        var i :| 0 <= i < |r| && r[i] == p;
        assert names[i] in names;
      }
      r
  }

  /** The output `git diff --name-only` gives for a list of names: one per
      line, each line ended by a newline. */
  function GitNameListing(names: seq<string>): string {
    if |names| == 0 then "" else Join(names, '\n') + "\n"
  }

  /** Parsing `git diff --name-only` output recovers the listed names, in
      order, whenever they are plain non-empty names without surrounding
      whitespace. */
  lemma ChangedFilesRoundTrip(directory: string, names: seq<string>)
    requires forall i :: 0 <= i < |names| ==> |names[i]| > 0 && '\n' !in names[i]
    requires |names| > 0 ==> !IsSpace(names[0][0]) && !IsSpace(names[|names| - 1][|names[|names| - 1]| - 1])
    ensures ChangedFiles(directory, Some(GitNameListing(names))) == JoinEach(directory, names)
  {
    var keep := (f: string) => f != "";
    if |names| == 0 {
      assert Strip("") == "" by { StripTrimmed(""); }
      assert Split("", '\n') == [""];
      assert ListedNames("") == [];
    } else {
      var j := Join(names, '\n');
      JoinEnds(names, '\n');
      assert AllSpace("\n");
      StripPadded(j, "\n");
      SplitJoin(names, '\n');
      assert Split(Strip(GitNameListing(names)), '\n') == names;
      FilterKeepsAll(names, keep);
      FilterKeepingEverything(names, keep);
    }
  }

  // ---------------------------------------------------------------------
  // Version names

  /** `string.ascii_lowercase + string.digits`. */
  const Alphabet: string := "abcdefghijklmnopqrstuvwxyz0123456789"

  const NamePrefix: string := "version-"

  /** How many characters `random.choices` draws. */
  const NameLength: nat := 10

  predicate IsNameChar(c: char) {
    'a' <= c <= 'z' || '0' <= c <= '9'
  }

  /** Ten draws, each an index into the alphabet. */
  predicate ValidPicks(picks: seq<nat>) {
    |picks| == NameLength && forall i :: 0 <= i < |picks| ==> picks[i] < |Alphabet|
  }

  /** `"version-"` followed by ten lowercase letters or digits. */
  predicate IsVersionName(s: string) {
    |s| == |NamePrefix| + NameLength && IsPrefix(NamePrefix, s)
    && forall i :: |NamePrefix| <= i < |s| ==> IsNameChar(s[i])
  }

  lemma AlphabetChars()
    ensures forall i :: 0 <= i < |Alphabet| ==> IsNameChar(Alphabet[i])
    ensures forall i :: 0 <= i < 26 ==> Alphabet[i] as int == 'a' as int + i
    ensures forall i :: 26 <= i < 36 ==> Alphabet[i] as int == '0' as int + i - 26
  {
  }

  /** `generate_version_name` with the random draws as input. */
  function VersionName(picks: seq<nat>): (r: string)
    requires ValidPicks(picks)
    ensures IsVersionName(r)
  {
    AlphabetChars();
    NamePrefix + seq(|picks|, i requires 0 <= i < |picks| => Alphabet[picks[i]])
  }

  /** The alphabet position of a name character. */
  function AlphabetIndex(c: char): (k: nat)
    requires IsNameChar(c)
    ensures k < |Alphabet| && Alphabet[k] == c
  {
    AlphabetChars();
    if 'a' <= c <= 'z' then c as int - 'a' as int else c as int - '0' as int + 26
  }

  /** The alphabet positions of a run of name characters. */
  function Positions(chars: string): (p: seq<nat>)
    requires forall i :: 0 <= i < |chars| ==> IsNameChar(chars[i])
    ensures |p| == |chars|
    ensures forall i :: 0 <= i < |p| ==> p[i] < |Alphabet| && Alphabet[p[i]] == chars[i]
  {
    if |chars| == 0 then [] else [AlphabetIndex(chars[0])] + Positions(chars[1..])
  }

  /** The draws that produce a name of the version-name shape. */
  function ReadPicks(s: string): (p: seq<nat>)
    requires IsVersionName(s)
    ensures ValidPicks(p)
    ensures forall i :: 0 <= i < NameLength ==> Alphabet[p[i]] == s[|NamePrefix| + i]
  {
    Positions(s[|NamePrefix|..])
  }

  /** Every string of the version-name shape is generated, by the draws read
      back from it. */
  lemma VersionNameInverse(s: string)
    requires IsVersionName(s)
    ensures VersionName(ReadPicks(s)) == s
  {
    var picks := ReadPicks(s);
    var r := VersionName(picks);
    forall i | 0 <= i < |s| ensures r[i] == s[i] {
      if i < |NamePrefix| {
        assert s[..|NamePrefix|][i] == s[i];
      } else {
        assert r[i] == Alphabet[picks[i - |NamePrefix|]];
      }
    }
  }

  /** Distinct draws give distinct names. */
  lemma VersionNameInjective(p: seq<nat>, q: seq<nat>)
    requires ValidPicks(p) && ValidPicks(q)
    requires VersionName(p) == VersionName(q)
    ensures p == q
  {
    AlphabetChars();
    forall i | 0 <= i < NameLength ensures p[i] == q[i] {
      assert VersionName(p)[|NamePrefix| + i] == Alphabet[p[i]];
      assert VersionName(q)[|NamePrefix| + i] == Alphabet[q[i]];
    }
  }

  // ---------------------------------------------------------------------
  // Project check

  /** The outcome of `check_gcloud_project`: accepted with the project id it
      stores, stopped by `sys.exit`, or aborted by the raised error of a
      failed `gcloud config get-value project`. */
  datatype ProjectCheck = Accepted(projectId: string) | Exited(status: int) | Aborted

  /** The status the check exits with on a mismatch. */
  const MismatchStatus: int := 1

  /** `check_gcloud_project` with the working directory and the output of
      `gcloud config get-value project` (absent when the call fails). */
  function CheckProject(cwd: string, configOutput: Option<string>): (r: ProjectCheck)
    ensures r.Aborted? <==> configOutput.None?
    ensures r.Accepted? <==> configOutput.Some? && Contains(Strip(configOutput.value), Basename(cwd))
    ensures r.Accepted? ==> r.projectId == Strip(configOutput.value)
    ensures r.Exited? ==> r.status == MismatchStatus
  {
    match configOutput
    case None => Aborted
    case Some(out) =>
      var project := Strip(out);
      if Contains(project, Basename(cwd)) then Accepted(project) else Exited(MismatchStatus)
  }

  /** The check accepts a project whose id contains the directory's own
      name, whatever surrounds it, once the trailing newline is stripped. */
  lemma ProjectNamedAfterDirectoryAccepted(parent: string, dirName: string, project: string, newline: string)
    requires |dirName| > 0 && Sep !in dirName
    requires Contains(project, dirName)
    requires |project| > 0 ==> !IsSpace(project[0]) && !IsSpace(project[|project| - 1])
    requires AllSpace(newline)
    ensures CheckProject(PathJoin(parent, dirName), Some(project + newline)) == Accepted(project)
  {
    BasenameOfJoin(parent, dirName);
    StripPadded(project, newline);
  }

  /** At the filesystem root the base name is empty, which every project id
      contains, so the check cannot fail there. */
  lemma RootDirectoryAlwaysAccepted(out: string)
    ensures CheckProject([Sep], Some(out)).Accepted?
  {
    assert Basename([Sep]) == "";
    assert IsPrefix("", Strip(out));
  }
}
