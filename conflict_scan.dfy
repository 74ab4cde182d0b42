/** The scanner's decisions for each directory: which groups are duplicate
    sets, which files of each are conflicts, and which paths it tries to
    remove. The file system enters only as the listing handed in and as the
    set of paths whose removal fails. */
module ConflictScan {
  import opened StringOrder
  import opened Sequences
  import opened Resolution
  import opened Grouping

  /** `os.path.join(dirpath, name)`, kept as the pair. */
  datatype Path = Path(dir: string, name: string)

  /** One duplicate set: the original file and its conflict copies. */
  datatype Report = Report(original: Path, conflicts: seq<Path>)

  /** What one `os.remove` attempt did. */
  datatype Outcome = Deleted(path: Path) | Failed(path: Path)

  /** One step of the directory walk: its path and the files it lists. */
  datatype Directory = Directory(path: string, filenames: seq<string>)

  function JoinDir(dir: string, names: seq<string>): seq<Path> {
    seq(|names|, i requires 0 <= i < |names| => Path(dir, names[i]))
  }

  lemma JoinDirSnoc(dir: string, names: seq<string>, x: string)
    ensures JoinDir(dir, names + [x]) == JoinDir(dir, names) + [Path(dir, x)]
  {
  }

  lemma JoinDirMembers(dir: string, names: seq<string>, p: Path)
    ensures p in JoinDir(dir, names) <==> p.dir == dir && p.name in names
  {
    if p.dir == dir && p.name in names {
      var i :| 0 <= i < |names| && names[i] == p.name;
      assert JoinDir(dir, names)[i] == p;
    }
  }

  /** The paths the outcomes are about, in order. */
  function Attempted(outcomes: seq<Outcome>): seq<Path> {
    seq(|outcomes|, i requires 0 <= i < |outcomes| => outcomes[i].path)
  }

  /** The conflict names of the group keyed by `base`: its other members,
      sorted. */
  function ConflictNames(base: string, members: seq<string>): seq<string> {
    Without(Sort(members), base)
  }

  lemma {:induction false} DistinctOnce(s: seq<string>, x: string)
    requires Distinct(s) && x in s
    ensures multiset(s)[x] == 1
  {
    var p, last := s[..|s| - 1], s[|s| - 1];
    assert s == p + [last];
    assert Distinct(p) by {
      forall i, j | 0 <= i < j < |p| ensures p[i] != p[j] {
        assert p[i] == s[i] && p[j] == s[j];
      }
    }
    if x == last {
      assert x !in p by {
        forall k | 0 <= k < |p| ensures p[k] != x {
          assert p[k] == s[k];
        }
      }
    } else {
      DistinctOnce(p, x);
    }
  }

  /** The conflicts of a group are its members other than the original, in
      ascending order; in a directory without repeated names there is one
      fewer of them than members. */
  lemma ConflictNamesSpec(base: string, members: seq<string>)
    ensures Sorted(ConflictNames(base, members))
    ensures base !in ConflictNames(base, members)
    ensures multiset(ConflictNames(base, members)) == multiset(members)[base := 0]
    ensures Distinct(members) && base in members ==> |ConflictNames(base, members)| == |members| - 1
  {
    SortSorted(members);
    WithoutMultiset(Sort(members), base);
    WithoutSorted(Sort(members), base);
    assert multiset(ConflictNames(base, members))[base] == 0;
    if Distinct(members) && base in members {
      DistinctOnce(members, base);
    }
  }

  /** No other order is possible: any sorted arrangement of the other
      members is the conflict list. */
  lemma ConflictNamesUnique(base: string, members: seq<string>, c: seq<string>)
    requires Sorted(c) && multiset(c) == multiset(members)[base := 0]
    ensures c == ConflictNames(base, members)
  {
    ConflictNamesSpec(base, members);
    SortedUnique(c, ConflictNames(base, members));
  }

  /** Lines 58-67: walk the group in sorted order and collect the path of
      every member that is not the original. */
  method SelectConflicts(dirpath: string, baseFile: string, fileList: seq<string>)
    returns (conflictsToProcess: seq<Path>)
    ensures conflictsToProcess == JoinDir(dirpath, ConflictNames(baseFile, fileList))
    ensures forall p :: p in conflictsToProcess ==> p.dir == dirpath && p.name != baseFile && p.name in fileList
  {
    conflictsToProcess := [];
    var sortedList := Sort(fileList);
    for k := 0 to |sortedList|
      invariant conflictsToProcess == JoinDir(dirpath, Without(sortedList[..k], baseFile))
    {
      var f := sortedList[k];
      WithoutSnoc(sortedList[..k], f, baseFile);
      TakeSnoc(sortedList, k);
      if f != baseFile {
        JoinDirSnoc(dirpath, Without(sortedList[..k], baseFile), f);
        conflictsToProcess := conflictsToProcess + [Path(dirpath, f)];
      }
    }
    TakeAll(sortedList);
    ConflictNamesSpec(baseFile, fileList);
    forall p | p in conflictsToProcess
      ensures p.dir == dirpath && p.name != baseFile && p.name in fileList
    {
      var c := ConflictNames(baseFile, fileList);
      JoinDirMembers(dirpath, c, p);
      assert p.name in multiset(c);
    }
  }

  /** Lines 72-77: try to remove every path in turn. A removal that fails
      (the path is in `failing`) is reported and the loop carries on. */
  method RemoveEach(paths: seq<Path>, failing: set<Path>) returns (outcomes: seq<Outcome>)
    ensures Attempted(outcomes) == paths
    ensures forall i :: 0 <= i < |outcomes| ==> (outcomes[i].Failed? <==> outcomes[i].path in failing)
  {
    outcomes := [];
    for k := 0 to |paths|
      invariant Attempted(outcomes) == paths[..k]
      invariant forall i :: 0 <= i < |outcomes| ==> (outcomes[i].Failed? <==> outcomes[i].path in failing)
    {
      var pathToDelete := paths[k];
      if pathToDelete in failing {
        outcomes := outcomes + [Failed(pathToDelete)];
      } else {
        outcomes := outcomes + [Deleted(pathToDelete)];
      }
      TakeSnoc(paths, k);
    }
    TakeAll(paths);
  }

  /** The report for the group keyed by `base` with members `g`. */
  function GroupReport(dir: string, base: string, g: seq<string>): Report {
    Report(Path(dir, base), JoinDir(dir, ConflictNames(base, g)))
  }

  /** The reports for the groups keyed by `keys`, in key order, skipping the
      groups of one member. */
  function ReportsOver(dir: string, keys: seq<string>, groups: map<string, seq<string>>): seq<Report>
    requires forall b :: b in keys ==> b in groups
  {
    if keys == [] then []
    else
      var k := keys[|keys| - 1];
      var g := groups[k];
      ReportsOver(dir, keys[..|keys| - 1], groups) + (if |g| > 1 then [GroupReport(dir, k, g)] else [])
  }

  lemma ReportsOverSnoc(dir: string, keys: seq<string>, k: string, groups: map<string, seq<string>>)
    requires forall b :: b in keys ==> b in groups
    requires k in groups
    ensures var g := groups[k];
      ReportsOver(dir, keys + [k], groups)
        == ReportsOver(dir, keys, groups) + (if |g| > 1 then [GroupReport(dir, k, g)] else [])
  {
    assert (keys + [k])[..|keys|] == keys;
  }

  /** The groups dictionary of a listing, as the scanner builds it. */
  function GroupsOf(fs: seq<string>): (groups: map<string, seq<string>>)
    ensures forall b :: b in BaseOrder(fs, BaseOf(Elems(fs))) ==> b in groups
  {
    var key := BaseOf(Elems(fs));
    map b | b in BaseOrder(fs, key) :: GroupOf(fs, key, b)
  }

  /** The reports the scanner produces for one directory. */
  function DirReports(dir: string, fs: seq<string>): seq<Report> {
    ReportsOver(dir, BaseOrder(fs, BaseOf(Elems(fs))), GroupsOf(fs))
  }

  /** Some group of the directory has more than one member. */
  predicate HasDuplicate(fs: seq<string>) {
    var key := BaseOf(Elems(fs));
    exists k :: k in BaseOrder(fs, key) && |GroupOf(fs, key, k)| > 1
  }

  /** The paths handed to `os.remove`, report by report: none in a dry run. */
  function DeletionPlan(reports: seq<Report>, performDelete: bool): seq<Path> {
    if reports == [] then []
    else
      var r := reports[|reports| - 1];
      DeletionPlan(reports[..|reports| - 1], performDelete)
        + (if performDelete && r.conflicts != [] then r.conflicts else [])
  }

  lemma AttemptedAppend(a: seq<Outcome>, b: seq<Outcome>)
    ensures Attempted(a + b) == Attempted(a) + Attempted(b)
  {
  }

  lemma DeletionPlanSnoc(reports: seq<Report>, r: Report, performDelete: bool)
    ensures DeletionPlan(reports + [r], performDelete)
      == DeletionPlan(reports, performDelete) + (if performDelete && r.conflicts != [] then r.conflicts else [])
  {
    assert (reports + [r])[..|reports|] == reports;
  }

  lemma {:induction false} DeletionPlanAppend(a: seq<Report>, b: seq<Report>, performDelete: bool)
    ensures DeletionPlan(a + b, performDelete) == DeletionPlan(a, performDelete) + DeletionPlan(b, performDelete)
    decreases |b|
  {
    if b != [] {
      var p, last := b[..|b| - 1], b[|b| - 1];
      assert b == p + [last];
      assert a + b == (a + p) + [last];
      DeletionPlanAppend(a, p, performDelete);
      DeletionPlanSnoc(a + p, last, performDelete);
      DeletionPlanSnoc(p, last, performDelete);
    } else {
      assert a + b == a;
    }
  }

  /** The outcomes are one attempt per planned path, in plan order, and an
      attempt fails exactly on the paths in `failing`. */
  ghost predicate OutcomesFollow(reports: seq<Report>, outcomes: seq<Outcome>, performDelete: bool, failing: set<Path>) {
    && Attempted(outcomes) == DeletionPlan(reports, performDelete)
    && (forall i :: 0 <= i < |outcomes| ==> (outcomes[i].Failed? <==> outcomes[i].path in failing))
    && (!performDelete ==> outcomes == [])
  }

  /** Outcomes that match their plans still match once both are
      concatenated. */
  lemma OutcomesAppend(reports: seq<Report>, outcomes: seq<Outcome>, more: seq<Report>, moreOutcomes: seq<Outcome>,
                       performDelete: bool, failing: set<Path>)
    requires Attempted(outcomes) == DeletionPlan(reports, performDelete)
    requires Attempted(moreOutcomes) == DeletionPlan(more, performDelete)
    requires forall i :: 0 <= i < |outcomes| ==> (outcomes[i].Failed? <==> outcomes[i].path in failing)
    requires forall i :: 0 <= i < |moreOutcomes| ==> (moreOutcomes[i].Failed? <==> moreOutcomes[i].path in failing)
    ensures Attempted(outcomes + moreOutcomes) == DeletionPlan(reports + more, performDelete)
    ensures var all := outcomes + moreOutcomes;
      forall i :: 0 <= i < |all| ==> (all[i].Failed? <==> all[i].path in failing)
  {
    DeletionPlanAppend(reports, more, performDelete);
    AttemptedAppend(outcomes, moreOutcomes);
    var all := outcomes + moreOutcomes;
    forall i | 0 <= i < |all| ensures all[i].Failed? <==> all[i].path in failing {
      if i >= |outcomes| {
        assert all[i] == moreOutcomes[i - |outcomes|];
      }
    }
  }

  /** A single report's plan is its conflicts, in delete mode only. */
  lemma SingleReportPlan(report: Report, performDelete: bool)
    ensures DeletionPlan([report], performDelete) == if performDelete && report.conflicts != [] then report.conflicts else []
  {
    DeletionPlanSnoc([], report, performDelete);
    assert [] + [report] == [report];
  }

  /** One round of the reporting loop: the report of key `keys[k]` (none
      for a group of one) and its outcomes extend those of the keys before
      it. */
  lemma KeyStep(dir: string, keys: seq<string>, k: int, groups: map<string, seq<string>>,
                reports: seq<Report>, outcomes: seq<Outcome>,
                newReports: seq<Report>, newOutcomes: seq<Outcome>, performDelete: bool, failing: set<Path>)
    requires forall b :: b in keys ==> b in groups
    requires 0 <= k < |keys|
    requires reports == ReportsOver(dir, keys[..k], groups) && OutcomesFollow(reports, outcomes, performDelete, failing)
    requires newReports == if |groups[keys[k]]| > 1 then [GroupReport(dir, keys[k], groups[keys[k]])] else []
    requires OutcomesFollow(newReports, newOutcomes, performDelete, failing)
    ensures reports + newReports == ReportsOver(dir, keys[..k + 1], groups)
    ensures OutcomesFollow(reports + newReports, outcomes + newOutcomes, performDelete, failing)
  {
    TakeSnoc(keys, k);
    ReportsOverSnoc(dir, keys[..k], keys[k], groups);
    OutcomesAppend(reports, outcomes, newReports, newOutcomes, performDelete, failing);
  }

  /** Lines 52-77: report every group of more than one member with its
      sorted conflicts, and try to remove those conflicts only in delete
      mode. */
  method ReportGroups(dirpath: string, keys: seq<string>, groups: map<string, seq<string>>,
                      performDelete: bool, failing: set<Path>)
    returns (found: bool, reports: seq<Report>, outcomes: seq<Outcome>)
    requires forall b :: b in keys ==> b in groups
    ensures reports == ReportsOver(dirpath, keys, groups)
    ensures found <==> reports != []
    ensures OutcomesFollow(reports, outcomes, performDelete, failing)
  {
    found := false;
    reports := [];
    outcomes := [];
    for k := 0 to |keys|
      invariant reports == ReportsOver(dirpath, keys[..k], groups)
      invariant found <==> reports != []
      invariant OutcomesFollow(reports, outcomes, performDelete, failing)
    {
      var baseFile := keys[k];
      var fileList := groups[baseFile];
      var newReports: seq<Report> := [];
      var removed: seq<Outcome> := [];
      if |fileList| > 1 {
        found := true;
        var conflictsToProcess := SelectConflicts(dirpath, baseFile, fileList);
        var report := Report(Path(dirpath, baseFile), conflictsToProcess);
        newReports := [report];
        if performDelete && conflictsToProcess != [] {
          removed := RemoveEach(conflictsToProcess, failing);
        }
        SingleReportPlan(report, performDelete);
      }
      KeyStep(dirpath, keys, k, groups, reports, outcomes, newReports, removed, performDelete, failing);
      reports := reports + newReports;
      outcomes := outcomes + removed;
    }
    TakeAll(keys);
  }

  /** Lines 25-77 for one directory: group its files, then report and
      (in delete mode) remove the conflicts. */
  method ScanDirectory(dirpath: string, filenames: seq<string>, performDelete: bool, failing: set<Path>)
    returns (found: bool, reports: seq<Report>, outcomes: seq<Outcome>)
    ensures reports == DirReports(dirpath, filenames)
    ensures found <==> reports != []
    ensures OutcomesFollow(reports, outcomes, performDelete, failing)
  {
    var keys, groups := BuildGroups(filenames);
    assert groups == GroupsOf(filenames);
    found, reports, outcomes := ReportGroups(dirpath, keys, groups, performDelete, failing);
  }

  /** The reports for every directory of the walk, in walk order. */
  function WalkReports(walk: seq<Directory>): seq<Report> {
    if walk == [] then []
    else
      var d := walk[|walk| - 1];
      WalkReports(walk[..|walk| - 1]) + DirReports(d.path, d.filenames)
  }

  lemma WalkReportsSnoc(walk: seq<Directory>, d: Directory)
    ensures WalkReports(walk + [d]) == WalkReports(walk) + DirReports(d.path, d.filenames)
  {
    assert (walk + [d])[..|walk|] == walk;
  }

  /** A directory that lists no files yields no report. */
  lemma EmptyDirReports(dir: string)
    ensures DirReports(dir, []) == []
  {
    assert BaseOrder([], BaseOf(Elems([]))) == [];
  }

  /** One round of the walk loop: the reports and outcomes of directory `d`
      extend those of the directories before it. */
  lemma WalkStep(walk: seq<Directory>, d: int, reports: seq<Report>, outcomes: seq<Outcome>,
                 dirReports: seq<Report>, dirOutcomes: seq<Outcome>, performDelete: bool, failing: set<Path>)
    requires 0 <= d < |walk|
    requires reports == WalkReports(walk[..d]) && OutcomesFollow(reports, outcomes, performDelete, failing)
    requires dirReports == DirReports(walk[d].path, walk[d].filenames)
    requires OutcomesFollow(dirReports, dirOutcomes, performDelete, failing)
    ensures reports + dirReports == WalkReports(walk[..d + 1])
    ensures OutcomesFollow(reports + dirReports, outcomes + dirOutcomes, performDelete, failing)
  {
    TakeSnoc(walk, d);
    WalkReportsSnoc(walk[..d], walk[d]);
    OutcomesAppend(reports, outcomes, dirReports, dirOutcomes, performDelete, failing);
  }

  /** `manage_conflict_files`: scan every directory of the walk, skipping the
      ones that list no files. */
  method ManageConflictFiles(walk: seq<Directory>, performDelete: bool, failing: set<Path>)
    returns (foundAnyDuplicates: bool, reports: seq<Report>, outcomes: seq<Outcome>)
    ensures reports == WalkReports(walk)
    ensures foundAnyDuplicates <==> reports != []
    ensures Attempted(outcomes) == DeletionPlan(reports, performDelete)
    ensures forall i :: 0 <= i < |outcomes| ==> (outcomes[i].Failed? <==> outcomes[i].path in failing)
    ensures !performDelete ==> outcomes == []
  {
    foundAnyDuplicates := false;
    reports := [];
    outcomes := [];
    for d := 0 to |walk|
      invariant reports == WalkReports(walk[..d])
      invariant foundAnyDuplicates <==> reports != []
      invariant OutcomesFollow(reports, outcomes, performDelete, failing)
    {
      var dirpath, filenames := walk[d].path, walk[d].filenames;
      var dirFound, dirReports, dirOutcomes := false, [], [];
      if filenames != [] {
        dirFound, dirReports, dirOutcomes := ScanDirectory(dirpath, filenames, performDelete, failing);
      } else {
        EmptyDirReports(dirpath);
      }
      WalkStep(walk, d, reports, outcomes, dirReports, dirOutcomes, performDelete, failing);
      if dirFound {
        foundAnyDuplicates := true;
      }
      reports := reports + dirReports;
      outcomes := outcomes + dirOutcomes;
    }
    TakeAll(walk);
  }
}
