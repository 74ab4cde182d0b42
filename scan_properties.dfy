/** What the scanner promises about its reports and its deletions, stated
    over the functions the scanning methods are proved to compute. */
module ScanProperties {
  import opened StringOrder
  import opened Resolution
  import opened Grouping
  import opened ConflictScan

  /** A report is produced exactly for each key whose group has more than
      one member, and it is that group's report. */
  lemma {:induction false} ReportMember(dir: string, keys: seq<string>, groups: map<string, seq<string>>, r: Report)
    requires forall b :: b in keys ==> b in groups
    ensures r in ReportsOver(dir, keys, groups) <==>
      exists k :: k in keys && |groups[k]| > 1 && r == GroupReport(dir, k, groups[k])
  {
    if keys != [] {
      var prefix, last := keys[..|keys| - 1], keys[|keys| - 1];
      assert keys == prefix + [last];
      ReportMember(dir, prefix, groups, r);
      if exists k :: k in keys && |groups[k]| > 1 && r == GroupReport(dir, k, groups[k]) {
        var k :| k in keys && |groups[k]| > 1 && r == GroupReport(dir, k, groups[k]);
        if k != last {
          assert k in prefix;
        }
      }
    }
  }

  /** A directory yields a report exactly when one of its groups has more
      than one member (the `found_any_duplicates` condition). */
  lemma DirReportsIff(dir: string, fs: seq<string>)
    ensures DirReports(dir, fs) != [] <==> HasDuplicate(fs)
  {
    var key := BaseOf(Elems(fs));
    var keys, groups := BaseOrder(fs, key), GroupsOf(fs);
    var rs := DirReports(dir, fs);
    if rs != [] {
      ReportMember(dir, keys, groups, rs[0]);
      var k :| k in keys && |groups[k]| > 1 && rs[0] == GroupReport(dir, k, groups[k]);
      assert |GroupOf(fs, key, k)| > 1;
    }
    if HasDuplicate(fs) {
      var k :| k in keys && |GroupOf(fs, key, k)| > 1;
      ReportMember(dir, keys, groups, GroupReport(dir, k, groups[k]));
    }
  }

  /** Over the whole walk: some report exists exactly when some directory
      has a duplicate set. */
  lemma {:induction false} WalkReportsIff(walk: seq<Directory>)
    ensures WalkReports(walk) != [] <==> exists d :: 0 <= d < |walk| && HasDuplicate(walk[d].filenames)
  {
    if walk != [] {
      var prefix, last := walk[..|walk| - 1], walk[|walk| - 1];
      WalkReportsIff(prefix);
      DirReportsIff(last.path, last.filenames);
      if exists d :: 0 <= d < |walk| && HasDuplicate(walk[d].filenames) {
        var d :| 0 <= d < |walk| && HasDuplicate(walk[d].filenames);
        if d < |walk| - 1 {
          assert prefix[d] == walk[d];
        }
      }
      if exists d :: 0 <= d < |prefix| && HasDuplicate(prefix[d].filenames) {
        var d :| 0 <= d < |prefix| && HasDuplicate(prefix[d].filenames);
        assert walk[d] == prefix[d];
      }
    }
  }

  /** What one report of a directory holds: the original is a listed name
      that is its own base, its group has several members, and the
      conflicts are the other members of that group, in ascending order,
      one fewer than the members. */
  lemma ReportContents(dir: string, fs: seq<string>, r: Report)
    requires Distinct(fs)
    requires r in DirReports(dir, fs)
    ensures var names := Elems(fs);
      var b := r.original.name;
      var g := GroupOf(fs, BaseOf(names), b);
      && r.original == Path(dir, b)
      && b in fs
      && ResolveBase(b, names) == b
      && |g| > 1
      && r.conflicts == JoinDir(dir, ConflictNames(b, g))
      && Sorted(ConflictNames(b, g))
      && |r.conflicts| == |g| - 1
      && (forall p :: p in r.conflicts ==>
            p.dir == dir && p.name in fs && p.name != b && ResolveBase(p.name, names) == b)
  {
    var names := Elems(fs);
    var key := BaseOf(names);
    var keys, groups := BaseOrder(fs, key), GroupsOf(fs);
    ReportMember(dir, keys, groups, r);
    var b :| b in keys && |groups[b]| > 1 && r == GroupReport(dir, b, groups[b]);
    var g := GroupOf(fs, key, b);
    GroupsPartition(fs);
    GroupOfMembers(fs, key, b, b);
    GroupOfDistinct(fs, key, b);
    ConflictNamesSpec(b, g);
    forall p | p in r.conflicts
      ensures p.dir == dir && p.name in fs && p.name != b && ResolveBase(p.name, names) == b
    {
      JoinDirMembers(dir, ConflictNames(b, g), p);
      assert p.name in multiset(ConflictNames(b, g));
      GroupOfMembers(fs, key, b, p.name);
    }
  }

  /** A path is handed to `os.remove` exactly when delete mode is on and
      the path is a conflict of some report. */
  lemma {:induction false} PlanMember(reports: seq<Report>, performDelete: bool, p: Path)
    ensures p in DeletionPlan(reports, performDelete) <==>
      performDelete && exists r :: r in reports && p in r.conflicts
  {
    if reports != [] {
      var prefix, last := reports[..|reports| - 1], reports[|reports| - 1];
      assert reports == prefix + [last];
      PlanMember(prefix, performDelete, p);
      if performDelete && exists r :: r in reports && p in r.conflicts {
        var r :| r in reports && p in r.conflicts;
        if r != last {
          assert r in prefix;
        }
      }
    }
  }

  /** A dry run removes nothing. */
  lemma DryRunRemovesNothing(reports: seq<Report>)
    ensures DeletionPlan(reports, false) == []
  {
    if DeletionPlan(reports, false) != [] {
      PlanMember(reports, false, DeletionPlan(reports, false)[0]);
    }
  }

  /** Every file the scanner tries to remove in a directory is a listed
      file that is not its own base, and the original it was grouped under
      is never among the removals: each duplicate set keeps its original. */
  lemma OriginalsSurvive(dir: string, fs: seq<string>, performDelete: bool, p: Path)
    requires Distinct(fs)
    requires p in DeletionPlan(DirReports(dir, fs), performDelete)
    ensures var names := Elems(fs);
      && p.dir == dir
      && p.name in fs
      && ResolveBase(p.name, names) != p.name
      && Path(dir, ResolveBase(p.name, names)) !in DeletionPlan(DirReports(dir, fs), performDelete)
  {
    var names := Elems(fs);
    var reports := DirReports(dir, fs);
    PlanMember(reports, performDelete, p);
    var r :| r in reports && p in r.conflicts;
    ReportContents(dir, fs, r);
    var b := ResolveBase(p.name, names);
    if Path(dir, b) in DeletionPlan(reports, performDelete) {
      PlanMember(reports, performDelete, Path(dir, b));
      var r' :| r' in reports && Path(dir, b) in r'.conflicts;
      ReportContents(dir, fs, r');
      ResolveBaseIdempotent(p.name, names);
      assert false;
    }
  }
}
