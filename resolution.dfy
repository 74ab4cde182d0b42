/** Base-name resolution: a conflict copy such as "report-1-2.txt" is traced
    back, one "-suffix" at a time, to the shortest name in the same directory
    that the chain of present names reaches ("report.txt"). */
module Resolution {
  import opened PathText

  datatype Option<T> = None | Some(value: T)

  /** The one-step parent of `name`: the extension is split off, the stem is
      cut at its last '-', and the part before the dash is given the same
      extension back. There is none when the stem has no '-' or ends in one. */
  function ParentName(name: string): (r: Option<string>)
    ensures r.Some? ==> |r.value| + 2 <= |name|
  {
    var (stem, ext) := SplitExt(name);
    var parts := RSplitOnce(stem, '-');
    if |parts| < 2 || parts[1] == [] then None
    else
      assert stem == parts[0] + ['-'] + parts[1];
      Some(parts[0] + ext)
  }

  /** The parent keeps the extension and drops the last "-suffix" of the
      stem; there is no parent exactly when the stem has no '-' or ends in
      one. */
  lemma ParentNameShape(name: string)
    ensures ParentName(name).Some? ==>
      var (stem, ext) := SplitExt(name);
      exists k :: 0 <= k < |stem| - 1 && stem[k] == '-' && '-' !in stem[k + 1..]
        && ParentName(name).value == stem[..k] + ext
    ensures ParentName(name).None? <==>
      var stem := SplitExt(name).0;
      '-' !in stem || stem[|stem| - 1] == '-'
  {
    var (stem, ext) := SplitExt(name);
    var parts := RSplitOnce(stem, '-');
    if |parts| == 2 {
      var k := |parts[0]|;
      assert stem == parts[0] + ['-'] + parts[1];
      assert stem[..k] == parts[0] && stem[k + 1..] == parts[1];
    }
  }

  /** `name` is where resolution stops: it has no parent, or its parent is
      not one of `names`. */
  predicate IsBase(name: string, names: set<string>) {
    match ParentName(name)
    case None => true
    case Some(p) => p !in names
  }

  /** The base file of `name` among the directory's `names`: follow parents
      for as long as they are present. */
  function ResolveBase(name: string, names: set<string>): (r: string)
    ensures |r| <= |name|
    ensures r == name || r in names
    decreases |name|
  {
    match ParentName(name)
    case None => name
    case Some(p) => if p in names then ResolveBase(p, names) else name
  }

  /** Resolution always stops at a base. */
  lemma {:induction false} ResolveBaseIsBase(name: string, names: set<string>)
    ensures IsBase(ResolveBase(name, names), names)
    decreases |name|
  {
    match ParentName(name)
    case None =>
    case Some(p) =>
      if p in names {
        ResolveBaseIsBase(p, names);
      }
  }

  /** The resolution loop of the scanner. Each round replaces the lookup
      name by a strictly shorter one, so the loop ends, and it ends at the
      base `ResolveBase` describes. */
  method ResolveBaseFile(filename: string, names: set<string>) returns (baseFile: string)
    ensures baseFile == ResolveBase(filename, names)
    ensures filename in names ==> baseFile in names
  {
    baseFile := filename;
    var currentLookup := filename;
    while true
      invariant baseFile == currentLookup
      invariant ResolveBase(currentLookup, names) == ResolveBase(filename, names)
      invariant currentLookup == filename || currentLookup in names
      decreases |currentLookup|
    {
      var (base, ext) := SplitExt(currentLookup);
      var parts := RSplitOnce(base, '-');
      if |parts| < 2 || parts[1] == [] {
        break;
      }
      var potentialParentBase := parts[0];
      var potentialParentFilename := potentialParentBase + ext;
      if potentialParentFilename in names {
        currentLookup := potentialParentFilename;
        baseFile := potentialParentFilename;
      } else {
        break;
      }
    }
  }

  /** A name is its own base exactly when it has no parent present. */
  lemma SelfBaseIff(name: string, names: set<string>)
    ensures ResolveBase(name, names) == name <==> IsBase(name, names)
  {
    if ParentName(name).Some? && ParentName(name).value in names {
      assert |ResolveBase(name, names)| < |name|;
    }
  }

  /** A name whose stem has no '-', or ends in '-', is always its own base. */
  lemma NoDashSuffixIsBase(name: string, names: set<string>)
    requires var stem := SplitExt(name).0; '-' !in stem || stem[|stem| - 1] == '-'
    ensures ResolveBase(name, names) == name
  {
    ParentNameShape(name);
  }

  /** Resolving a base again gives the same base. */
  lemma ResolveBaseIdempotent(name: string, names: set<string>)
    ensures ResolveBase(ResolveBase(name, names), names) == ResolveBase(name, names)
  {
    ResolveBaseIsBase(name, names);
    SelfBaseIff(ResolveBase(name, names), names);
  }

  /** A stem ending in "-suffix" (the suffix free of dashes) has the stem
      before that dash, with the same extension, as its parent. */
  lemma ParentNameDrop(name: string, stem: string, suffix: string, ext: string)
    requires SplitExt(name) == (stem + "-" + suffix, ext)
    requires suffix != [] && '-' !in suffix
    ensures ParentName(name) == Some(stem + ext)
  {
    var s := stem + "-" + suffix;
    assert s[|stem| + 1..] == suffix;
    RFindLast(s, '-', |stem|);
    assert s[..|stem|] == stem;
  }

  /** A name with a dash-free stem has no parent. */
  lemma ParentNameNoDash(name: string)
    requires '-' !in SplitExt(name).0
    ensures ParentName(name) == None
  {
  }

  /** Names of the shape the scanner is written for: `stem + ext` with a
      dash-free stem, a first copy `stem-m + ext` and a copy of that copy
      `stem-m-n + ext`. */
  predicate CopyNames(stem: string, ext: string, m: string, n: string) {
    && stem != [] && stem[0] != '.' && '/' !in stem && '-' !in stem
    && ext != [] && ext[0] == '.' && '.' !in ext[1..] && '/' !in ext
    && m != [] && '-' !in m && '/' !in m
    && n != [] && '-' !in n && '/' !in n
  }

  /** Each copy's parent is the name it was copied from, and the original
      has none. */
  lemma CopyOfCopyParent(stem: string, ext: string, m: string, n: string)
    requires CopyNames(stem, ext, m, n)
    ensures ParentName(stem + "-" + m + "-" + n + ext) == Some(stem + "-" + m + ext)
  {
    var first := stem + "-" + m;
    SplitExtOfName(first + "-" + n, ext);
    ParentNameDrop(first + "-" + n + ext, first, n, ext);
  }

  lemma FirstCopyParent(stem: string, ext: string, m: string, n: string)
    requires CopyNames(stem, ext, m, n)
    ensures ParentName(stem + "-" + m + ext) == Some(stem + ext)
  {
    SplitExtOfName(stem + "-" + m, ext);
    ParentNameDrop(stem + "-" + m + ext, stem, m, ext);
  }

  lemma OriginalHasNoParent(stem: string, ext: string, m: string, n: string)
    requires CopyNames(stem, ext, m, n)
    ensures ParentName(stem + ext) == None
  {
    SplitExtOfName(stem, ext);
    ParentNameNoDash(stem + ext);
  }

  /** One round of the resolution loop: a name whose parent is present
      resolves as its parent does. */
  lemma ResolveStep(name: string, parent: string, names: set<string>)
    requires ParentName(name) == Some(parent) && parent in names
    ensures ResolveBase(name, names) == ResolveBase(parent, names)
  {
  }

  lemma ResolveStop(name: string, names: set<string>)
    requires ParentName(name) == None
    ensures ResolveBase(name, names) == name
  {
  }

  lemma ResolveStopAbsent(name: string, parent: string, names: set<string>)
    requires ParentName(name) == Some(parent) && parent !in names
    ensures ResolveBase(name, names) == name
  {
  }

  /** The case the scanner is written for: with the original and both
      copies present, the copy of a copy ("report-1-2.txt") goes back to the
      original ("report.txt") through the first copy ("report-1.txt"). */
  lemma ResolveChain(stem: string, ext: string, m: string, n: string)
    requires CopyNames(stem, ext, m, n)
    ensures var names := {stem + ext, stem + "-" + m + ext, stem + "-" + m + "-" + n + ext};
      ResolveBase(stem + "-" + m + "-" + n + ext, names) == stem + ext
  {
    CopyOfCopyParent(stem, ext, m, n);
    FirstCopyParent(stem, ext, m, n);
    OriginalHasNoParent(stem, ext, m, n);
    var names := {stem + ext, stem + "-" + m + ext, stem + "-" + m + "-" + n + ext};
    ResolveStep(stem + "-" + m + "-" + n + ext, stem + "-" + m + ext, names);
    ResolveStep(stem + "-" + m + ext, stem + ext, names);
    ResolveStop(stem + ext, names);
  }

  lemma LengthNotIn(x: string, a: string, b: string)
    requires |a| < |x| < |b|
    ensures x !in {a, b}
  {
  }

  /** Without the first copy the chain is broken: the copy of a copy is its
      own base, even though the original is present. */
  lemma ResolveBrokenChain(stem: string, ext: string, m: string, n: string)
    requires CopyNames(stem, ext, m, n)
    ensures var names := {stem + ext, stem + "-" + m + "-" + n + ext};
      ResolveBase(stem + "-" + m + "-" + n + ext, names) == stem + "-" + m + "-" + n + ext
  {
    CopyOfCopyParent(stem, ext, m, n);
    var names := {stem + ext, stem + "-" + m + "-" + n + ext};
    var parent := stem + "-" + m + ext;
    LengthNotIn(parent, stem + ext, stem + "-" + m + "-" + n + ext);
    ResolveStopAbsent(stem + "-" + m + "-" + n + ext, parent, names);
  }
}
