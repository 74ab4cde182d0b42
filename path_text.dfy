/** The string helpers the conflict scanner uses on file names: Python's
    `str.rfind`, `os.path.splitext` (POSIX flavour) and `str.rsplit(sep, 1)`. */
module PathText {

  /** Index of the last occurrence of `c` in `s`, or -1 when there is none
      (Python's `s.rfind(c)`). */
  function RFind(s: string, c: char): (r: int)
    ensures -1 <= r < |s|
    ensures r >= 0 ==> s[r] == c
    ensures forall j :: r < j < |s| ==> s[j] != c
  {
    if s == [] then -1
    else if s[|s| - 1] == c then |s| - 1
    else RFind(s[..|s| - 1], c)
  }

  /** `c` at `k` with no `c` after it is the last occurrence. */
  lemma RFindLast(s: string, c: char, k: int)
    requires 0 <= k < |s| && s[k] == c && c !in s[k + 1..]
    ensures RFind(s, c) == k
  {
  }

  /** Some character of `s` is not a dot; scanned from the front, as
      `splitext` skips the leading dots of a name. */
  predicate HasNonDot(s: string) {
    s != [] && (s[0] != '.' || HasNonDot(s[1..]))
  }

  lemma {:induction false} HasNonDotWitness(s: string)
    ensures HasNonDot(s) <==> exists i :: 0 <= i < |s| && s[i] != '.'
  {
    if s != [] && s[0] == '.' {
      HasNonDotWitness(s[1..]);
      if exists i :: 0 <= i < |s| && s[i] != '.' {
        var i :| 0 <= i < |s| && s[i] != '.';
        assert s[1..][i - 1] != '.';
      }
    }
  }

  /** Some dot in `p` has a non-dot character somewhere before it. */
  predicate DotAfterNonDot(p: string) {
    exists i, j :: 0 <= i < j < |p| && p[i] != '.' && p[j] == '.'
  }

  /** Where the extension of `p` starts under `os.path.splitext` on POSIX,
      or -1 when it has none: the last dot after the last '/', unless only
      dots precede it in the final component (so ".bashrc" and "..." have
      no extension). */
  function ExtStart(p: string): (k: int)
    ensures -1 <= k < |p|
    ensures k >= 0 ==> p[k] == '.'
  {
    var sepIndex := RFind(p, '/');
    var dotIndex := RFind(p, '.');
    if dotIndex > sepIndex && HasNonDot(p[sepIndex + 1..dotIndex]) then dotIndex else -1
  }

  /** `os.path.splitext(p)`: the name split before its extension. */
  function SplitExt(p: string): (r: (string, string))
    ensures r.0 + r.1 == p
  {
    var k := ExtStart(p);
    if k >= 0 then
      assert p[..k] + p[k..] == p;
      (p[..k], p[k..])
    else
      (p, [])
  }

  /** A non-empty extension is one dot followed by neither dots nor
      separators. */
  lemma SplitExtShape(p: string)
    ensures var ext := SplitExt(p).1;
      ext == [] || (ext[0] == '.' && '.' !in ext[1..] && '/' !in ext)
  {
    var sepIndex := RFind(p, '/');
    var dotIndex := RFind(p, '.');
    var ext := SplitExt(p).1;
    if ext != [] {
      assert ext == p[dotIndex..];
      assert forall j :: 0 <= j < |ext| ==> ext[j] == p[dotIndex + j];
    }
  }

  /** For a name without a separator, as a directory listing yields, the
      extension is non-empty exactly when some dot follows a non-dot. */
  lemma SplitExtOfFileName(p: string)
    requires '/' !in p
    ensures SplitExt(p).1 != [] <==> DotAfterNonDot(p)
  {
    var dotIndex := RFind(p, '.');
    assert RFind(p, '/') == -1;
    if dotIndex >= 0 { HasNonDotWitness(p[0..dotIndex]); }
    if SplitExt(p).1 != [] {
      var k :| 0 <= k < |p[0..dotIndex]| && p[0..dotIndex][k] != '.';
      assert p[k] != '.' && p[dotIndex] == '.';
    }
    if DotAfterNonDot(p) {
      var i, j :| 0 <= i < j < |p| && p[i] != '.' && p[j] == '.';
      assert j <= dotIndex;
      assert p[0..dotIndex][i] != '.';
    }
  }

  lemma RFindAbsent(s: string, c: char)
    requires c !in s
    ensures RFind(s, c) == -1
  {
  }

  /** A separator-free name whose stem does not start with a dot splits
      before its last dot. */
  lemma SplitExtOfName(stem: string, ext: string)
    requires '/' !in stem && '/' !in ext
    requires stem != [] && stem[0] != '.'
    requires ext != [] && ext[0] == '.' && '.' !in ext[1..]
    ensures SplitExt(stem + ext) == (stem, ext)
  {
    var p := stem + ext;
    var k := |stem|;
    assert '/' !in p;
    RFindAbsent(p, '/');
    assert p[k] == '.' && p[k + 1..] == ext[1..];
    RFindLast(p, '.', k);
    assert p[0..k] == stem;
    assert HasNonDot(stem);
    assert ExtStart(p) == k;
    assert p[..k] == stem && p[k..] == ext;
  }

  /** `s.rsplit(sep, 1)`: the whole string when `sep` does not occur,
      otherwise the parts before and after its last occurrence. */
  function RSplitOnce(s: string, sep: char): (parts: seq<string>)
    ensures 1 <= |parts| <= 2
    ensures |parts| == 1 <==> sep !in s
    ensures |parts| == 1 ==> parts[0] == s
    ensures |parts| == 2 ==> parts[0] + [sep] + parts[1] == s && sep !in parts[1]
  {
    var k := RFind(s, sep);
    if k < 0 then [s] else [s[..k], s[k + 1..]]
  }
}
