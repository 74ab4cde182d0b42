/** Python's ordering of `str` values (code point by code point, a proper
    prefix first) and the `sorted` builtin applied to a list of names. */
module StringOrder {
  import opened Sequences

  /** `a <= b` on Python strings. */
  predicate LexLe(a: string, b: string)
    decreases |a|
  {
    a == [] || (b != [] && (a[0] < b[0] || (a[0] == b[0] && LexLe(a[1..], b[1..]))))
  }

  lemma {:induction false} LexLeRefl(a: string)
    ensures LexLe(a, a)
    decreases |a|
  {
    if a != [] {
      LexLeRefl(a[1..]);
    }
  }

  lemma {:induction false} LexLeTotal(a: string, b: string)
    ensures LexLe(a, b) || LexLe(b, a)
    decreases |a|
  {
    if a != [] && b != [] && a[0] == b[0] {
      LexLeTotal(a[1..], b[1..]);
    }
  }

  lemma {:induction false} LexLeTrans(a: string, b: string, c: string)
    requires LexLe(a, b) && LexLe(b, c)
    ensures LexLe(a, c)
    decreases |a|
  {
    if a != [] && a[0] == b[0] && b[0] == c[0] {
      LexLeTrans(a[1..], b[1..], c[1..]);
    }
  }

  lemma {:induction false} LexLeAntisym(a: string, b: string)
    requires LexLe(a, b) && LexLe(b, a)
    ensures a == b
    decreases |a|
  {
    if a != [] {
      LexLeAntisym(a[1..], b[1..]);
      assert a == [a[0]] + a[1..] && b == [b[0]] + b[1..];
    }
  }

  /** Every name precedes (or equals) every later one. */
  predicate Sorted(s: seq<string>) {
    forall i, j {:trigger LexLe(s[i], s[j])} :: 0 <= i < j < |s| ==> LexLe(s[i], s[j])
  }

  /** Insert `x` in front of the first element it does not exceed. */
  function Insert(x: string, s: seq<string>): (r: seq<string>)
    ensures multiset(r) == multiset(s) + multiset{x}
  {
    if s == [] then [x]
    else if LexLe(x, s[0]) then [x] + s
    else
      assert s == [s[0]] + s[1..];
      [s[0]] + Insert(x, s[1..])
  }

  /** Putting a name in front of a sorted sequence whose names it precedes
      keeps it sorted. */
  lemma ConsSorted(y: string, t: seq<string>)
    requires Sorted(t)
    requires forall e :: e in t ==> LexLe(y, e)
    ensures Sorted([y] + t)
  {
    var r := [y] + t;
    forall i, j | 0 <= i < j < |r| ensures LexLe(r[i], r[j]) {
      assert r[j] == t[j - 1] && r[j] in t;
      if i > 0 {
        assert r[i] == t[i - 1];
      }
    }
  }

  lemma {:induction false} InsertSorted(x: string, s: seq<string>)
    requires Sorted(s)
    ensures Sorted(Insert(x, s))
  {
    if s == [] {
    } else if LexLe(x, s[0]) {
      forall e | e in s ensures LexLe(x, e) {
        SortedHeadFirst(s, e);
        LexLeTrans(x, s[0], e);
      }
      ConsSorted(x, s);
    } else {
      SortedTail(s);
      InsertSorted(x, s[1..]);
      LexLeTotal(x, s[0]);
      var t := Insert(x, s[1..]);
      forall e | e in t ensures LexLe(s[0], e) {
        assert e in multiset(t);
        if e != x {
          assert e in multiset(s[1..]);
          SortedHeadFirst(s, e);
        }
      }
      ConsSorted(s[0], t);
    }
  }

  /** Python's `sorted(names)`, by insertion. */
  function Sort(s: seq<string>): (r: seq<string>)
    ensures multiset(r) == multiset(s)
    ensures |r| == |s|
  {
    if s == [] then []
    else
      assert s == [s[0]] + s[1..];
      Insert(s[0], Sort(s[1..]))
  }

  lemma {:induction false} SortSorted(s: seq<string>)
    ensures Sorted(Sort(s))
  {
    if s != [] {
      SortSorted(s[1..]);
      InsertSorted(s[0], Sort(s[1..]));
    }
  }

  lemma SortedTail(s: seq<string>)
    requires Sorted(s) && s != []
    ensures Sorted(s[1..])
  {
    forall i, j | 0 <= i < j < |s[1..]| ensures LexLe(s[1..][i], s[1..][j]) {
      assert s[1..][i] == s[i + 1] && s[1..][j] == s[j + 1];
    }
  }

  /** The head of a sorted sequence precedes each of its elements. */
  lemma SortedHeadFirst(s: seq<string>, x: string)
    requires Sorted(s) && x in s
    ensures LexLe(s[0], x)
  {
    var k :| 0 <= k < |s| && s[k] == x;
    if k == 0 { LexLeRefl(x); }
  }

  lemma MultisetTail(s: seq<string>)
    requires s != []
    ensures multiset(s[1..]) == multiset(s) - multiset{s[0]}
  {
    assert s == [s[0]] + s[1..];
  }

  /** A sorted arrangement of a collection of names is unique, so `Sort`
      is the one order `sorted` can produce. */
  lemma {:induction false} SortedUnique(a: seq<string>, b: seq<string>)
    requires Sorted(a) && Sorted(b)
    requires multiset(a) == multiset(b)
    ensures a == b
    decreases |a|
  {
    assert |a| == |multiset(a)| == |multiset(b)| == |b|;
    if a != [] {
      assert a[0] in multiset(b) && b[0] in multiset(a);
      SortedHeadFirst(b, a[0]);
      SortedHeadFirst(a, b[0]);
      LexLeAntisym(a[0], b[0]);
      MultisetTail(a);
      MultisetTail(b);
      SortedTail(a);
      SortedTail(b);
      SortedUnique(a[1..], b[1..]);
      HeadTailEq(a, b);
    }
  }

  /** The names of `s` other than `x`, in their order in `s`: the
      `if f != base_file` filter over a sorted list. */
  function Without(s: seq<string>, x: string): (r: seq<string>)
    ensures |r| <= |s|
  {
    if s == [] then []
    else Without(s[..|s| - 1], x) + (if s[|s| - 1] != x then [s[|s| - 1]] else [])
  }

  lemma WithoutSnoc(s: seq<string>, y: string, x: string)
    ensures Without(s + [y], x) == Without(s, x) + (if y != x then [y] else [])
  {
    assert (s + [y])[..|s|] == s;
  }

  /** Filtering `x` out keeps every other name as often as it occurs and
      drops every copy of `x`. */
  lemma {:induction false} WithoutMultiset(s: seq<string>, x: string)
    ensures multiset(Without(s, x)) == multiset(s)[x := 0]
    ensures |Without(s, x)| + multiset(s)[x] == |s|
  {
    if s != [] {
      var p, last := s[..|s| - 1], s[|s| - 1];
      assert s == p + [last];
      WithoutMultiset(p, x);
      WithoutSnoc(p, last, x);
    }
  }

  lemma SortedPrefix(s: seq<string>, n: nat)
    requires Sorted(s) && n <= |s|
    ensures Sorted(s[..n])
  {
    forall i, j | 0 <= i < j < n ensures LexLe(s[..n][i], s[..n][j]) {
      assert s[..n][i] == s[i] && s[..n][j] == s[j];
    }
  }

  /** Appending a name that every name of a sorted sequence precedes keeps
      it sorted. */
  lemma SnocSorted(w: seq<string>, y: string)
    requires Sorted(w)
    requires forall e :: e in w ==> LexLe(e, y)
    ensures Sorted(w + [y])
  {
    var r := w + [y];
    forall i, j | 0 <= i < j < |r| ensures LexLe(r[i], r[j]) {
      assert r[i] == w[i] && r[i] in w;
      if j < |w| {
        assert r[j] == w[j];
      }
    }
  }

  /** In a sorted sequence every name precedes the last one. */
  lemma SortedBeforeLast(s: seq<string>, e: string)
    requires Sorted(s) && s != [] && e in s[..|s| - 1]
    ensures LexLe(e, s[|s| - 1])
  {
    var k :| 0 <= k < |s| - 1 && s[..|s| - 1][k] == e;
    assert s[k] == e;
  }

  /** Filtering keeps only names of the original sequence. */
  lemma WithoutSubset(s: seq<string>, x: string, e: string)
    requires e in Without(s, x)
    ensures e in s
  {
    WithoutMultiset(s, x);
    assert e in multiset(Without(s, x));
  }

  /** Filtering keeps a sorted sequence sorted. */
  lemma {:induction false} WithoutSorted(s: seq<string>, x: string)
    requires Sorted(s)
    ensures Sorted(Without(s, x))
  {
    if s != [] {
      var p, last := s[..|s| - 1], s[|s| - 1];
      assert s == p + [last];
      SortedPrefix(s, |s| - 1);
      WithoutSorted(p, x);
      WithoutSnoc(p, last, x);
      if last != x {
        forall e | e in Without(p, x) ensures LexLe(e, last) {
          WithoutSubset(p, x, e);
          SortedBeforeLast(s, e);
        }
        SnocSorted(Without(p, x), last);
      }
    }
  }
}
