/** Bucketing one directory's file names by their resolved base: the
    `groups` dictionary of the scanner, with its keys in insertion order.
    The bucketing is stated for any key function; the scanner's key is
    `BaseOf(names)`, the base each name resolves to. */
module Grouping {
  import opened Sequences
  import opened Resolution

  /** `set(filenames)`. */
  function Elems(fs: seq<string>): (s: set<string>)
    ensures forall f :: f in s <==> f in fs
  {
    set f | f in fs
  }

  predicate Distinct(s: seq<string>) {
    forall i, j :: 0 <= i < j < |s| ==> s[i] != s[j]
  }

  /** The scanner's key: a name's base among the directory's `names`. */
  function BaseOf(names: set<string>): string -> string {
    name => ResolveBase(name, names)
  }

  /** The group keys in the order the scanner first meets them: one key per
      distinct key value, no key twice. */
  function BaseOrder(fs: seq<string>, key: string -> string): (keys: seq<string>)
    ensures Distinct(keys)
  {
    if fs == [] then []
    else
      var prefix := BaseOrder(fs[..|fs| - 1], key);
      var b := key(fs[|fs| - 1]);
      if b in prefix then prefix else prefix + [b]
  }

  /** A key is the key of some listed name, and every listed name's key is
      a key. */
  lemma {:induction false} BaseOrderMembers(fs: seq<string>, key: string -> string, b: string)
    ensures b in BaseOrder(fs, key) <==> exists f :: f in fs && key(f) == b
  {
    if fs != [] {
      var prefix, last := fs[..|fs| - 1], fs[|fs| - 1];
      BaseOrderMembers(prefix, key, b);
      assert fs == prefix + [last];
      if b in BaseOrder(fs, key) {
        if b in BaseOrder(prefix, key) {
          var f :| f in prefix && key(f) == b;
          assert f in fs;
        } else {
          assert key(last) == b;
        }
      }
      if exists f :: f in fs && key(f) == b {
        var f :| f in fs && key(f) == b;
        if f != last {
          assert f in prefix;
        }
      }
    }
  }

  /** The members of the group keyed by `b`, in listing order. */
  function GroupOf(fs: seq<string>, key: string -> string, b: string): (g: seq<string>)
    ensures |g| <= |fs|
  {
    if fs == [] then []
    else
      var last := fs[|fs| - 1];
      GroupOf(fs[..|fs| - 1], key, b) + (if key(last) == b then [last] else [])
  }

  /** The group keyed by `b` holds exactly the listed names whose key is `b`. */
  lemma {:induction false} GroupOfMembers(fs: seq<string>, key: string -> string, b: string, x: string)
    ensures x in GroupOf(fs, key, b) <==> x in fs && key(x) == b
  {
    if fs != [] {
      var prefix, last := fs[..|fs| - 1], fs[|fs| - 1];
      GroupOfMembers(prefix, key, b, x);
      assert fs == prefix + [last];
    }
  }

  lemma GroupOfSnoc(fs: seq<string>, x: string, key: string -> string, b: string)
    ensures GroupOf(fs + [x], key, b) == GroupOf(fs, key, b) + (if key(x) == b then [x] else [])
  {
    assert (fs + [x])[..|fs|] == fs;
  }

  lemma BaseOrderSnoc(fs: seq<string>, x: string, key: string -> string)
    ensures var prefix := BaseOrder(fs, key);
      BaseOrder(fs + [x], key) == if key(x) in prefix then prefix else prefix + [key(x)]
  {
    assert (fs + [x])[..|fs|] == fs;
  }

  /** A value that is no key so far has an empty group so far. */
  lemma NewKeyEmptyGroup(fs: seq<string>, key: string -> string, b: string)
    requires b !in BaseOrder(fs, key)
    ensures GroupOf(fs, key, b) == []
  {
    BaseOrderMembers(fs, key, b);
    var g := GroupOf(fs, key, b);
    if g != [] {
      GroupOfMembers(fs, key, b, g[0]);
    }
  }

  /** `keys` and `groups` are the dictionary built from the names `fs`. */
  ghost predicate GroupsOk(fs: seq<string>, key: string -> string, keys: seq<string>, groups: map<string, seq<string>>) {
    && keys == BaseOrder(fs, key)
    && (forall b :: b in groups <==> b in keys)
    && (forall b :: b in groups ==> groups[b] == GroupOf(fs, key, b))
  }

  /** One round of the grouping loop: once the key of `x` has an entry
      (a new, empty one if it had none), appending `x` to that entry gives
      the dictionary of `fs + [x]`. */
  lemma AddToGroups(fs: seq<string>, x: string, key: string -> string,
                    keys: seq<string>, groups: map<string, seq<string>>,
                    keys': seq<string>, groups': map<string, seq<string>>)
    requires GroupsOk(fs, key, keys, groups)
    requires key(x) in groups ==> keys' == keys && groups' == groups
    requires key(x) !in groups ==> keys' == keys + [key(x)] && groups' == groups[key(x) := []]
    ensures key(x) in groups'
    ensures GroupsOk(fs + [x], key, keys', groups'[key(x) := groups'[key(x)] + [x]])
  {
    var b := key(x);
    BaseOrderSnoc(fs, x, key);
    if b !in groups {
      NewKeyEmptyGroup(fs, key, b);
    }
    forall c ensures GroupOf(fs + [x], key, c) == GroupOf(fs, key, c) + (if b == c then [x] else []) {
      GroupOfSnoc(fs, x, key, c);
    }
  }

  /** Lines 25-50 of the scanner: every file name is appended to the group
      of its resolved base, a new key being added when first met. */
  method BuildGroups(filenames: seq<string>) returns (keys: seq<string>, groups: map<string, seq<string>>)
    ensures keys == BaseOrder(filenames, BaseOf(Elems(filenames)))
    ensures forall b :: b in groups <==> b in keys
    ensures forall b :: b in groups ==> groups[b] == GroupOf(filenames, BaseOf(Elems(filenames)), b)
  {
    var filenamesSet := Elems(filenames);
    ghost var key := BaseOf(filenamesSet);
    keys := [];
    groups := map[];
    for i := 0 to |filenames|
      invariant GroupsOk(filenames[..i], key, keys, groups)
    {
      var filename := filenames[i];
      var baseFile := ResolveBaseFile(filename, filenamesSet);
      ghost var keys0, groups0 := keys, groups;
      if baseFile !in groups {
        groups := groups[baseFile := []];
        keys := keys + [baseFile];
      }
      AddToGroups(filenames[..i], filename, key, keys0, groups0, keys, groups);
      groups := groups[baseFile := groups[baseFile] + [filename]];
      TakeSnoc(filenames, i);
    }
    TakeAll(filenames);
  }

  /** The scanner's key maps every listed name to a listed name that is
      its own key. */
  lemma BaseOfClosed(fs: seq<string>, f: string)
    requires f in fs
    ensures BaseOf(Elems(fs))(f) in fs
    ensures BaseOf(Elems(fs))(BaseOf(Elems(fs))(f)) == BaseOf(Elems(fs))(f)
  {
    ResolveBaseIdempotent(f, Elems(fs));
  }

  /** The groups partition the directory: each name lies in the group of its
      own base and in no other, and every key belongs to its own group. */
  lemma GroupsPartition(fs: seq<string>)
    ensures var key := BaseOf(Elems(fs));
      forall f :: f in fs ==> key(f) in BaseOrder(fs, key) && f in GroupOf(fs, key, key(f))
    ensures var key := BaseOf(Elems(fs));
      forall b, f :: f in GroupOf(fs, key, b) ==> b == key(f)
    ensures var key := BaseOf(Elems(fs));
      forall b :: b in BaseOrder(fs, key) ==> b in GroupOf(fs, key, b)
  {
    var key := BaseOf(Elems(fs));
    forall f | f in fs
      ensures key(f) in BaseOrder(fs, key)
      ensures f in GroupOf(fs, key, key(f))
    {
      BaseOrderMembers(fs, key, key(f));
      GroupOfMembers(fs, key, key(f), f);
    }
    forall b, f | f in GroupOf(fs, key, b)
      ensures b == key(f)
    {
      GroupOfMembers(fs, key, b, f);
    }
    forall b | b in BaseOrder(fs, key)
      ensures b in GroupOf(fs, key, b)
    {
      BaseOrderMembers(fs, key, b);
      var f :| f in fs && key(f) == b;
      BaseOfClosed(fs, f);
      GroupOfMembers(fs, key, b, b);
    }
  }

  /** A directory lists no name twice, so no group holds a name twice. */
  lemma {:induction false} GroupOfDistinct(fs: seq<string>, key: string -> string, b: string)
    requires Distinct(fs)
    ensures Distinct(GroupOf(fs, key, b))
  {
    if fs != [] {
      var prefix, last := fs[..|fs| - 1], fs[|fs| - 1];
      assert Distinct(prefix) by {
        forall i, j | 0 <= i < j < |prefix| ensures prefix[i] != prefix[j] {
          assert prefix[i] == fs[i] && prefix[j] == fs[j];
        }
      }
      GroupOfDistinct(prefix, key, b);
      var g := GroupOf(prefix, key, b);
      assert last !in prefix by {
        forall k | 0 <= k < |prefix| ensures prefix[k] != last {
          assert prefix[k] == fs[k];
        }
      }
      GroupOfMembers(prefix, key, b, last);
      assert last !in g;
    }
  }
}
