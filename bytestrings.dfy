/**
 Byte strings and the order in which the store keeps its keys.

 Keys and values of the store are Rust `String`s, compared byte by byte
 (`Ord for str` is the lexicographic order of the UTF-8 bytes, a proper
 prefix being the smaller). A `BTreeMap` iterates its keys in that order;
 `SortedKeys` gives that iteration order for a finite set of keys.
 */
module ByteStrings {

  type Bytes = seq<bv8>

  /** The newline byte `b'\n'` that separates lines. */
  const NL: bv8 := 0x0A
  /** The byte `b'='` that separates a key from its value. */
  const EQ: bv8 := 0x3D

  /** Lexicographic byte order: `a` sorts strictly before `b`. */
  predicate Less(a: Bytes, b: Bytes)
    decreases |a|
  {
    if a == [] then b != []
    else if b == [] then false
    else a[0] < b[0] || (a[0] == b[0] && Less(a[1..], b[1..]))
  }

  lemma {:induction false} LessIrreflexive(a: Bytes)
    ensures !Less(a, a)
    decreases |a|
  {
    if a != [] {
      LessIrreflexive(a[1..]);
    }
  }

  lemma {:induction false} LessTransitive(a: Bytes, b: Bytes, c: Bytes)
    requires Less(a, b) && Less(b, c)
    ensures Less(a, c)
    decreases |a|
  {
    if a != [] && a[0] == b[0] && b[0] == c[0] {
      LessTransitive(a[1..], b[1..], c[1..]);
    }
  }

  /** Any two byte strings are equal or ordered one way round. */
  lemma {:induction false} LessTrichotomy(a: Bytes, b: Bytes)
    ensures a == b || Less(a, b) || Less(b, a)
    decreases |a|
  {
    if a != [] && b != [] && a[0] == b[0] {
      LessTrichotomy(a[1..], b[1..]);
      if a[1..] == b[1..] {
        assert a == [a[0]] + a[1..] && b == [b[0]] + b[1..];
      }
    }
  }

  lemma LessAsymmetric(a: Bytes, b: Bytes)
    requires Less(a, b)
    ensures !Less(b, a)
  {
    if Less(b, a) {
      LessTransitive(a, b, a);
      LessIrreflexive(a);
    }
  }

  /** `k` is the smallest element of `s`. */
  predicate IsLeast(k: Bytes, s: set<Bytes>)
  {
    k in s && forall j :: j in s && j != k ==> Less(k, j)
  }

  lemma {:induction false} LeastExists(s: set<Bytes>)
    requires s != {}
    ensures exists k :: IsLeast(k, s)
    decreases s
  {
    var x :| x in s;
    if s == {x} {
      assert IsLeast(x, s);
    } else {
      LeastExists(s - {x});
      var k :| IsLeast(k, s - {x});
      LessTrichotomy(k, x);
      if Less(k, x) {
        assert IsLeast(k, s);
      } else {
        forall j | j in s && j != x
          ensures Less(x, j)
        {
          if j != k {
            LessTransitive(x, k, j);
          }
        }
        assert IsLeast(x, s);
      }
    }
  }

  lemma LeastUnique(k1: Bytes, k2: Bytes, s: set<Bytes>)
    requires IsLeast(k1, s) && IsLeast(k2, s)
    ensures k1 == k2
  {
    if k1 != k2 {
      LessAsymmetric(k1, k2);
    }
  }

  /** Every element sorts strictly before every later one (so none repeats). */
  predicate StrictlySorted(ks: seq<Bytes>)
  {
    forall i, j :: 0 <= i < j < |ks| ==> Less(ks[i], ks[j])
  }

  /** The elements of `s` in ascending order: the order in which a `BTreeMap` with key set `s` is iterated. */
  ghost function SortedKeys(s: set<Bytes>): (ks: seq<Bytes>)
    ensures StrictlySorted(ks)
    ensures forall k :: k in ks <==> k in s
    ensures |ks| == |s|
    decreases s
  {
    if s == {} then []
    else
      LeastExists(s);
      var k :| IsLeast(k, s);
      [k] + SortedKeys(s - {k})
  }

  /** Unfolding `SortedKeys` at its least element, whichever way that element was found. */
  lemma SortedKeysUnfold(s: set<Bytes>, k: Bytes)
    requires IsLeast(k, s)
    ensures SortedKeys(s) == [k] + SortedKeys(s - {k})
  {
    var k' :| IsLeast(k', s) && SortedKeys(s) == [k'] + SortedKeys(s - {k'});
    LeastUnique(k, k', s);
  }

  /** A strictly sorted sequence is determined by its elements: it is `SortedKeys` of them. */
  lemma {:induction false} SortedKeysUnique(ks: seq<Bytes>, s: set<Bytes>)
    requires StrictlySorted(ks)
    requires forall k :: k in ks <==> k in s
    ensures ks == SortedKeys(s)
    decreases |ks|
  {
    if ks == [] {
      assert s == {};
    } else {
      var k := ks[0];
      forall j | j in s && j != k
        ensures Less(k, j)
      {
        var i :| 0 <= i < |ks| && ks[i] == j;
      }
      assert IsLeast(k, s);
      SortedKeysUnfold(s, k);
      forall j
        ensures j in ks[1..] <==> j in s - {k}
      {
        if j in ks[1..] {
          var i :| 1 <= i < |ks| && ks[i] == j;
          LessIrreflexive(k);
        }
        if j in s - {k} {
          var i :| 0 <= i < |ks| && ks[i] == j;
        }
      }
      SortedKeysUnique(ks[1..], s - {k});
    }
  }
}
