/**
 * Descending orders over a key, as SQL's `ORDER BY key DESC LIMIT k` produces them.
 * SQL leaves the order of rows with equal keys unspecified; the sort below picks one
 * such order, and every contract speaks only of sortedness and membership.
 */
module Ordering {

  function Min(a: int, b: int): int { if a <= b then a else b }

  /** `s` is ordered by non-increasing `key`. */
  ghost predicate SortedDesc<T>(s: seq<T>, key: T -> real) {
    forall i, j :: 0 <= i < j < |s| ==> key(s[i]) >= key(s[j])
  }

  /** Inserts `x` into a sorted sequence before the first element whose key it reaches. */
  function InsertDesc<T>(x: T, s: seq<T>, key: T -> real): (r: seq<T>)
    requires SortedDesc(s, key)
    ensures SortedDesc(r, key)
    ensures multiset(r) == multiset(s) + multiset{x}
  {
    if s == [] then [x]
    else if key(x) >= key(s[0]) then
      SortedCons(x, s, key);
      [x] + s
    else
      var rest := InsertDesc(x, s[1..], key);
      assert s == [s[0]] + s[1..];
      HeadDominates(x, s, rest, key);
      SortedCons(s[0], rest, key);
      [s[0]] + rest
  }

  /** A head that reaches every key of a sorted tail keeps the sequence sorted. */
  lemma SortedCons<T>(h: T, s: seq<T>, key: T -> real)
    requires SortedDesc(s, key)
    requires forall k :: 0 <= k < |s| ==> key(h) >= key(s[k])
    ensures SortedDesc([h] + s, key)
  {
    var r := [h] + s;
    forall i, j | 0 <= i < j < |r| ensures key(r[i]) >= key(r[j]) {
      assert r[j] == s[j - 1];
      if i > 0 {
        assert r[i] == s[i - 1];
      }
    }
  }

  /** The head of a sorted sequence reaches every key of its tail with a smaller `x` inserted. */
  lemma HeadDominates<T>(x: T, s: seq<T>, rest: seq<T>, key: T -> real)
    requires SortedDesc(s, key) && s != [] && key(x) < key(s[0])
    requires multiset(rest) == multiset(s[1..]) + multiset{x}
    ensures forall k :: 0 <= k < |rest| ==> key(s[0]) >= key(rest[k])
  {
    forall k | 0 <= k < |rest| ensures key(s[0]) >= key(rest[k]) {
      var y := rest[k];
      assert y in multiset(rest);
      if y != x {
        assert y in multiset(s[1..]);
        var m :| 0 <= m < |s[1..]| && s[1..][m] == y;
        assert s[m + 1] == y;
      }
    }
  }

  /** Sorts by non-increasing `key`: the result is a permutation of `s`. */
  function SortDesc<T>(s: seq<T>, key: T -> real): (r: seq<T>)
    ensures SortedDesc(r, key)
    ensures multiset(r) == multiset(s)
    ensures |r| == |s|
  {
    if s == [] then []
    else
      assert s == [s[0]] + s[1..];
      InsertDesc(s[0], SortDesc(s[1..], key), key)
  }

  /** In a sorted sequence every element past position `m` is no greater than any before it. */
  lemma {:induction false} PrefixDominates<T>(s: seq<T>, key: T -> real, m: nat)
    requires SortedDesc(s, key) && m <= |s|
    ensures multiset(s[..m]) + multiset(s[m..]) == multiset(s)
    ensures forall x :: x in multiset(s[m..]) ==> forall i :: 0 <= i < m ==> key(x) <= key(s[i])
  {
    assert s == s[..m] + s[m..];
    forall x | x in multiset(s[m..]) ensures forall i :: 0 <= i < m ==> key(x) <= key(s[i]) {
      assert x in s[m..];
      var j :| 0 <= j < |s[m..]| && s[m..][j] == x;
      assert s[m + j] == x;
    }
  }

  /**
   * The first `k` elements in non-increasing key order: `ORDER BY key DESC LIMIT k`.
   * Every element that was left out ranks no higher than any element returned.
   */
  function TopK<T>(s: seq<T>, key: T -> real, k: nat): (r: seq<T>)
    ensures |r| == Min(k, |s|)
    ensures SortedDesc(r, key)
    ensures multiset(r) <= multiset(s)
    ensures forall x :: x in multiset(s) - multiset(r) ==>
              forall i :: 0 <= i < |r| ==> key(x) <= key(r[i])
  {
    var sorted := SortDesc(s, key);
    var m := Min(k, |s|);
    PrefixDominates(sorted, key, m);
    assert forall x :: x in multiset(s) - multiset(sorted[..m]) ==> x in multiset(sorted[m..]);
    sorted[..m]
  }

  /** Elements of a sub-multiset come from the whole; those missing from it are what the difference holds. */
  lemma SubMultisetMembers<T>(r: seq<T>, s: seq<T>)
    requires multiset(r) <= multiset(s)
    ensures forall x :: x in r ==> x in s
    ensures forall x :: x in s && x !in r ==> x in multiset(s) - multiset(r)
  {
    assert forall x :: x in r ==> x in multiset(r);
  }

  /** Applies `f` to every element: the column projection of a SELECT list. */
  function MapSeq<T, U>(s: seq<T>, f: T -> U): (r: seq<U>)
    ensures |r| == |s|
  {
    seq(|s|, i requires 0 <= i < |s| => f(s[i]))
  }

  /** Projecting rows that are drawn from a table gives rows drawn from the projected table. */
  lemma {:induction false} MapKeepsSubMultiset<T, U>(a: seq<T>, b: seq<T>, f: T -> U)
    requires multiset(a) <= multiset(b)
    ensures multiset(MapSeq(a, f)) <= multiset(MapSeq(b, f))
    decreases |a|
  {
    if a != [] {
      var j := MatchFirst(a, b);
      var rest := b[..j] + b[j + 1..];
      MapKeepsSubMultiset(a[1..], rest, f);
      MapRemoveAt(a, 0, f);
      assert a[..0] + a[1..] == a[1..];
      MapRemoveAt(b, j, f);
      SubMultisetPlus(multiset(MapSeq(a[1..], f)), multiset(MapSeq(rest, f)), multiset{f(a[0])});
    }
  }

  /** The first element of a sub-multiset sits at some `j` of the whole; the rests still nest. */
  lemma MatchFirst<T>(a: seq<T>, b: seq<T>) returns (j: nat)
    requires a != [] && multiset(a) <= multiset(b)
    ensures j < |b| && b[j] == a[0]
    ensures multiset(a[1..]) <= multiset(b[..j] + b[j + 1..])
  {
    SubMultisetMembers(a, b);
    assert a[0] in a;
    j :| 0 <= j < |b| && b[j] == a[0];
    assert a[..0] + a[1..] == a[1..];
    RemoveAt(a, 0);
    RemoveAt(b, j);
    SubMultisetMinus(multiset{a[0]}, multiset(a[1..]), multiset(b[..j] + b[j + 1..]));
  }

  /** Removing the element at `j` before mapping removes one occurrence of its image. */
  lemma MapRemoveAt<T, U>(b: seq<T>, j: nat, f: T -> U)
    requires j < |b|
    ensures multiset(MapSeq(b, f)) == multiset(MapSeq(b[..j] + b[j + 1..], f)) + multiset{f(b[j])}
  {
    MapSeqAppend(b[..j], [b[j]] + b[j + 1..], f);
    MapSeqAppend([b[j]], b[j + 1..], f);
    MapSeqAppend(b[..j], b[j + 1..], f);
    assert b[..j] + ([b[j]] + b[j + 1..]) == b;
  }

  /** Mapping distributes over concatenation. */
  lemma MapSeqAppend<T, U>(a: seq<T>, b: seq<T>, f: T -> U)
    ensures MapSeq(a + b, f) == MapSeq(a, f) + MapSeq(b, f)
  {
    assert forall i :: 0 <= i < |a + b| ==> MapSeq(a + b, f)[i] == (MapSeq(a, f) + MapSeq(b, f))[i];
  }

  /** Removing the element at `j` removes one occurrence of it. */
  lemma RemoveAt<T>(b: seq<T>, j: nat)
    requires j < |b|
    ensures multiset(b) == multiset(b[..j] + b[j + 1..]) + multiset{b[j]}
  {
    assert b == b[..j] + [b[j]] + b[j + 1..];
  }

  /** Adding the same part to both sides keeps an inclusion. */
  lemma SubMultisetPlus<T>(a: multiset<T>, b: multiset<T>, x: multiset<T>)
    requires a <= b
    ensures a + x <= b + x
  {
  }

  /** Cancelling a common part of two multisets keeps their inclusion. */
  lemma SubMultisetMinus<T>(x: multiset<T>, a: multiset<T>, b: multiset<T>)
    requires x + a <= b + x
    ensures a <= b
  {
    forall y ensures a[y] <= b[y] {
      assert (x + a)[y] == x[y] + a[y];
      assert (b + x)[y] == b[y] + x[y];
    }
  }
}
