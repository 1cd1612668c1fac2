/**
  Python's `sorted` and `list.sort` with a key: ascending and stable.  A key is a pair of
  integers compared lexicographically.  The three lemmas `Ascending`, `Permutes` and `Stable`
  together determine the result, so nothing else depends on how `Sort` is computed.
 */
module StableSort {
  type Rank = (int, int)

  predicate Before(a: Rank, b: Rank) {
    a.0 < b.0 || (a.0 == b.0 && a.1 < b.1)
  }

  function Sort<T>(xs: seq<T>, key: T -> Rank): (ys: seq<T>) {
    if xs == [] then [] else Insert(xs[0], Sort(xs[1..], key), key)
  }

  function Insert<T>(x: T, ys: seq<T>, key: T -> Rank): (zs: seq<T>) {
    if ys == [] || !Before(key(ys[0]), key(x)) then [x] + ys
    else [ys[0]] + Insert(x, ys[1..], key)
  }

  ghost predicate Sorted<T>(xs: seq<T>, key: T -> Rank) {
    forall i, j :: 0 <= i < j < |xs| ==> !Before(key(xs[j]), key(xs[i]))
  }

  /** The elements of `xs` of one rank, in their order in `xs`. */
  function OfRank<T>(xs: seq<T>, key: T -> Rank, rank: Rank): (ys: seq<T>) {
    if xs == [] then []
    else (if key(xs[0]) == rank then [xs[0]] else []) + OfRank(xs[1..], key, rank)
  }

  lemma {:induction false} InsertPermutes<T>(x: T, ys: seq<T>, key: T -> Rank)
    ensures multiset(Insert(x, ys, key)) == multiset(ys) + multiset{x}
  {
    if ys == [] || !Before(key(ys[0]), key(x)) {
      assert multiset([x] + ys) == multiset([x]) + multiset(ys);
    } else {
      InsertPermutes(x, ys[1..], key);
      assert ys == [ys[0]] + ys[1..];
    }
  }

  lemma {:induction false} Permutes<T>(xs: seq<T>, key: T -> Rank)
    ensures multiset(Sort(xs, key)) == multiset(xs)
    ensures |Sort(xs, key)| == |xs|
    ensures forall x :: x in Sort(xs, key) <==> x in xs
  {
    if xs != [] {
      Permutes(xs[1..], key);
      InsertPermutes(xs[0], Sort(xs[1..], key), key);
      assert xs == [xs[0]] + xs[1..];
    }
    SameMembers(Sort(xs, key), xs);
  }

  lemma SameMembers<T>(a: seq<T>, b: seq<T>)
    requires multiset(a) == multiset(b)
    ensures |a| == |b|
    ensures forall x :: x in a <==> x in b
  {
    assert |multiset(a)| == |multiset(b)|;
    forall x ensures x in a <==> x in b {
      assert x in multiset(a) <==> x in multiset(b);
    }
  }

  lemma {:induction false} InsertAscending<T>(x: T, ys: seq<T>, key: T -> Rank)
    requires Sorted(ys, key)
    ensures Sorted(Insert(x, ys, key), key)
  {
    if ys != [] && Before(key(ys[0]), key(x)) {
      InsertAscending(x, ys[1..], key);
      InsertPermutes(x, ys[1..], key);
      var zs := Insert(x, ys[1..], key);
      forall j | 0 <= j < |zs| ensures !Before(key(zs[j]), key(ys[0])) {
        assert zs[j] in multiset(zs);
        assert zs[j] in multiset(ys[1..]) || zs[j] == x;
      }
    }
  }

  lemma {:induction false} Ascending<T>(xs: seq<T>, key: T -> Rank)
    ensures Sorted(Sort(xs, key), key)
  {
    if xs != [] {
      Ascending(xs[1..], key);
      InsertAscending(xs[0], Sort(xs[1..], key), key);
    }
  }

  lemma {:induction false} InsertStable<T>(x: T, ys: seq<T>, key: T -> Rank, rank: Rank)
    ensures OfRank(Insert(x, ys, key), key, rank) == OfRank([x] + ys, key, rank)
  {
    assert ([x] + ys)[1..] == ys;
    if ys != [] && Before(key(ys[0]), key(x)) {
      InsertStable(x, ys[1..], key, rank);
      var zs := [ys[0]] + Insert(x, ys[1..], key);
      assert zs[1..] == Insert(x, ys[1..], key);
      assert ([x] + ys[1..])[1..] == ys[1..];
    }
  }

  lemma {:induction false} Stable<T>(xs: seq<T>, key: T -> Rank, rank: Rank)
    ensures OfRank(Sort(xs, key), key, rank) == OfRank(xs, key, rank)
  {
    if xs != [] {
      Stable(xs[1..], key, rank);
      InsertStable(xs[0], Sort(xs[1..], key), key, rank);
      assert ([xs[0]] + Sort(xs[1..], key))[1..] == Sort(xs[1..], key);
    }
  }

  /** The first element after sorting is the earliest one of least rank. */
  lemma {:induction false} FirstIsEarliestLeast<T>(xs: seq<T>, key: T -> Rank) returns (i: nat)
    requires xs != []
    ensures i < |xs| && Sort(xs, key) != [] && xs[i] == Sort(xs, key)[0]
    ensures forall j :: 0 <= j < |xs| ==> !Before(key(xs[j]), key(xs[i]))
    ensures forall j :: 0 <= j < i ==> Before(key(xs[i]), key(xs[j]))
  {
    if |xs| == 1 {
      i := 0;
    } else {
      var k := FirstIsEarliestLeast(xs[1..], key);
      assert Sort(xs, key) == Insert(xs[0], Sort(xs[1..], key), key);
      assert xs[1..][k] == xs[k + 1];
      assert forall j :: 1 <= j < |xs| ==> xs[j] == xs[1..][j - 1];
      i := if Before(key(xs[k + 1]), key(xs[0])) then k + 1 else 0;
    }
  }
}
