/** Sorting and nearest-rank percentiles of a list of samples. */
module RankStatistics {
  import SeqFacts

  function CountLE(s: seq<real>, v: real): nat {
    if s == [] then 0 else (if s[0] <= v then 1 else 0) + CountLE(s[1..], v)
  }

  function CountLT(s: seq<real>, v: real): nat {
    if s == [] then 0 else (if s[0] < v then 1 else 0) + CountLT(s[1..], v)
  }

  predicate Sorted(s: seq<real>) {
    forall i, j :: 0 <= i < j < |s| ==> s[i] <= s[j]
  }

  function Insert(x: real, s: seq<real>): (r: seq<real>)
    ensures |r| == |s| + 1
  {
    if s == [] || x <= s[0] then [x] + s else [s[0]] + Insert(x, s[1..])
  }

  /** `sort((a, x) => a - x)`. */
  function Sort(s: seq<real>): (r: seq<real>)
    ensures |r| == |s|
  {
    if s == [] then [] else Insert(s[0], Sort(s[1..]))
  }

  lemma {:induction false} InsertCounts(x: real, s: seq<real>, v: real)
    ensures CountLE(Insert(x, s), v) == CountLE(s, v) + (if x <= v then 1 else 0)
    ensures CountLT(Insert(x, s), v) == CountLT(s, v) + (if x < v then 1 else 0)
  {
    if s == [] || x <= s[0] {
      assert ([x] + s)[1..] == s;
    } else {
      InsertCounts(x, s[1..], v);
      assert ([s[0]] + Insert(x, s[1..]))[1..] == Insert(x, s[1..]);
    }
  }

  lemma SortedCons(x: real, s: seq<real>)
    requires Sorted(s) && forall y :: y in s ==> x <= y
    ensures Sorted([x] + s)
  {
    assert forall i :: 0 <= i < |s| ==> s[i] in s;
  }

  lemma {:induction false} InsertMultiset(x: real, s: seq<real>)
    ensures multiset(Insert(x, s)) == multiset(s) + multiset{x}
  {
    if s == [] || x <= s[0] {
      assert multiset([x] + s) == multiset{x} + multiset(s);
    } else {
      InsertMultiset(x, s[1..]);
      SeqFacts.Cons(s);
      assert multiset([s[0]] + Insert(x, s[1..])) == multiset{s[0]} + multiset(Insert(x, s[1..]));
      assert multiset([s[0]] + s[1..]) == multiset{s[0]} + multiset(s[1..]);
    }
  }

  lemma {:induction false} InsertSorted(x: real, s: seq<real>)
    requires Sorted(s)
    ensures Sorted(Insert(x, s))
  {
    if s == [] || x <= s[0] {
      assert forall y :: y in s ==> s[0] <= y;
      SortedCons(x, s);
    } else {
      var t := Insert(x, s[1..]);
      InsertSorted(x, s[1..]);
      InsertMultiset(x, s[1..]);
      forall y | y in t ensures s[0] <= y {
        assert y in multiset(t);
        assert y == x || y in s[1..];
      }
      SortedCons(s[0], t);
    }
  }

  /** Sorting permutes and orders. */
  lemma {:induction false} SortKeeps(s: seq<real>)
    ensures multiset(Sort(s)) == multiset(s) && Sorted(Sort(s))
  {
    if s != [] {
      SortKeeps(s[1..]);
      InsertSorted(s[0], Sort(s[1..]));
      InsertMultiset(s[0], Sort(s[1..]));
      assert s == [s[0]] + s[1..];
    }
  }

  /** Sorting changes no rank. */
  lemma {:induction false} SortCounts(s: seq<real>, v: real)
    ensures CountLE(Sort(s), v) == CountLE(s, v) && CountLT(Sort(s), v) == CountLT(s, v)
  {
    if s != [] {
      SortCounts(s[1..], v);
      InsertCounts(s[0], Sort(s[1..]), v);
    }
  }

  function Ceil(x: real): int { -((-x).Floor) }

  function Clamp01(p: real): real { if p < 0.0 then 0.0 else if p > 1.0 then 1.0 else p }

  /** The rank a percentile asks for, at least 1. */
  function Rank(p: real, n: nat): int {
    var r := Ceil(Clamp01(p) * n as real);
    if r < 1 then 1 else r
  }

  lemma ScaleMonotone(a: real, b: real, n: nat)
    requires a <= b
    ensures a * n as real <= b * n as real
  {
    var m := n as real;
    assert (b - a) * m >= 0.0;
    assert (b - a) * m == b * m - a * m;
  }

  lemma RankInRange(p: real, n: nat)
    requires n > 0
    ensures 1 <= Rank(p, n) <= n
  {
    ScaleMonotone(Clamp01(p), 1.0, n);
  }

  lemma CeilMonotone(x: real, y: real)
    requires x <= y
    ensures Ceil(x) <= Ceil(y)
  {}

  lemma RankMonotone(p: real, q: real, n: nat)
    requires p <= q
    ensures Rank(p, n) <= Rank(q, n)
  {
    ScaleMonotone(Clamp01(p), Clamp01(q), n);
    CeilMonotone(Clamp01(p) * n as real, Clamp01(q) * n as real);
  }

  /** The index is the rank less one, floored at 0. */
  function Index(p: real, n: nat): (i: nat)
    requires n > 0
    ensures i < n && i == Rank(p, n) - 1
  {
    RankInRange(p, n);
    var raw := Ceil(Clamp01(p) * n as real) - 1;
    if raw < 0 then 0 else raw
  }

  function Percentile(sortedAscending: seq<real>, p: real): real {
    if sortedAscending == [] then 0.0 else sortedAscending[Index(p, |sortedAscending|)]
  }

  lemma {:induction false} NoneBelow(s: seq<real>, v: real)
    requires forall i :: 0 <= i < |s| ==> v <= s[i]
    ensures CountLT(s, v) == 0
  {
    if s != [] { NoneBelow(s[1..], v); }
  }

  lemma {:induction false} SortedCounts(s: seq<real>, k: nat)
    requires Sorted(s) && k < |s|
    ensures CountLE(s, s[k]) >= k + 1 && CountLT(s, s[k]) <= k
  {
    if k > 0 {
      SortedCounts(s[1..], k - 1);
      assert s[1..][k - 1] == s[k];
    } else {
      NoneBelow(s, s[0]);
    }
  }

  /** `v` is a sample with at least `k` samples at or below it and fewer than `k` strictly below. */
  ghost predicate HasRank(w: seq<real>, k: int, v: real) {
    v in w && CountLE(w, v) >= k && CountLT(w, v) < k
  }

  /** `v` is the nearest-rank percentile of the unsorted window `w`. */
  ghost predicate NearestRank(w: seq<real>, p: real, v: real) {
    HasRank(w, Rank(p, |w|), v)
  }

  lemma SortedHasRank(w: seq<real>, k: nat)
    requires k < |w|
    ensures HasRank(w, k + 1, Sort(w)[k])
  {
    var s := Sort(w);
    SortKeeps(w);
    SortedCounts(s, k);
    SortCounts(w, s[k]);
    assert s[k] in multiset(s) && s[k] in multiset(w);
  }

  /** Main result: the percentile of a non-empty window is one of its samples, with at least the asked-for
      number of samples at or below it and fewer than that strictly below it. */
  lemma PercentileIsNearestRank(w: seq<real>, p: real)
    requires w != []
    ensures NearestRank(w, p, Percentile(Sort(w), p))
  {
    SortedHasRank(w, Index(p, |w|));
  }

  lemma {:induction false} LEBelowLT(w: seq<real>, v: real, u: real)
    requires v < u
    ensures CountLE(w, v) <= CountLT(w, u)
  {
    if w != [] { LEBelowLT(w[1..], v, u); }
  }

  /** The rank condition leaves only one value. */
  lemma NearestRankUnique(w: seq<real>, p: real, v: real, u: real)
    requires NearestRank(w, p, v) && NearestRank(w, p, u)
    ensures v == u
  {
    if v < u { LEBelowLT(w, v, u); }
    if u < v { LEBelowLT(w, u, v); }
  }

  lemma SortedOrder(s: seq<real>, i: nat, j: nat)
    requires Sorted(s) && i <= j < |s|
    ensures s[i] <= s[j] <= s[|s| - 1]
  {}

  /** Percentiles grow with p and never exceed the largest sample. */
  lemma PercentilesOrdered(w: seq<real>, p: real, q: real)
    requires w != [] && p <= q
    ensures Percentile(Sort(w), p) <= Percentile(Sort(w), q) <= Sort(w)[|w| - 1]
  {
    SortKeeps(w);
    RankMonotone(p, q, |w|);
    SortedOrder(Sort(w), Index(p, |w|), Index(q, |w|));
  }

  lemma LastIsMaximum(w: seq<real>)
    requires w != []
    ensures Sort(w)[|w| - 1] in w && forall x :: x in w ==> x <= Sort(w)[|w| - 1]
  {
    var s := Sort(w);
    SortKeeps(w);
    assert s[|w| - 1] in multiset(s);
    assert s[|w| - 1] in multiset(w);
    forall x | x in w ensures x <= s[|w| - 1] {
      assert x in multiset(w) && x in multiset(s);
      var i :| 0 <= i < |s| && s[i] == x;
    }
  }

  lemma RankIsShare(p: real, n: nat)
    requires 0.0 <= p <= 1.0
    ensures Rank(p, n) >= 1 && Rank(p, n) as real >= p * n as real
    ensures Rank(p, n) == 1 || (Rank(p, n) - 1) as real < p * n as real
  {}

  lemma RankEnds(p: real, n: nat)
    requires n > 0
    ensures p <= 0.0 ==> Rank(p, n) == 1
    ensures p >= 1.0 ==> Rank(p, n) == n
  {
    assert p <= 0.0 ==> Clamp01(p) == 0.0;
    assert p >= 1.0 ==> Clamp01(p) == 1.0;
  }

  /** At least `asked` samples, and at least one, are at or below `v`, and fewer than that, or none, strictly below. */
  ghost predicate HasShare(w: seq<real>, asked: real, v: real) {
    && v in w && CountLE(w, v) as real >= asked && CountLE(w, v) >= 1
    && (CountLT(w, v) as real < asked || CountLT(w, v) == 0)
  }

  lemma RankGivesShare(w: seq<real>, k: int, asked: real, v: real)
    requires HasRank(w, k, v) && k >= 1 && k as real >= asked && (k == 1 || (k - 1) as real < asked)
    ensures HasShare(w, asked, v)
  {}

  /** The rank condition in terms of `p` alone: a percentile has the share `p` of the samples. */
  lemma NearestRankShare(w: seq<real>, p: real, v: real)
    requires 0.0 <= p <= 1.0 && NearestRank(w, p, v)
    ensures HasShare(w, p * |w| as real, v)
  {
    RankIsShare(p, |w|);
    RankGivesShare(w, Rank(p, |w|), p * |w| as real, v);
  }

  /** Shares below 0 and above 1 count as 0 and 1: the smallest and the largest sample. */
  lemma PercentileEnds(w: seq<real>, p: real)
    requires w != []
    ensures p <= 0.0 ==> Percentile(Sort(w), p) == Sort(w)[0]
    ensures p >= 1.0 ==> Percentile(Sort(w), p) == Sort(w)[|w| - 1]
  {
    RankEnds(p, |w|);
    assert Percentile(Sort(w), p) == Sort(w)[Index(p, |w|)];
  }
}
