/** A histogram's buckets, as observed and as exported. */
module Histograms {
  import opened RankStatistics

  /** Running totals of `counts`. */
  function Cumulative(counts: seq<nat>): seq<nat> {
    if counts == [] then []
    else
      var c := Cumulative(counts[..|counts| - 1]);
      c + [(if c == [] then 0 else c[|c| - 1]) + counts[|counts| - 1]]
  }

  lemma {:induction false} CumulativeAt(counts: seq<nat>, i: nat)
    requires i < |counts|
    ensures |Cumulative(counts)| == |counts|
    ensures Cumulative(counts)[i] == (if i == 0 then 0 else Cumulative(counts)[i - 1]) + counts[i]
    ensures Cumulative(counts)[i] >= counts[i]
    decreases |counts|
  {
    var n := |counts| - 1;
    if n > 0 {
      CumulativeAt(counts[..n], if i < n then i else n - 1);
    }
  }

  lemma CumulativeNext(counts: seq<nat>, i: nat)
    requires i < |counts|
    ensures var c := Cumulative(counts[..i]);
      Cumulative(counts[..i + 1]) == c + [(if c == [] then 0 else c[|c| - 1]) + counts[i]]
  {
    assert counts[..i + 1][..i] == counts[..i];
  }

  /** How many observations each bound covers. */
  function TrueCounts(history: seq<real>, bounds: seq<real>): seq<nat> {
    seq(|bounds|, i requires 0 <= i < |bounds| => CountLE(history, bounds[i]))
  }

  lemma {:induction false} CountSnoc(s: seq<real>, x: real, v: real)
    ensures CountLE(s + [x], v) == CountLE(s, v) + if x <= v then 1 else 0
  {
    if s == [] {
      assert s + [x] == [x] && [x][1..] == [];
    } else {
      assert (s + [x])[1..] == s[1..] + [x];
      CountSnoc(s[1..], x, v);
    }
  }

  lemma {:induction false} CountMonotone(s: seq<real>, u: real, v: real)
    requires u <= v
    ensures CountLE(s, u) <= CountLE(s, v) <= |s|
  {
    if s != [] { CountMonotone(s[1..], u, v); }
  }

  lemma {:induction false} CountZero(s: seq<real>, v: real)
    ensures CountLE(s, v) == 0 <==> forall i :: 0 <= i < |s| ==> s[i] > v
  {
    if s != [] {
      CountZero(s[1..], v);
      assert forall i :: 0 < i < |s| ==> s[i] == s[1..][i - 1];
    }
  }

  class Histogram {
    const keys: seq<real>
    var buckets: map<real, nat>
    var sum: real
    var count: nat
    ghost var history: seq<real>

    /** Each bucket already holds the number of all observations at or below its bound. */
    ghost predicate Valid()
      reads this
    {
      && count == |history|
      && (forall k :: k in keys <==> k in buckets)
      && (forall k :: k in keys ==> buckets[k] == CountLE(history, k))
      && (forall i, j :: 0 <= i < j < |keys| ==> keys[i] != keys[j])
    }

    constructor (bounds: seq<real>)
      requires forall i, j :: 0 <= i < j < |bounds| ==> bounds[i] != bounds[j]
      ensures Valid() && history == [] && keys == bounds
    {
      keys := bounds;
      buckets := map k | k in bounds :: 0;
      sum, count, history := 0.0, 0, [];
    }

    method Observe(value: real)
      requires Valid()
      modifies this
      ensures Valid() && history == old(history) + [value] && sum == old(sum) + value
    {
      sum := sum + value;
      count := count + 1;
      history := history + [value];
      for i := 0 to |keys|
        invariant forall k :: k in keys <==> k in buckets
        invariant forall j :: 0 <= j < |keys| ==> keys[j] in buckets
        invariant forall j :: 0 <= j < |keys| ==>
          buckets[keys[j]] == CountLE(if j < i then history else old(history), keys[j])
        invariant history == old(history) + [value] && count == |history| && sum == old(sum) + value
      {
        var le := keys[i];
        CountSnoc(old(history), value, le);
        if value <= le {
          buckets := buckets[le := buckets[le] + 1];
        }
      }
      forall k | k in keys ensures buckets[k] == CountLE(history, k) {
        var j :| 0 <= j < |keys| && keys[j] == k;
      }
    }

    /** The bucket lines of the text format: sorted bounds, each with the running total so far. */
    method ExportBuckets() returns (bounds: seq<real>, totals: seq<nat>, inf: nat)
      requires Valid()
      ensures bounds == Sort(keys) && totals == Cumulative(TrueCounts(history, bounds)) && inf == |history|
    {
      bounds := Sort(keys);
      SortKeeps(keys);
      totals := [];
      var cumulative := 0;
      ghost var counts := TrueCounts(history, bounds);
      for i := 0 to |bounds|
        invariant totals == Cumulative(counts[..i]) && |totals| == i
        invariant cumulative == if i == 0 then 0 else totals[i - 1]
      {
        assert bounds[i] in multiset(bounds) && bounds[i] in multiset(keys);
        CumulativeNext(counts, i);
        cumulative := cumulative + buckets[bounds[i]];
        totals := totals + [cumulative];
      }
      assert counts[..|bounds|] == counts;
      inf := count;
    }
  }

  lemma {:induction false} AllEarlierZero(history: seq<real>, bounds: seq<real>, i: nat)
    requires i < |bounds| && Sorted(bounds) && CountLE(history, bounds[i]) == 0
    ensures |Cumulative(TrueCounts(history, bounds))| == |bounds| && Cumulative(TrueCounts(history, bounds))[i] == 0
    decreases i
  {
    CumulativeAt(TrueCounts(history, bounds), i);
    if i > 0 {
      CountMonotone(history, bounds[i - 1], bounds[i]);
      AllEarlierZero(history, bounds, i - 1);
    }
  }

  /** The exported line of a bound is documented to be the number of observations at or below it.
      Because the stored buckets already are those numbers, adding them up again is right
      exactly for the first bound, and for a later one only if no observation reaches
      down to the bound before it. */
  lemma ExportedExactly(history: seq<real>, keys: seq<real>, i: nat)
    requires i < |Sort(keys)|
    ensures var bounds := Sort(keys);
      var totals := Cumulative(TrueCounts(history, bounds));
      && |totals| == |bounds|
      && (totals[i] == CountLE(history, bounds[i])
          <==> i == 0 || forall j :: 0 <= j < |history| ==> history[j] > bounds[i - 1])
  {
    var bounds := Sort(keys);
    var counts := TrueCounts(history, bounds);
    CumulativeAt(counts, i);
    if i > 0 {
      CumulativeAt(counts, i - 1);
      CountZero(history, bounds[i - 1]);
      if CountLE(history, bounds[i - 1]) == 0 {
        SortKeeps(keys);
        AllEarlierZero(history, bounds, i - 1);
      }
    }
  }

  /** Two observations below both bounds of a two-bucket histogram export as 4, twice the count. */
  lemma ExportedExceedsCount()
    ensures Cumulative(TrueCounts([1.0, 1.0], [2.0, 3.0])) == [2, 4]
  {
    var h := [1.0, 1.0];
    assert h[1..] == [1.0] && h[1..][1..] == [];
    assert CountLE(h[1..], 2.0) == 1 && CountLE(h[1..], 3.0) == 1;
    var c := TrueCounts(h, [2.0, 3.0]);
    assert c == [2, 2] && c[..1] == [2] && c[..1][..0] == [];
    assert Cumulative(c[..1]) == [2];
  }
}
