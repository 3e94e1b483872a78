/** The per-key latency bucket: a circular window with a running sum, and its snapshot. */
module TelemetryRollup {
  import opened Basics
  import opened RankStatistics

  const CAP := 1024

  datatype Event = Event(ok: bool, elapsedMs: real, rssMb: Option<real>, now: int)

  function Successes(history: seq<Event>): seq<real> {
    if history == [] then []
    else
      var e := history[|history| - 1];
      Successes(history[..|history| - 1]) + if e.ok then [e.elapsedMs] else []
  }

  function RssSamples(history: seq<Event>): seq<real> {
    if history == [] then []
    else
      var e := history[|history| - 1];
      RssSamples(history[..|history| - 1]) + if e.ok && e.rssMb.Some? then [e.rssMb.value] else []
  }

  function Errors(history: seq<Event>): nat {
    if history == [] then 0
    else Errors(history[..|history| - 1]) + if history[|history| - 1].ok then 0 else 1
  }

  /** The last `CAP` elements. */
  function Recent(s: seq<real>): seq<real> {
    if |s| <= CAP then s else s[|s| - CAP..]
  }

  function Sum(s: seq<real>): real {
    if s == [] then 0.0 else Sum(s[..|s| - 1]) + s[|s| - 1]
  }

  lemma {:induction false} SumCons(x: real, s: seq<real>)
    ensures Sum([x] + s) == x + Sum(s)
    decreases |s|
  {
    if s == [] {
      assert [x] + s == [x] && [x][..0] == [];
    } else {
      var n := |s| - 1;
      assert ([x] + s)[..n + 1] == [x] + s[..n] && ([x] + s)[n + 1] == s[n];
      SumCons(x, s[..n]);
    }
  }

  lemma SumOfOne(x: real)
    ensures Sum([]) == 0.0 && Sum([x]) == x
  {
    SumCons(x, []);
    assert [x] + [] == [x];
  }

  /** The window is the last 1024 samples, or all of them. */
  lemma WindowSize(s: seq<real>)
    ensures |Recent(s)| == Min(|s|, 1024) && Recent(s) == s[|s| - |Recent(s)|..]
  {}

  lemma SumSnoc(s: seq<real>, x: real)
    ensures Sum(s + [x]) == Sum(s) + x
  {
    assert (s + [x])[..|s|] == s;
  }

  /** The circular buffer read from `start`. */
  function Ring(a: seq<real>, start: nat, size: nat): seq<real>
    requires |a| == CAP && start < CAP && size <= CAP
  {
    seq(size, i requires 0 <= i < size => a[(start + i) % CAP])
  }

  lemma RingGrows(a: seq<real>, start: nat, size: nat, x: real)
    requires |a| == CAP && start < CAP && size < CAP
    ensures Ring(a[(start + size) % CAP := x], start, size + 1) == Ring(a, start, size) + [x]
  {
    var a' := a[(start + size) % CAP := x];
    var r, r' := Ring(a, start, size), Ring(a', start, size + 1);
    forall i | 0 <= i < size ensures r'[i] == r[i] {
      assert (start + i) % CAP != (start + size) % CAP;
    }
  }

  lemma RingTurns(a: seq<real>, start: nat, x: real)
    requires |a| == CAP && start < CAP
    ensures Ring(a, start, CAP)[0] == a[start]
    ensures Ring(a[start := x], (start + 1) % CAP, CAP) == Ring(a, start, CAP)[1..] + [x]
  {
    var r, r' := Ring(a, start, CAP), Ring(a[start := x], (start + 1) % CAP, CAP);
    forall i | 0 <= i < CAP - 1 ensures r'[i] == r[i + 1] {
      assert ((start + 1) % CAP + i) % CAP == (start + (i + 1)) % CAP != start;
    }
    assert ((start + 1) % CAP + (CAP - 1)) % CAP == start;
    assert r'[CAP - 1] == x;
  }

  lemma RecentSnoc(s: seq<real>, x: real)
    ensures Recent(s + [x]) == if |s| < CAP then Recent(s) + [x] else Recent(s)[1..] + [x]
  {}

  lemma HistoryGrows(h: seq<Event>, e: Event)
    ensures Successes(h + [e]) == if e.ok then Successes(h) + [e.elapsedMs] else Successes(h)
    ensures RssSamples(h + [e]) == if e.ok && e.rssMb.Some? then RssSamples(h) + [e.rssMb.value] else RssSamples(h)
    ensures Errors(h + [e]) == Errors(h) + if e.ok then 0 else 1
  {
    assert (h + [e])[..|h|] == h;
  }

  /** One write into a ring buffer: append while there is room, else replace the oldest. */
  function Pushed(a: seq<real>, start: nat, size: nat, x: real): (r: (seq<real>, nat, nat))
    requires |a| == CAP && start < CAP && size <= CAP
    ensures |r.0| == CAP && r.1 < CAP && r.2 <= CAP
  {
    if size < CAP then (a[(start + size) % CAP := x], start, size + 1)
    else (a[start := x], (start + 1) % CAP, size)
  }

  /** A write keeps "the ring is the recent window", and changes the window's sum by the sample,
      less the evicted one if the ring is full. */
  lemma PushMovesWindow(a: seq<real>, start: nat, size: nat, before: seq<real>, x: real)
    requires |a| == CAP && start < CAP && size <= CAP
    requires Ring(a, start, size) == Recent(before)
    ensures var (a', start', size') := Pushed(a, start, size, x);
      Ring(a', start', size') == Recent(before + [x])
    ensures Sum(Recent(before + [x])) == Sum(Recent(before)) + if size < CAP then x else x - a[start]
  {
    var w := Recent(before);
    RecentSnoc(before, x);
    assert |w| == size;
    if size < CAP {
      RingGrows(a, start, size, x);
      SumSnoc(w, x);
    } else {
      RingTurns(a, start, x);
      assert w == [w[0]] + w[1..];
      SumCons(w[0], w[1..]);
      SumSnoc(w[1..], x);
    }
  }

  datatype Rollup = Rollup(count: nat, errorCount: nat, errorRate: real, meanMs: real, p50: real, p95: real, p99: real,
                           lastUpdated: int, p50Rss: real, p95Rss: real, maxRss: real)

  function ErrorRate(errors: nat, count: nat): (r: real)
    requires errors <= count
    ensures 0.0 <= r <= 1.0 && r * count as real == errors as real && (count == 0 ==> r == 0.0)
  {
    if count == 0 then 0.0
    else
      var r := errors as real / count as real;
      assert r * count as real == errors as real;
      r
  }

  /** The latency figures of a snapshot, against the window itself. */
  ghost predicate LatencyExact(w: seq<real>, r: Rollup) {
    if w == [] then r.p50 == r.p95 == r.p99 == r.meanMs == 0.0
    else
      && NearestRank(w, 0.5, r.p50) && NearestRank(w, 0.95, r.p95) && NearestRank(w, 0.99, r.p99)
      && r.p50 <= r.p95 <= r.p99
      && -0.005 <= r.meanMs - Sum(w) / |w| as real <= 0.005
  }

  ghost predicate RssExact(w: seq<real>, r: Rollup) {
    if w == [] then r.p50Rss == r.p95Rss == r.maxRss == 0.0
    else
      && NearestRank(w, 0.5, r.p50Rss) && NearestRank(w, 0.95, r.p95Rss)
      && r.p50Rss <= r.p95Rss <= r.maxRss && r.maxRss in w && forall x :: x in w ==> x <= r.maxRss
  }

  lemma LatencyIsExact(w: seq<real>, mean: real, r: Rollup)
    requires mean == if w == [] then 0.0 else Sum(w) / |w| as real
    requires r.meanMs == (mean * 100.0 + 0.5).Floor as real / 100.0
    requires r.p50 == Percentile(Sort(w), 0.5) && r.p95 == Percentile(Sort(w), 0.95) && r.p99 == Percentile(Sort(w), 0.99)
    ensures LatencyExact(w, r)
  {
    if w != [] {
      PercentileIsNearestRank(w, 0.5);
      PercentileIsNearestRank(w, 0.95);
      PercentileIsNearestRank(w, 0.99);
      PercentilesOrdered(w, 0.5, 0.95);
      PercentilesOrdered(w, 0.95, 0.99);
    }
  }

  lemma RssIsExact(w: seq<real>, r: Rollup)
    requires r.p50Rss == Percentile(Sort(w), 0.5) && r.p95Rss == Percentile(Sort(w), 0.95)
    requires r.maxRss == if w == [] then 0.0 else Sort(w)[|w| - 1]
    ensures RssExact(w, r)
  {
    if w != [] {
      PercentileIsNearestRank(w, 0.5);
      PercentileIsNearestRank(w, 0.95);
      PercentilesOrdered(w, 0.5, 0.95);
      LastIsMaximum(w);
    }
  }

  class Bucket {
    var samples: array<real>
    var start: nat
    var size: nat
    var count: nat
    var errorCount: nat
    var sum: real
    var lastUpdated: int
    var rssSamples: array<real>
    var rssStart: nat
    var rssSize: nat
    ghost var history: seq<Event>

    /** The ring holds the recent part of `all`, and `sum` is its sum. */
    ghost predicate WindowOf(all: seq<real>)
      reads `samples, `start, `size, `sum, samples
    {
      && samples.Length == CAP && start < CAP && size <= CAP
      && Ring(samples[..], start, size) == Recent(all) && sum == Sum(Recent(all))
    }

    ghost predicate RssWindowOf(all: seq<real>)
      reads `rssSamples, `rssStart, `rssSize, rssSamples
    {
      && rssSamples.Length == CAP && rssStart < CAP && rssSize <= CAP
      && Ring(rssSamples[..], rssStart, rssSize) == Recent(all)
    }

    ghost predicate CountsOf(h: seq<Event>)
      reads `errorCount, `count, `lastUpdated
    {
      && errorCount == Errors(h)
      && count == errorCount + |Successes(h)| == |h|
      && (h != [] ==> lastUpdated == h[|h| - 1].now)
    }

    /** The windows, the counters and the running sum are what the whole history prescribes. */
    ghost predicate Valid()
      reads this, samples, rssSamples
    {
      samples != rssSamples && WindowOf(Successes(history)) && RssWindowOf(RssSamples(history)) && CountsOf(history)
    }

    constructor ()
      ensures Valid() && history == [] && fresh(samples) && fresh(rssSamples)
    {
      samples := new real[CAP];
      start, size, count, errorCount, sum, lastUpdated := 0, 0, 0, 0, 0.0, 0;
      rssSamples := new real[CAP];
      rssStart, rssSize := 0, 0;
      history := [];
    }

    method Accumulate(e: Event)
      requires Valid()
      modifies this, samples, rssSamples
      ensures Valid() && history == old(history) + [e]
      ensures samples == old(samples) && rssSamples == old(rssSamples)
    {
      ghost var before, rssBefore := Successes(history), RssSamples(history);
      CountEvent(e);
      if e.ok {
        PushSuccess(e, before, rssBefore);
      }
    }

    method PushSuccess(e: Event, ghost before: seq<real>, ghost rssBefore: seq<real>)
      requires WindowOf(before) && RssWindowOf(rssBefore) && samples != rssSamples
      modifies `start, `size, `sum, samples, `rssStart, `rssSize, rssSamples
      ensures WindowOf(before + [e.elapsedMs])
      ensures RssWindowOf(if e.rssMb.Some? then rssBefore + [e.rssMb.value] else rssBefore)
    {
      PushSample(e.elapsedMs, before);
      if e.rssMb.Some? {
        PushRss(e.rssMb.value, rssBefore);
      }
    }

    /** The part common to failures and successes. */
    method CountEvent(e: Event)
      requires CountsOf(history)
      modifies `history, `count, `errorCount, `lastUpdated
      ensures history == old(history) + [e] && CountsOf(history)
      ensures Successes(history) == if e.ok then Successes(old(history)) + [e.elapsedMs] else Successes(old(history))
      ensures RssSamples(history) ==
              if e.ok && e.rssMb.Some? then RssSamples(old(history)) + [e.rssMb.value] else RssSamples(old(history))
    {
      HistoryGrows(history, e);
      history := history + [e];
      count := count + 1;
      lastUpdated := e.now;
      if !e.ok {
        errorCount := errorCount + 1;
      }
    }

    /** The latency half: fill while there is room, else evict the oldest. */
    method PushSample(ms: real, ghost before: seq<real>)
      requires WindowOf(before) && samples != rssSamples
      modifies this`start, this`size, this`sum, samples
      ensures WindowOf(before + [ms])
    {
      PushMovesWindow(samples[..], start, size, before, ms);
      ghost var next := Pushed(samples[..], start, size, ms);
      if size < CAP {
        samples[(start + size) % CAP] := ms;
        size := size + 1;
        sum := sum + ms;
      } else {
        var evicted := samples[start];
        samples[start] := ms;
        start := (start + 1) % CAP;
        sum := sum + (ms - evicted);
      }
      assert (samples[..], start, size) == next;
    }

    method PushRss(rss: real, ghost before: seq<real>)
      requires RssWindowOf(before) && samples != rssSamples
      modifies this`rssStart, this`rssSize, rssSamples
      ensures RssWindowOf(before + [rss])
    {
      PushMovesWindow(rssSamples[..], rssStart, rssSize, before, rss);
      ghost var next := Pushed(rssSamples[..], rssStart, rssSize, rss);
      if rssSize < CAP {
        rssSamples[(rssStart + rssSize) % CAP] := rss;
        rssSize := rssSize + 1;
      } else {
        rssSamples[rssStart] := rss;
        rssStart := (rssStart + 1) % CAP;
      }
      assert (rssSamples[..], rssStart, rssSize) == next;
    }

    /** Copies a ring into a new array, oldest first. */
    method CopyRing(a: array<real>, from: nat, n: nat) returns (copy: seq<real>)
      requires a.Length == CAP && from < CAP && n <= CAP
      ensures copy == Ring(a[..], from, n)
    {
      var out := new real[n];
      for i := 0 to n
        invariant a[..] == old(a[..])
        invariant forall j :: 0 <= j < i ==> out[j] == a[(from + j) % CAP]
      {
        out[i] := a[(from + i) % CAP];
      }
      copy := out[..];
    }

    method Snapshot() returns (r: Rollup)
      requires Valid()
      ensures r.count == |history| && r.errorCount == Errors(history) && r.lastUpdated == lastUpdated
      ensures r.errorRate == ErrorRate(r.errorCount, r.count)
      ensures LatencyExact(Recent(Successes(history)), r)
      ensures RssExact(Recent(RssSamples(history)), r)
    {
      var window := CopyRing(samples, start, size);
      var sorted := Sort(window);
      var mean := if size == 0 then 0.0 else sum / size as real;
      var rssWindow := CopyRing(rssSamples, rssStart, rssSize);
      var rssSorted := Sort(rssWindow);
      var meanMs := (mean * 100.0 + 0.5).Floor as real / 100.0;
      r := Rollup(count, errorCount, ErrorRate(errorCount, count), meanMs,
                  Percentile(sorted, 0.5), Percentile(sorted, 0.95), Percentile(sorted, 0.99), lastUpdated,
                  Percentile(rssSorted, 0.5), Percentile(rssSorted, 0.95),
                  if |rssSorted| > 0 then rssSorted[|rssSorted| - 1] else 0.0);
      LatencyIsExact(window, mean, r);
      RssIsExact(rssWindow, r);
    }
  }
}
