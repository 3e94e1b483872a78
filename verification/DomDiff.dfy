/** `DOMDiffEngine.compare`, and what swapping or repeating a snapshot does to its result. */
module DomDiff {
  import opened Basics
  import opened DomDiffSpec

  datatype DiffResult = DiffResult(differences: seq<Difference>, totalElementsCompared: nat, high: nat, medium: nat, low: nat)

  method BuildIndex(elements: seq<Element>, exclude: set<string>) returns (ix: Index)
    ensures ix == IndexOf(elements, exclude) && IsIndex(ix, elements, exclude)
  {
    ix := EMPTY_INDEX;
    for i := 0 to |elements|
      invariant ix == IndexOf(elements[..i], exclude)
    {
      assert elements[..i + 1][..i] == elements[..i];
      if elements[i].selector !in exclude {
        ix := Put(ix, elements[i]);
      }
    }
    assert elements[..|elements|] == elements;
    IndexOfIsIndex(elements, exclude);
  }

  lemma ReportAppend(selector: string, f: seq<(Kind, Severity)>, g: seq<(Kind, Severity)>, s: Snapshot, t: Snapshot)
    ensures Report(selector, f + g, s, t) == Report(selector, f, s, t) + Report(selector, g, s, t)
  {}

  /** Visibility, then position. */
  method ComparePlacement(selector: string, x: Element, y: Element, s: Snapshot, t: Snapshot, o: Options) returns (ds: seq<Difference>)
    ensures ds == Report(selector, HiddenPart(x, y) + ShiftPart(ShiftSquared(x, y, s, t), o.positionThreshold), s, t)
  {
    var shift := ShiftSquared(x, y, s, t);
    ghost var hidden, moved := HiddenPart(x, y), ShiftPart(shift, o.positionThreshold);
    ds := [];
    if x.visible != y.visible {
      ds := ds + [Difference(Hidden, selector, Medium, s.device, t.device)];
    }
    assert ds == Report(selector, hidden, s, t);
    ReportAppend(selector, hidden, moved, s, t);
    if RootExceeds(shift, o.positionThreshold) {
      var severity := if RootExceeds(shift, o.positionThreshold * 3.0) then High else Medium;
      ds := ds + [Difference(PositionShift, selector, severity, s.device, t.device)];
    }
  }

  /** Size, then text. */
  method CompareContent(selector: string, x: Element, y: Element, s: Snapshot, t: Snapshot, o: Options) returns (ds: seq<Difference>)
    ensures ds == Report(selector, SizePart(x.rect, y.rect, o.sizeThreshold) + TextPart(x, y), s, t)
  {
    ghost var sized, cut := SizePart(x.rect, y.rect, o.sizeThreshold), TextPart(x, y);
    ds := [];
    if x.rect.width > 0.0 && y.rect.width > 0.0 {
      if SizeExceeds(x.rect, y.rect, o.sizeThreshold) {
        var severity := if SizeExceeds(x.rect, y.rect, o.sizeThreshold * 2.0) then High else Low;
        ds := ds + [Difference(SizeChange, selector, severity, s.device, t.device)];
      }
    }
    assert ds == Report(selector, sized, s, t);
    ReportAppend(selector, sized, cut, s, t);
    if HasText(x) && HasText(y) && Truncated(x.text.value, y.text.value) {
      ds := ds + [Difference(TextTruncation, selector, Medium, s.device, t.device)];
    }
  }

  method CompareElements(selector: string, x: Element, y: Element, s: Snapshot, t: Snapshot, o: Options) returns (ds: seq<Difference>)
    ensures ds == Report(selector, Findings(Some(x), Some(y), s, t, o), s, t)
  {
    ghost var placed := HiddenPart(x, y) + ShiftPart(ShiftSquared(x, y, s, t), o.positionThreshold);
    ghost var content := SizePart(x.rect, y.rect, o.sizeThreshold) + TextPart(x, y);
    var first := ComparePlacement(selector, x, y, s, t, o);
    var second := CompareContent(selector, x, y, s, t, o);
    ds := first + second;
    ReportAppend(selector, placed, content, s, t);
    assert placed + content == Findings(Some(x), Some(y), s, t, o);
  }

  method Compare(s: Snapshot, t: Snapshot, o: Options) returns (r: DiffResult)
    ensures r.differences == BySeverity(Found(s, t, o))
    ensures r.totalElementsCompared == |Selectors(s, t, o)|
    ensures r.high == |Only(r.differences, High)| && r.medium == |Only(r.differences, Medium)| && r.low == |Only(r.differences, Low)|
    ensures r.high + r.medium + r.low == |r.differences|
  {
    var indexA := BuildIndex(s.elements, o.exclude);
    var indexB := BuildIndex(t.elements, o.exclude);
    var allSelectors := Union(indexA.keys, indexB.keys);
    var differences: seq<Difference> := [];
    for i := 0 to |allSelectors|
      invariant differences == ReportAll(allSelectors[..i], s, t, o)
    {
      assert allSelectors[..i + 1][..i] == allSelectors[..i];
      var selector := allSelectors[i];
      var a, b := Lookup(indexA, selector), Lookup(indexB, selector);
      assert Findings(a, b, s, t, o) == FindingsAt(selector, s, t, o);
      if a.Some? && b.None? {
        differences := differences + [Difference(Missing, selector, High, s.device, t.device)];
        assert Report(selector, [(Missing, High)], s, t) == [Difference(Missing, selector, High, s.device, t.device)];
      } else if a.None? && b.Some? {
        differences := differences + [Difference(Missing, selector, High, s.device, t.device)];
        assert Report(selector, [(Missing, High)], s, t) == [Difference(Missing, selector, High, s.device, t.device)];
      } else if a.Some? && b.Some? {
        var ds := CompareElements(selector, a.value, b.value, s, t, o);
        differences := differences + ds;
      } else {
        assert Report(selector, [], s, t) == [];
      }
    }
    assert allSelectors[..|allSelectors|] == allSelectors;
    var sorted := BySeverity(differences);
    SortedPermutation(differences, High);
    SortedPermutation(differences, Medium);
    SortedPermutation(differences, Low);
    r := DiffResult(sorted, |allSelectors|, |Only(differences, High)|, |Only(differences, Medium)|, |Only(differences, Low)|);
  }

  // ---- symmetry ----

  /** What of a difference does not mention which snapshot came first. */
  datatype Key = Key(kind: Kind, selector: string, severity: Severity)

  function KeyOf(d: Difference): Key { Key(d.kind, d.selector, d.severity) }

  function Keys(ds: seq<Difference>): multiset<Key> {
    if ds == [] then multiset{} else multiset{KeyOf(ds[0])} + Keys(ds[1..])
  }

  lemma {:induction false} KeysAppend(a: seq<Difference>, b: seq<Difference>)
    ensures Keys(a + b) == Keys(a) + Keys(b)
    decreases |a|
  {
    if a == [] {
      assert a + b == b;
    } else {
      assert (a + b)[1..] == a[1..] + b;
      KeysAppend(a[1..], b);
    }
  }

  lemma Shuffle(a: multiset<Key>, b: multiset<Key>, c: multiset<Key>, x: multiset<Key>)
    ensures (a + x) + b + c == a + (b + x) + c == a + b + (c + x) == x + (a + b + c)
    ensures a + multiset{} == a && b + multiset{} == b && c + multiset{} == c
  {}

  lemma OnlyKeysStep(ds: seq<Difference>, v: Severity)
    requires ds != []
    ensures Keys(Only(ds, v)) == Keys(Only(ds[1..], v)) + if ds[0].severity == v then multiset{KeyOf(ds[0])} else multiset{}
  {
    var rest := Only(ds[1..], v);
    assert ([ds[0]] + rest)[1..] == rest && [] + rest == rest;
  }

  lemma {:induction false} OnlyKeys(ds: seq<Difference>)
    ensures Keys(Only(ds, High)) + Keys(Only(ds, Medium)) + Keys(Only(ds, Low)) == Keys(ds)
  {
    if ds != [] {
      OnlyKeys(ds[1..]);
      OnlyKeysStep(ds, High);
      OnlyKeysStep(ds, Medium);
      OnlyKeysStep(ds, Low);
      Shuffle(Keys(Only(ds[1..], High)), Keys(Only(ds[1..], Medium)), Keys(Only(ds[1..], Low)), multiset{KeyOf(ds[0])});
    }
  }

  /** Sorting changes no key. */
  lemma SortKeepsKeys(ds: seq<Difference>)
    ensures Keys(BySeverity(ds)) == Keys(ds)
  {
    OnlyKeys(ds);
    KeysAppend(Only(ds, High) + Only(ds, Medium), Only(ds, Low));
    KeysAppend(Only(ds, High), Only(ds, Medium));
  }

  lemma DistanceSymmetric(x: real, y: real)
    ensures Abs(x - y) == Abs(y - x)
  {}

  lemma ShiftSymmetric(a: Element, b: Element, s: Snapshot, t: Snapshot)
    ensures ShiftSquared(a, b, s, t) == ShiftSquared(b, a, t, s)
  {
    DistanceSymmetric(Normalized(a.rect.x, s.viewW), Normalized(b.rect.x, t.viewW));
    DistanceSymmetric(Normalized(a.rect.y, s.viewH), Normalized(b.rect.y, t.viewH));
  }

  lemma SizeSymmetric(a: Rect, b: Rect, limit: real)
    ensures a.width > 0.0 && b.width > 0.0 ==> (SizeExceeds(a, b, limit) <==> SizeExceeds(b, a, limit))
  {
    DistanceSymmetric(a.width, b.width);
    DistanceSymmetric(a.height, b.height);
  }

  lemma FindingsSymmetric(a: Option<Element>, b: Option<Element>, s: Snapshot, t: Snapshot, o: Options)
    ensures Findings(a, b, s, t, o) == Findings(b, a, t, s, o)
  {
    if a.Some? && b.Some? {
      ShiftSymmetric(a.value, b.value, s, t);
      SizeSymmetric(a.value.rect, b.value.rect, o.sizeThreshold);
      SizeSymmetric(a.value.rect, b.value.rect, o.sizeThreshold * 2.0);
    }
  }

  function FindingKeys(selector: string, fs: seq<(Kind, Severity)>): multiset<Key> {
    if fs == [] then multiset{} else multiset{Key(fs[0].0, selector, fs[0].1)} + FindingKeys(selector, fs[1..])
  }

  lemma {:induction false} ReportKeys(selector: string, fs: seq<(Kind, Severity)>, s: Snapshot, t: Snapshot)
    ensures Keys(Report(selector, fs, s, t)) == FindingKeys(selector, fs)
    decreases |fs|
  {
    if fs != [] {
      ReportKeys(selector, fs[1..], s, t);
      assert Report(selector, fs, s, t)[1..] == Report(selector, fs[1..], s, t);
    }
  }

  /** The keys found for a list of selectors. */
  function KeysAt(selectors: seq<string>, s: Snapshot, t: Snapshot, o: Options): multiset<Key> {
    if selectors == [] then multiset{}
    else
      var k := selectors[|selectors| - 1];
      KeysAt(selectors[..|selectors| - 1], s, t, o) + FindingKeys(k, FindingsAt(k, s, t, o))
  }

  lemma {:induction false} ReportAllKeys(selectors: seq<string>, s: Snapshot, t: Snapshot, o: Options)
    ensures Keys(ReportAll(selectors, s, t, o)) == KeysAt(selectors, s, t, o)
    decreases |selectors|
  {
    if selectors != [] {
      var k, front := selectors[|selectors| - 1], selectors[..|selectors| - 1];
      ReportAllKeys(front, s, t, o);
      ReportKeys(k, FindingsAt(k, s, t, o), s, t);
      KeysAppend(ReportAll(front, s, t, o), Report(k, FindingsAt(k, s, t, o), s, t));
    }
  }

  lemma {:induction false} KeysAtSwapped(selectors: seq<string>, s: Snapshot, t: Snapshot, o: Options)
    ensures KeysAt(selectors, s, t, o) == KeysAt(selectors, t, s, o)
    decreases |selectors|
  {
    if selectors != [] {
      var k := selectors[|selectors| - 1];
      KeysAtSwapped(selectors[..|selectors| - 1], s, t, o);
      FindingsSymmetric(Lookup(IndexOf(s.elements, o.exclude), k), Lookup(IndexOf(t.elements, o.exclude), k), s, t, o);
    }
  }

  function Drop(q: seq<string>, i: nat): (r: seq<string>)
    requires i < |q|
    ensures |r| == |q| - 1
  {
    q[..i] + q[i + 1..]
  }

  lemma DropFront(q: seq<string>, i: nat)
    requires i < |q| - 1
    ensures var n := |q| - 1;
      Drop(q, i) != [] && Drop(q, i)[..|Drop(q, i)| - 1] == Drop(q[..n], i) && Drop(q, i)[|Drop(q, i)| - 1] == q[n]
  {}

  lemma DropLast(q: seq<string>)
    requires q != []
    ensures Drop(q, |q| - 1) == q[..|q| - 1]
  {}

  lemma Commute(a: multiset<Key>, x: multiset<Key>, y: multiset<Key>)
    ensures (a + x) + y == (a + y) + x
  {}

  lemma {:induction false} KeysAtDrop(q: seq<string>, i: nat, s: Snapshot, t: Snapshot, o: Options)
    requires i < |q|
    ensures KeysAt(q, s, t, o) == KeysAt(Drop(q, i), s, t, o) + FindingKeys(q[i], FindingsAt(q[i], s, t, o))
    decreases |q|
  {
    var n := |q| - 1;
    if i < n {
      KeysAtDrop(q[..n], i, s, t, o);
      DropFront(q, i);
      Commute(KeysAt(Drop(q[..n], i), s, t, o), FindingKeys(q[i], FindingsAt(q[i], s, t, o)),
              FindingKeys(q[n], FindingsAt(q[n], s, t, o)));
    } else {
      DropLast(q);
    }
  }

  lemma DropRemoves(q: seq<string>, i: nat)
    requires Distinct(q) && i < |q|
    ensures Distinct(Drop(q, i)) && forall k :: k in Drop(q, i) <==> k in q && k != q[i]
  {
    assert q == q[..i] + [q[i]] + q[i + 1..];
  }

  /** Visiting the same selectors in another order finds the same keys. */
  lemma {:induction false} KeysAtReordered(p: seq<string>, q: seq<string>, s: Snapshot, t: Snapshot, o: Options)
    requires Distinct(p) && Distinct(q) && forall k :: k in p <==> k in q
    ensures KeysAt(p, s, t, o) == KeysAt(q, s, t, o) && |p| == |q|
    decreases |p|
  {
    assert q != [] ==> q[0] in p;
    if p != [] {
      assert p[0] in q;
      var i :| 0 <= i < |q| && q[i] == p[0];
      DropRemoves(p, 0);
      DropRemoves(q, i);
      KeysAtDrop(p, 0, s, t, o);
      KeysAtDrop(q, i, s, t, o);
      KeysAtReordered(Drop(p, 0), Drop(q, i), s, t, o);
    }
  }

  /** Main result: swapping the snapshots leaves the multiset of (kind, selector, severity) and the
      number of compared selectors unchanged. */
  lemma CompareSymmetric(s: Snapshot, t: Snapshot, o: Options)
    ensures Keys(BySeverity(Found(s, t, o))) == Keys(BySeverity(Found(t, s, o)))
    ensures |Selectors(s, t, o)| == |Selectors(t, s, o)|
  {
    IndexIsValid(s.elements, o.exclude);
    IndexIsValid(t.elements, o.exclude);
    var a, b := IndexOf(s.elements, o.exclude).keys, IndexOf(t.elements, o.exclude).keys;
    var p, q := Selectors(s, t, o), Selectors(t, s, o);
    UnionElements(a, b);
    UnionElements(b, a);
    SortKeepsKeys(Found(s, t, o));
    SortKeepsKeys(Found(t, s, o));
    ReportAllKeys(p, s, t, o);
    ReportAllKeys(q, t, s, o);
    KeysAtSwapped(p, s, t, o);
    KeysAtReordered(p, q, t, s, o);
  }

  // ---- a snapshot against itself ----

  lemma SelfFindings(e: Element, s: Snapshot, o: Options)
    ensures Findings(Some(e), Some(e), s, s, o) == [] <==> o.positionThreshold >= 0.0 && (o.sizeThreshold >= 0.0 || e.rect.width <= 0.0)
  {
    assert ShiftSquared(e, e, s, s) == 0.0;
    if e.rect.width > 0.0 {
      assert Ratio(e.rect.width, e.rect.width) == 0.0 && HeightRatio(e.rect, e.rect) == 0.0;
    }
  }

  /** The negative thresholds that make a snapshot differ from itself. */
  predicate SelfQuiet(e: Element, o: Options) {
    o.positionThreshold >= 0.0 && (o.sizeThreshold >= 0.0 || e.rect.width <= 0.0)
  }

  lemma {:induction false} SelfReport(selectors: seq<string>, s: Snapshot, o: Options)
    requires forall k :: k in selectors ==> k in IndexOf(s.elements, o.exclude).byKey
    ensures ReportAll(selectors, s, s, o) == []
      <==> forall k :: k in selectors ==> SelfQuiet(IndexOf(s.elements, o.exclude).byKey[k], o)
    decreases |selectors|
  {
    if selectors != [] {
      var n := |selectors| - 1;
      var k := selectors[n];
      assert selectors == selectors[..n] + [k];
      SelfReport(selectors[..n], s, o);
      SelfFindings(IndexOf(s.elements, o.exclude).byKey[k], s, o);
    }
  }

  /** Comparing a snapshot with itself yields nothing exactly when every indexed element is quiet:
      the position threshold is not negative, nor the size threshold unless the element has no width. */
  lemma SelfCompareExactly(s: Snapshot, o: Options)
    ensures var ix := IndexOf(s.elements, o.exclude);
      BySeverity(Found(s, s, o)) == [] <==> forall k :: k in ix.byKey ==> SelfQuiet(ix.byKey[k], o)
  {
    IndexIsValid(s.elements, o.exclude);
    var ix := IndexOf(s.elements, o.exclude);
    UnionElements(ix.keys, ix.keys);
    SelfReport(Selectors(s, s, o), s, o);
    var f := Found(s, s, o);
    OnlySplits(f);
    SortedPermutation(f, High);
    assert |multiset(f)| == |f| && |multiset(BySeverity(f))| == |BySeverity(f)|;
  }

  // ---- what is reported, and how severe it is ----

  predicate OnlyOne(a: Option<Element>, b: Option<Element>) { a.Some? != b.Some? }

  /** A selector found in one snapshot only is reported as missing, with high severity, and as nothing else; one
      found in both is never reported as missing. */
  lemma MissingExactly(a: Option<Element>, b: Option<Element>, s: Snapshot, t: Snapshot, o: Options)
    ensures OnlyOne(a, b) ==> Findings(a, b, s, t, o) == [(Missing, High)]
    ensures !OnlyOne(a, b) ==> forall v :: (Missing, v) !in Findings(a, b, s, t, o)
  {}

  lemma FourParts(x: Element, y: Element, s: Snapshot, t: Snapshot, o: Options)
    ensures forall f :: f in Findings(Some(x), Some(y), s, t, o) <==>
      || f in HiddenPart(x, y) || f in ShiftPart(ShiftSquared(x, y, s, t), o.positionThreshold)
      || f in SizePart(x.rect, y.rect, o.sizeThreshold) || f in TextPart(x, y)
  {}

  /** A difference in visibility is reported, with medium severity, exactly if there is one. */
  lemma HiddenExactly(x: Element, y: Element, s: Snapshot, t: Snapshot, o: Options, v: Severity)
    ensures (Hidden, v) in Findings(Some(x), Some(y), s, t, o) <==> v == Medium && x.visible != y.visible
  {
    FourParts(x, y, s, t, o);
  }

  /** For a threshold that is not negative, a shift is reported exactly if it is longer than the threshold: with high
      severity if it is more than three times as long, else with medium severity. */
  lemma ShiftExactly(x: Element, y: Element, s: Snapshot, t: Snapshot, o: Options, v: Severity)
    requires o.positionThreshold >= 0.0
    ensures var shift, limit := ShiftSquared(x, y, s, t), o.positionThreshold;
      (PositionShift, v) in Findings(Some(x), Some(y), s, t, o) <==>
        || (v == High && shift > 9.0 * (limit * limit))
        || (v == Medium && limit * limit < shift <= 9.0 * (limit * limit))
  {
    var limit := o.positionThreshold;
    FourParts(x, y, s, t, o);
    assert (limit * 3.0) * (limit * 3.0) == 9.0 * (limit * limit);
    assert limit * limit >= 0.0;
  }

  lemma Undivided(a: real, w: real)
    requires w > 0.0
    ensures Normalized(a * w, w) == a
  {}

  lemma SameSquare(d: real, w: real)
    ensures var m, e := Abs(d) * (w / 2.0), d * w / 2.0; m * m == e * e
  {
    var m, e := Abs(d) * (w / 2.0), d * w / 2.0;
    assert m == e || m == -e;
  }

  /** `a` is the position `x` relative to a view; in a view without extent every position counts as 0. */
  predicate Relative(x: real, view: real, a: real) {
    if view > 0.0 then x == a * view else a == 0.0
  }

  lemma RelativeIsNormalized(x: real, view: real, a: real)
    requires Relative(x, view, a)
    ensures Normalized(x, view) == a
  {
    if view > 0.0 { Undivided(a, view); }
  }

  lemma AxisMeans(x: real, y: real, a: real, b: real, v: real, w: real)
    requires Relative(x, v, a) && Relative(y, w, b)
    ensures var e := (a - b) * (v + w) / 2.0; AxisShift(x, v, y, w) * AxisShift(x, v, y, w) == e * e
  {
    RelativeIsNormalized(x, v, a);
    RelativeIsNormalized(y, w, b);
    SameSquare(a - b, v + w);
  }

  lemma SumOfSquares(m: real, n: real, e: real, f: real)
    requires m * m == e * e && n * n == f * f
    ensures SquareSum(m, n) == e * e + f * f
  {}

  /** The shift: in each direction, the difference of the positions relative to their own viewports, in pixels of the
      mean viewport. */
  lemma ShiftMeans(x: Element, y: Element, s: Snapshot, t: Snapshot, ax: real, ay: real, bx: real, by': real)
    requires Relative(x.rect.x, s.viewW, ax) && Relative(x.rect.y, s.viewH, ay)
    requires Relative(y.rect.x, t.viewW, bx) && Relative(y.rect.y, t.viewH, by')
    ensures var dx, dy := (ax - bx) * (s.viewW + t.viewW) / 2.0, (ay - by') * (s.viewH + t.viewH) / 2.0;
      ShiftSquared(x, y, s, t) == dx * dx + dy * dy
  {
    AxisMeans(x.rect.x, y.rect.x, ax, bx, s.viewW, t.viewW);
    AxisMeans(x.rect.y, y.rect.y, ay, by', s.viewH, t.viewH);
    SumOfSquares(AxisShift(x.rect.x, s.viewW, y.rect.x, t.viewW), AxisShift(x.rect.y, s.viewH, y.rect.y, t.viewH),
                 (ax - bx) * (s.viewW + t.viewW) / 2.0, (ay - by') * (s.viewH + t.viewH) / 2.0);
  }

  /** The larger size exceeds the smaller by more than the share `limit` of itself. */
  predicate SizesDiffer(a: real, b: real, limit: real) {
    if a >= b then a - b > limit * a else b - a > limit * b
  }

  lemma ShareOf(part: real, whole: real, limit: real)
    requires whole > 0.0
    ensures part / whole > limit <==> part > limit * whole
  {
    var r := part / whole;
    assert r * whole == part;
    if r > limit { assert (r - limit) * whole > 0.0; }
    if r <= limit { assert (limit - r) * whole >= 0.0; }
  }

  lemma RatioMeans(a: real, b: real, limit: real)
    requires a > 0.0 && b > 0.0
    ensures Ratio(a, b) > limit <==> SizesDiffer(a, b, limit)
  {
    ShareOf(if a >= b then a - b else b - a, if a >= b then a else b, limit);
  }

  /** A width or height differs by more than the share `limit` of the larger one; heights count only if both are
      positive. */
  predicate Resized(a: Rect, b: Rect, limit: real) {
    || SizesDiffer(a.width, b.width, limit)
    || (if a.height > 0.0 && b.height > 0.0 then SizesDiffer(a.height, b.height, limit) else limit < 0.0)
  }

  lemma SizeMeans(a: Rect, b: Rect, limit: real)
    requires a.width > 0.0 && b.width > 0.0
    ensures SizeExceeds(a, b, limit) <==> Resized(a, b, limit)
  {
    RatioMeans(a.width, b.width, limit);
    if a.height > 0.0 && b.height > 0.0 {
      RatioMeans(a.height, b.height, limit);
    }
  }

  /** A change of size is reported exactly if both widths are positive and the sizes differ by more than the threshold:
      with high severity if by more than twice the threshold, else with low severity. */
  lemma SizeExactly(x: Element, y: Element, s: Snapshot, t: Snapshot, o: Options, v: Severity)
    ensures var limit := o.sizeThreshold;
      (SizeChange, v) in Findings(Some(x), Some(y), s, t, o) <==>
        && x.rect.width > 0.0 && y.rect.width > 0.0 && Resized(x.rect, y.rect, limit)
        && v == if Resized(x.rect, y.rect, limit * 2.0) then High else Low
  {
    FourParts(x, y, s, t, o);
    if x.rect.width > 0.0 && y.rect.width > 0.0 {
      SizeMeans(x.rect, y.rect, o.sizeThreshold);
      SizeMeans(x.rect, y.rect, o.sizeThreshold * 2.0);
    }
  }

  /** A truncated text is reported, with medium severity, exactly if both texts are non-empty and one is a proper
      beginning of the other. */
  lemma TruncationExactly(x: Element, y: Element, s: Snapshot, t: Snapshot, o: Options, v: Severity)
    ensures (TextTruncation, v) in Findings(Some(x), Some(y), s, t, o) <==>
      && v == Medium && x.text.Some? && y.text.Some? && x.text.value != "" && y.text.value != ""
      && (x.text.value < y.text.value || y.text.value < x.text.value)
  {
    FourParts(x, y, s, t, o);
  }

  lemma ReportHas(k: string, fs: seq<(Kind, Severity)>, s: Snapshot, t: Snapshot, d: Difference)
    ensures d in Report(k, fs, s, t) <==>
      d.selector == k && (d.kind, d.severity) in fs && d.deviceA == s.device && d.deviceB == t.device
  {
    var r := Report(k, fs, s, t);
    if i :| 0 <= i < |fs| && fs[i] == (d.kind, d.severity) && d.selector == k && d.deviceA == s.device && d.deviceB == t.device {
      assert r[i] == d;
    }
  }

  lemma {:induction false} ReportedExactly(selectors: seq<string>, s: Snapshot, t: Snapshot, o: Options, d: Difference)
    ensures d in ReportAll(selectors, s, t, o) <==>
      && d.selector in selectors && (d.kind, d.severity) in FindingsAt(d.selector, s, t, o)
      && d.deviceA == s.device && d.deviceB == t.device
    decreases |selectors|
  {
    if selectors != [] {
      var n := |selectors| - 1;
      var k := selectors[n];
      ReportedExactly(selectors[..n], s, t, o, d);
      assert selectors == selectors[..n] + [k];
      ReportHas(k, FindingsAt(k, s, t, o), s, t, d);
    }
  }

  /** The result reports exactly the findings of the selectors that occur, unexcluded, in either snapshot, each under its
      own selector and between these two devices. */
  lemma ResultExactly(s: Snapshot, t: Snapshot, o: Options, d: Difference)
    ensures d in BySeverity(Found(s, t, o)) <==>
      && d.selector in Selectors(s, t, o) && (d.kind, d.severity) in FindingsAt(d.selector, s, t, o)
      && d.deviceA == s.device && d.deviceB == t.device
  {
    ReportedExactly(Selectors(s, t, o), s, t, o, d);
    var f := Found(s, t, o);
    SortedPermutation(f, High);
    assert d in f <==> d in multiset(f);
    assert d in BySeverity(f) <==> d in multiset(BySeverity(f));
  }

  /** Severe differences come first: nothing stands before a high one but high ones, and no low one before a medium one. */
  lemma SevereFirst(s: Snapshot, t: Snapshot, o: Options, i: nat, j: nat)
    requires i < j < |BySeverity(Found(s, t, o))|
    ensures var r := BySeverity(Found(s, t, o));
      && (r[j].severity == High ==> r[i].severity == High)
      && (r[j].severity == Medium ==> r[i].severity != Low)
  {
    BySeverityOrdered(Found(s, t, o));
  }

  // ---- order ----

  function KindOrder(k: Kind): nat {
    match k case Missing => 0 case Hidden => 1 case PositionShift => 2 case SizeChange => 3 case TextTruncation => 4
  }

  /** Within a selector each kind is found at most once: visibility, then position, then size, then text. */
  lemma FindingsInOrder(a: Option<Element>, b: Option<Element>, s: Snapshot, t: Snapshot, o: Options, i: nat, j: nat)
    requires i < j < |Findings(a, b, s, t, o)|
    ensures KindOrder(Findings(a, b, s, t, o)[i].0) < KindOrder(Findings(a, b, s, t, o)[j].0)
  {}

  /** Differences are found selector by selector, in the order of the selectors. */
  lemma {:induction false} FoundInOrder(selectors: seq<string>, s: Snapshot, t: Snapshot, o: Options, i: nat, j: nat, p: nat, q: nat)
    requires Distinct(selectors) && i < j < |ReportAll(selectors, s, t, o)| && p < |selectors| && q < |selectors|
    requires ReportAll(selectors, s, t, o)[i].selector == selectors[p] && ReportAll(selectors, s, t, o)[j].selector == selectors[q]
    ensures p <= q
    decreases |selectors|
  {
    var n := |selectors| - 1;
    var front, all := ReportAll(selectors[..n], s, t, o), ReportAll(selectors, s, t, o);
    var last := Report(selectors[n], FindingsAt(selectors[n], s, t, o), s, t);
    assert all == front + last;
    if j < |front| {
      ReportedExactly(selectors[..n], s, t, o, front[i]);
      ReportedExactly(selectors[..n], s, t, o, front[j]);
      assert front[i] in front && front[j] in front;
      assert p < n && q < n;
      FoundInOrder(selectors[..n], s, t, o, i, j, p, q);
    } else {
      assert all[j] == last[j - |front|];
      assert q == n;
    }
  }

  /** The elements of `b` that are not in `a`, in order. */
  function Rest(b: seq<string>, a: seq<string>): seq<string> {
    if b == [] then [] else (if b[0] in a then [] else [b[0]]) + Rest(b[1..], a)
  }

  lemma {:induction false} RestSnoc(b: seq<string>, x: string, a: seq<string>)
    ensures Rest(b + [x], a) == Rest(b, a) + if x in a then [] else [x]
    decreases |b|
  {
    if b == [] {
      assert b + [x] == [x] && [x][1..] == [];
    } else {
      assert (b + [x])[1..] == b[1..] + [x];
      RestSnoc(b[1..], x, a);
    }
  }

  /** The selectors: those of the first snapshot in their order, then the others of the second in theirs. */
  lemma {:induction false} SelectorsInOrder(a: seq<string>, b: seq<string>)
    requires Distinct(a) && Distinct(b)
    ensures Union(a, b) == a + Rest(b, a)
    decreases |b|
  {
    if b != [] {
      var n := |b| - 1;
      SelectorsInOrder(a, b[..n]);
      UnionElements(a, b[..n]);
      RestSnoc(b[..n], b[n], a);
      assert b == b[..n] + [b[n]];
    }
  }
}
