/** What two DOM snapshots differ in, selector by selector. */
module DomDiffSpec {
  import opened Basics
  import SeqFacts

  datatype Rect = Rect(x: real, y: real, width: real, height: real)

  datatype Element = Element(selector: string, rect: Rect, visible: bool, text: Option<string>)

  datatype Snapshot = Snapshot(device: string, viewW: real, viewH: real, elements: seq<Element>)

  datatype Kind = Missing | Hidden | PositionShift | SizeChange | TextTruncation

  datatype Severity = High | Medium | Low

  datatype Difference = Difference(kind: Kind, selector: string, severity: Severity, deviceA: string, deviceB: string)

  datatype Options = Options(positionThreshold: real, sizeThreshold: real, exclude: set<string>)

  // ---- indexing: a JavaScript Map keyed by selector ----

  datatype Index = Index(keys: seq<string>, byKey: map<string, Element>)

  const EMPTY_INDEX := Index([], map[])

  /** A selector seen again keeps its place and takes the later element. */
  function Put(ix: Index, el: Element): Index {
    Index(if el.selector in ix.byKey then ix.keys else ix.keys + [el.selector], ix.byKey[el.selector := el])
  }

  function IndexOf(elements: seq<Element>, exclude: set<string>): Index {
    if elements == [] then EMPTY_INDEX
    else
      var ix := IndexOf(elements[..|elements| - 1], exclude);
      var el := elements[|elements| - 1];
      if el.selector in exclude then ix else Put(ix, el)
  }

  function Lookup(ix: Index, selector: string): Option<Element> {
    if selector in ix.byKey then Some(ix.byKey[selector]) else None
  }

  ghost predicate IndexValid(ix: Index) {
    && Distinct(ix.keys)
    && (forall k :: k in ix.keys <==> k in ix.byKey)
    && (forall k :: k in ix.byKey ==> ix.byKey[k].selector == k)
  }

  lemma {:induction false} IndexIsValid(elements: seq<Element>, exclude: set<string>)
    ensures IndexValid(IndexOf(elements, exclude))
  {
    if elements != [] {
      IndexIsValid(elements[..|elements| - 1], exclude);
    }
  }

  predicate Occurs(elements: seq<Element>, k: string, i: int) {
    0 <= i < |elements| && elements[i].selector == k
  }

  ghost predicate IsFirst(elements: seq<Element>, k: string, i: int) {
    Occurs(elements, k, i) && forall j :: 0 <= j < i ==> !Occurs(elements, k, j)
  }

  ghost predicate IsLast(elements: seq<Element>, k: string, i: int) {
    Occurs(elements, k, i) && forall j :: i < j < |elements| ==> !Occurs(elements, k, j)
  }

  /** `k` is a key exactly if some element has that selector and it is not excluded; it then
      stands for the last such element. */
  ghost predicate IndexesKey(ix: Index, elements: seq<Element>, exclude: set<string>, k: string) {
    && (k in ix.byKey <==> k !in exclude && exists i :: Occurs(elements, k, i))
    && (k in ix.byKey ==> exists i :: IsLast(elements, k, i) && ix.byKey[k] == elements[i])
  }

  /** The keys stand in the order in which their selectors occur first. */
  ghost predicate InOrder(keys: seq<string>, elements: seq<Element>) {
    forall a, b, i, j :: 0 <= a < b < |keys| && IsFirst(elements, keys[a], i) && IsFirst(elements, keys[b], j) ==> i < j
  }

  ghost predicate IsIndex(ix: Index, elements: seq<Element>, exclude: set<string>) {
    && IndexValid(ix) && InOrder(ix.keys, elements)
    && forall k :: IndexesKey(ix, elements, exclude, k)
  }

  lemma OccursFront(elements: seq<Element>, k: string)
    requires elements != []
    ensures var n := |elements| - 1;
      && (forall i :: i < n ==> (Occurs(elements, k, i) <==> Occurs(elements[..n], k, i)))
      && (forall i :: i < n ==> (IsFirst(elements, k, i) <==> IsFirst(elements[..n], k, i)))
  {}

  lemma {:induction false} IndexMeans(elements: seq<Element>, exclude: set<string>, k: string)
    ensures IndexesKey(IndexOf(elements, exclude), elements, exclude, k)
  {
    if elements != [] {
      var n := |elements| - 1;
      var front, prior := elements[..n], IndexOf(elements[..n], exclude);
      IndexMeans(front, exclude, k);
      OccursFront(elements, k);
      if elements[n].selector == k {
        assert Occurs(elements, k, n) && IsLast(elements, k, n);
      } else if k in prior.byKey {
        var i :| IsLast(front, k, i) && prior.byKey[k] == front[i];
        assert Occurs(elements, k, i) && IsLast(elements, k, i);
      }
    }
  }

  lemma KeyFirstInFront(elements: seq<Element>, exclude: set<string>, k: string, i: int)
    requires elements != [] && IsFirst(elements, k, i) && k in IndexOf(elements[..|elements| - 1], exclude).byKey
    ensures i < |elements| - 1 && IsFirst(elements[..|elements| - 1], k, i)
  {
    IndexMeans(elements[..|elements| - 1], exclude, k);
    OccursFront(elements, k);
  }

  lemma NewKeyIsLast(elements: seq<Element>, exclude: set<string>, k: string, j: int)
    requires elements != [] && IsFirst(elements, k, j) && k !in exclude
    requires k !in IndexOf(elements[..|elements| - 1], exclude).byKey
    ensures j == |elements| - 1
  {
    IndexMeans(elements[..|elements| - 1], exclude, k);
    OccursFront(elements, k);
  }

  lemma {:induction false} KeysInOrder(elements: seq<Element>, exclude: set<string>)
    ensures InOrder(IndexOf(elements, exclude).keys, elements)
  {
    if elements != [] {
      var n := |elements| - 1;
      var front, keys := elements[..n], IndexOf(elements, exclude).keys;
      var prior := IndexOf(front, exclude);
      KeysInOrder(front, exclude);
      IndexIsValid(front, exclude);
      forall a, b, i, j | 0 <= a < b < |keys| && IsFirst(elements, keys[a], i) && IsFirst(elements, keys[b], j) ensures i < j {
        assert keys[a] == prior.keys[a] && keys[a] in prior.byKey;
        KeyFirstInFront(elements, exclude, keys[a], i);
        if b < |prior.keys| {
          assert keys[b] == prior.keys[b] && keys[b] in prior.byKey;
          KeyFirstInFront(elements, exclude, keys[b], j);
        } else {
          NewKeyIsLast(elements, exclude, keys[b], j);
        }
      }
    }
  }

  /** A repeated selector keeps its place and takes the later element; excluded ones are skipped. */
  lemma IndexOfIsIndex(elements: seq<Element>, exclude: set<string>)
    ensures IsIndex(IndexOf(elements, exclude), elements, exclude)
  {
    IndexIsValid(elements, exclude);
    KeysInOrder(elements, exclude);
    forall k ensures IndexesKey(IndexOf(elements, exclude), elements, exclude, k) {
      IndexMeans(elements, exclude, k);
    }
  }

  /** `new Set([...a, ...b])` for two lists without repetitions. */
  function Union(a: seq<string>, b: seq<string>): seq<string> {
    if b == [] then a
    else
      var u := Union(a, b[..|b| - 1]);
      if b[|b| - 1] in u then u else u + [b[|b| - 1]]
  }

  lemma {:induction false} UnionElements(a: seq<string>, b: seq<string>)
    requires Distinct(a)
    ensures Distinct(Union(a, b))
    ensures forall k :: k in Union(a, b) <==> k in a || k in b
  {
    if b != [] {
      UnionElements(a, b[..|b| - 1]);
      assert b == b[..|b| - 1] + [b[|b| - 1]];
    }
  }

  // ---- one selector ----

  function Abs(x: real): real { if x < 0.0 then -x else x }

  function Larger(x: real, y: real): real { if x < y then y else x }

  function Normalized(x: real, view: real): real { if view > 0.0 then x / view else 0.0 }

  function Average(x: real, y: real): real { (x + y) / 2.0 }

  function SquareSum(x: real, y: real): real { x * x + y * y }

  /** How far apart two positions are in one direction, each relative to its own view, in pixels of the mean view. */
  function AxisShift(x: real, viewX: real, y: real, viewY: real): real {
    Abs(Normalized(x, viewX) - Normalized(y, viewY)) * Average(viewX, viewY)
  }

  /** The square of the position shift in pixels. */
  function ShiftSquared(a: Element, b: Element, s: Snapshot, t: Snapshot): real {
    SquareSum(AxisShift(a.rect.x, s.viewW, b.rect.x, t.viewW), AxisShift(a.rect.y, s.viewH, b.rect.y, t.viewH))
  }

  /** The square root of `squared` exceeds `limit`. */
  predicate RootExceeds(squared: real, limit: real) {
    limit < 0.0 || squared > limit * limit
  }

  function Ratio(x: real, y: real): real
    requires x > 0.0 && y > 0.0
  {
    Abs(x - y) / Larger(x, y)
  }

  function HeightRatio(a: Rect, b: Rect): real {
    if a.height > 0.0 && b.height > 0.0 then Ratio(a.height, b.height) else 0.0
  }

  predicate SizeExceeds(a: Rect, b: Rect, limit: real)
    requires a.width > 0.0 && b.width > 0.0
  {
    Ratio(a.width, b.width) > limit || HeightRatio(a, b) > limit
  }

  predicate HasText(e: Element) { e.text.Some? && e.text.value != "" }

  predicate Truncated(x: string, y: string) {
    x != y && (x <= y || y <= x)
  }

  function HiddenPart(x: Element, y: Element): seq<(Kind, Severity)> {
    if x.visible != y.visible then [(Hidden, Medium)] else []
  }

  function ShiftPart(shift: real, limit: real): seq<(Kind, Severity)> {
    if RootExceeds(shift, limit) then [(PositionShift, if RootExceeds(shift, limit * 3.0) then High else Medium)] else []
  }

  function SizePart(x: Rect, y: Rect, limit: real): seq<(Kind, Severity)> {
    if x.width > 0.0 && y.width > 0.0 && SizeExceeds(x, y, limit)
    then [(SizeChange, if SizeExceeds(x, y, limit * 2.0) then High else Low)] else []
  }

  function TextPart(x: Element, y: Element): seq<(Kind, Severity)> {
    if HasText(x) && HasText(y) && Truncated(x.text.value, y.text.value) then [(TextTruncation, Medium)] else []
  }

  /** The kinds and severities reported for one selector, in order. */
  function Findings(a: Option<Element>, b: Option<Element>, s: Snapshot, t: Snapshot, o: Options): seq<(Kind, Severity)> {
    if a.None? && b.None? then []
    else if a.None? || b.None? then [(Missing, High)]
    else
      var x, y := a.value, b.value;
      HiddenPart(x, y) + ShiftPart(ShiftSquared(x, y, s, t), o.positionThreshold)
      + SizePart(x.rect, y.rect, o.sizeThreshold) + TextPart(x, y)
  }

  function Report(selector: string, fs: seq<(Kind, Severity)>, s: Snapshot, t: Snapshot): seq<Difference> {
    seq(|fs|, i requires 0 <= i < |fs| => Difference(fs[i].0, selector, fs[i].1, s.device, t.device))
  }

  function FindingsAt(selector: string, s: Snapshot, t: Snapshot, o: Options): seq<(Kind, Severity)> {
    Findings(Lookup(IndexOf(s.elements, o.exclude), selector), Lookup(IndexOf(t.elements, o.exclude), selector), s, t, o)
  }

  function ReportAll(selectors: seq<string>, s: Snapshot, t: Snapshot, o: Options): seq<Difference> {
    if selectors == [] then []
    else
      var k := selectors[|selectors| - 1];
      ReportAll(selectors[..|selectors| - 1], s, t, o) + Report(k, FindingsAt(k, s, t, o), s, t)
  }

  function Selectors(s: Snapshot, t: Snapshot, o: Options): seq<string> {
    Union(IndexOf(s.elements, o.exclude).keys, IndexOf(t.elements, o.exclude).keys)
  }

  /** The differences in the order they are found. */
  function Found(s: Snapshot, t: Snapshot, o: Options): seq<Difference> {
    ReportAll(Selectors(s, t, o), s, t, o)
  }

  // ---- sorting by severity ----

  function Only(ds: seq<Difference>, v: Severity): seq<Difference> {
    if ds == [] then [] else (if ds[0].severity == v then [ds[0]] else []) + Only(ds[1..], v)
  }

  /** The stable sort: high, then medium, then low. */
  function BySeverity(ds: seq<Difference>): seq<Difference> {
    Only(ds, High) + Only(ds, Medium) + Only(ds, Low)
  }

  function Order(v: Severity): nat { match v case High => 0 case Medium => 1 case Low => 2 }

  lemma {:induction false} OnlyHas(ds: seq<Difference>, v: Severity)
    ensures forall d :: d in Only(ds, v) ==> d.severity == v
  {
    if ds != [] { OnlyHas(ds[1..], v); }
  }

  lemma {:induction false} OnlySplits(ds: seq<Difference>)
    ensures multiset(Only(ds, High)) + multiset(Only(ds, Medium)) + multiset(Only(ds, Low)) == multiset(ds)
  {
    if ds != [] {
      OnlySplits(ds[1..]);
      assert ds == [ds[0]] + ds[1..];
    }
  }

  lemma {:induction false} OnlyAppend(a: seq<Difference>, b: seq<Difference>, v: Severity)
    ensures Only(a + b, v) == Only(a, v) + Only(b, v)
    decreases |a|
  {
    if a == [] {
      SeqFacts.Nil(b);
      SeqFacts.Nil(Only(b, v));
    } else {
      SeqFacts.Tail(a, b);
      OnlyAppend(a[1..], b, v);
      SeqFacts.Assoc(if a[0].severity == v then [a[0]] else [], Only(a[1..], v), Only(b, v));
    }
  }

  lemma {:induction false} OnlyOnly(ds: seq<Difference>, u: Severity, v: Severity)
    ensures Only(Only(ds, u), v) == if u == v then Only(ds, u) else []
  {
    if ds != [] {
      OnlyOnly(ds[1..], u, v);
      if ds[0].severity == u {
        assert ([ds[0]] + Only(ds[1..], u))[1..] == Only(ds[1..], u);
      } else {
        assert [] + Only(ds[1..], u) == Only(ds[1..], u);
      }
    }
  }

  ghost predicate Ordered(ds: seq<Difference>) {
    forall i, j :: 0 <= i < j < |ds| ==> Order(ds[i].severity) <= Order(ds[j].severity)
  }

  lemma OrderedAppend(a: seq<Difference>, b: seq<Difference>)
    requires Ordered(a) && Ordered(b)
    requires forall d, e :: d in a && e in b ==> Order(d.severity) <= Order(e.severity)
    ensures Ordered(a + b)
  {
    forall i, j | 0 <= i < j < |a + b| ensures Order((a + b)[i].severity) <= Order((a + b)[j].severity) {
      if i < |a| && j >= |a| {
        assert (a + b)[i] in a && (a + b)[j] in b;
      }
    }
  }

  lemma OnlyOrdered(ds: seq<Difference>, v: Severity)
    ensures Ordered(Only(ds, v))
  {
    OnlyHas(ds, v);
    assert forall i :: 0 <= i < |Only(ds, v)| ==> Only(ds, v)[i] in Only(ds, v);
  }

  lemma BySeverityOrdered(ds: seq<Difference>)
    ensures Ordered(BySeverity(ds))
  {
    OnlyOrdered(ds, High);
    OnlyOrdered(ds, Medium);
    OnlyOrdered(ds, Low);
    OnlyHas(ds, High);
    OnlyHas(ds, Medium);
    OnlyHas(ds, Low);
    OrderedAppend(Only(ds, High), Only(ds, Medium));
    OrderedAppend(Only(ds, High) + Only(ds, Medium), Only(ds, Low));
  }

  /** Sorting permutes, puts severe differences first and keeps the order within a severity. */
  lemma SortedPermutation(ds: seq<Difference>, v: Severity)
    ensures multiset(BySeverity(ds)) == multiset(ds) && Ordered(BySeverity(ds))
    ensures Only(BySeverity(ds), v) == Only(ds, v)
  {
    var h, m, l := Only(ds, High), Only(ds, Medium), Only(ds, Low);
    OnlySplits(ds);
    BySeverityOrdered(ds);
    OnlyAppend(h + m, l, v);
    OnlyAppend(h, m, v);
    OnlyOnly(ds, High, v);
    OnlyOnly(ds, Medium, v);
    OnlyOnly(ds, Low, v);
  }
}
