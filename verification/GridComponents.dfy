/** Cells of a pixel grid, 4-adjacency, and what "connected component" means.
    Nothing here refers to the flood fill; this is the reference it is proved against. */
module GridComponents {

  datatype Cell = Cell(x: int, y: int)

  datatype Box = Box(x: int, y: int, width: int, height: int)

  function Abs(i: int): nat { if i < 0 then -i else i }

  predicate Adjacent(a: Cell, b: Cell) {
    Abs(a.x - b.x) + Abs(a.y - b.y) == 1
  }

  /** The scan order of the two outer loops: rows first, then columns. */
  predicate Before(a: Cell, b: Cell) {
    a.y < b.y || (a.y == b.y && a.x < b.x)
  }

  ghost predicate IsPath(m: set<Cell>, p: seq<Cell>, a: Cell, b: Cell) {
    && |p| > 0 && p[0] == a && p[|p| - 1] == b
    && (forall i :: 0 <= i < |p| ==> p[i] in m)
    && (forall i :: 0 < i < |p| ==> Adjacent(p[i - 1], p[i]))
  }

  ghost predicate Linked(m: set<Cell>, a: Cell, b: Cell) {
    exists p :: IsPath(m, p, a, b)
  }

  ghost function Component(m: set<Cell>, a: Cell): set<Cell> {
    set c | c in m && Linked(m, a, c)
  }

  ghost predicate ClosedIn(m: set<Cell>, s: set<Cell>) {
    forall c, d :: c in s && d in m && Adjacent(c, d) ==> d in s
  }

  lemma LinkedRefl(m: set<Cell>, a: Cell)
    requires a in m
    ensures Linked(m, a, a)
  {
    assert IsPath(m, [a], a, a);
  }

  lemma LinkedStep(m: set<Cell>, a: Cell, b: Cell, c: Cell)
    requires Linked(m, a, b) && Adjacent(b, c) && c in m
    ensures Linked(m, a, c)
  {
    var p :| IsPath(m, p, a, b);
    assert IsPath(m, p + [c], a, c);
  }

  lemma LinkedSymmetric(m: set<Cell>, a: Cell, b: Cell)
    requires Linked(m, a, b)
    ensures Linked(m, b, a)
  {
    var p :| IsPath(m, p, a, b);
    var n := |p|;
    var q := seq(n, i requires 0 <= i < n => p[n - 1 - i]);
    forall i | 0 < i < n ensures Adjacent(q[i - 1], q[i]) {
      assert q[i - 1] == p[n - i] && q[i] == p[n - i - 1];
    }
    assert IsPath(m, q, b, a);
  }

  lemma LinkedTransitive(m: set<Cell>, a: Cell, b: Cell, c: Cell)
    requires Linked(m, a, b) && Linked(m, b, c)
    ensures Linked(m, a, c)
  {
    var p :| IsPath(m, p, a, b);
    var q :| IsPath(m, q, b, c);
    var r := p + q[1..];
    forall i | 0 < i < |r| ensures Adjacent(r[i - 1], r[i]) {
      if i < |p| {
        assert r[i - 1] == p[i - 1] && r[i] == p[i];
      } else {
        assert r[i] == q[i - |p| + 1];
        assert r[i - 1] == q[i - |p|];
      }
    }
    assert IsPath(m, r, a, c);
  }

  /** A closed set that contains one end of a path contains the other. */
  lemma ClosedHoldsLinked(m: set<Cell>, s: set<Cell>, a: Cell, b: Cell)
    requires ClosedIn(m, s) && a in s && Linked(m, a, b)
    ensures b in s
  {
    var p :| IsPath(m, p, a, b);
    for i := 1 to |p|
      invariant forall j :: 0 <= j < i ==> p[j] in s
    {
      assert Adjacent(p[i - 1], p[i]) && p[i - 1] in s && p[i] in m;
    }
  }

  /** Components partition the marked cells: two of them are disjoint or equal. */
  lemma ComponentsPartition(m: set<Cell>, a: Cell, b: Cell)
    requires a in m && b in m
    ensures a in Component(m, a)
    ensures Component(m, a) == Component(m, b) || Component(m, a) !! Component(m, b)
    ensures Component(m, a) == Component(m, b) <==> Linked(m, a, b)
  {
    LinkedRefl(m, a);
    LinkedRefl(m, b);
    if Linked(m, a, b) {
      LinkedSymmetric(m, a, b);
      forall c | c in m ensures Linked(m, a, c) <==> Linked(m, b, c) {
        if Linked(m, a, c) { LinkedTransitive(m, b, a, c); }
        if Linked(m, b, c) { LinkedTransitive(m, a, b, c); }
      }
    } else {
      forall c | c in Component(m, a) && c in Component(m, b) ensures false {
        LinkedSymmetric(m, b, c);
        LinkedTransitive(m, a, c, b);
      }
      assert b in Component(m, b);
    }
  }

  function Scaled(cellSize: int, x0: int, y0: int, x1: int, y1: int): Box {
    Box(x0 * cellSize, y0 * cellSize, (x1 - x0 + 1) * cellSize, (y1 - y0 + 1) * cellSize)
  }

  /** Every cell lies in the range and each of the four sides is touched. */
  ghost predicate Spans(comp: set<Cell>, x0: int, y0: int, x1: int, y1: int) {
    && (forall c :: c in comp ==> x0 <= c.x <= x1 && y0 <= c.y <= y1)
    && (exists c :: c in comp && c.x == x0)
    && (exists c :: c in comp && c.x == x1)
    && (exists c :: c in comp && c.y == y0)
    && (exists c :: c in comp && c.y == y1)
  }

  /** `b` is the smallest box of whole cells around `comp`, in pixels. */
  ghost predicate TightBox(comp: set<Cell>, cellSize: int, b: Box) {
    exists x0, y0, x1, y1 :: Spans(comp, x0, y0, x1, y1) && b == Scaled(cellSize, x0, y0, x1, y1)
  }

  ghost predicate Ordered(s: seq<Cell>) {
    forall i, j :: 0 <= i < j < |s| ==> Before(s[i], s[j])
  }

  ghost predicate Reached(m: set<Cell>, seeds: seq<Cell>, c: Cell) {
    exists i :: 0 <= i < |seeds| && Linked(m, seeds[i], c)
  }

  ghost predicate FirstOfComponent(m: set<Cell>, s: Cell) {
    s in m && forall c {:trigger Linked(m, s, c)} :: c in m && Linked(m, s, c) ==> c == s || Before(s, c)
  }

  /** The list of boxes a scan must produce: one tight box for each component, in the
      scan order of the components' first cells (`seeds`). */
  ghost predicate ExactRegions(m: set<Cell>, cellSize: int, seeds: seq<Cell>, regions: seq<Box>) {
    && |seeds| == |regions|
    && (forall i :: 0 <= i < |seeds| ==> FirstOfComponent(m, seeds[i]))
    && Ordered(seeds)
    && (forall c {:trigger Reached(m, seeds, c)} :: c in m ==> Reached(m, seeds, c))
    && (forall i :: 0 <= i < |seeds| ==> TightBox(Component(m, seeds[i]), cellSize, regions[i]))
  }

  /** `regions` is the list of boxes of the components of `m`. */
  ghost predicate IsRegionList(m: set<Cell>, cellSize: int, regions: seq<Box>) {
    exists seeds :: ExactRegions(m, cellSize, seeds, regions)
  }

  lemma FirstsDisjoint(m: set<Cell>, a: Cell, b: Cell)
    requires FirstOfComponent(m, a) && FirstOfComponent(m, b) && Before(a, b)
    ensures Component(m, a) !! Component(m, b)
  {
    ComponentsPartition(m, a, b);
    if Linked(m, a, b) {
      LinkedSymmetric(m, a, b);
      assert false;
    }
  }

  /** Regions and components are in one-to-one correspondence: each marked cell
      belongs to the component of exactly one seed. */
  lemma RegionsAreComponents(m: set<Cell>, cellSize: int, seeds: seq<Cell>, regions: seq<Box>, c: Cell)
    requires ExactRegions(m, cellSize, seeds, regions) && c in m
    ensures exists i :: 0 <= i < |seeds| && Component(m, seeds[i]) == Component(m, c)
    ensures forall i, j :: 0 <= i < j < |seeds| ==> Component(m, seeds[i]) !! Component(m, seeds[j])
  {
    assert Reached(m, seeds, c);
    var i :| 0 <= i < |seeds| && Linked(m, seeds[i], c);
    ComponentsPartition(m, seeds[i], c);
    forall i, j | 0 <= i < j < |seeds| ensures Component(m, seeds[i]) !! Component(m, seeds[j]) {
      FirstsDisjoint(m, seeds[i], seeds[j]);
    }
  }

  lemma SeedsAreFirsts(m: set<Cell>, cellSize: int, seeds: seq<Cell>, regions: seq<Box>, c: Cell)
    requires ExactRegions(m, cellSize, seeds, regions)
    ensures c in seeds <==> FirstOfComponent(m, c)
  {
    if FirstOfComponent(m, c) {
      assert Reached(m, seeds, c);
      var i :| 0 <= i < |seeds| && Linked(m, seeds[i], c);
      LinkedSymmetric(m, seeds[i], c);
      assert FirstOfComponent(m, seeds[i]);
    }
  }

  lemma {:induction false} OrderedSeqsEqual(s: seq<Cell>, t: seq<Cell>)
    requires Ordered(s) && Ordered(t)
    requires forall c :: c in s <==> c in t
    ensures s == t
  {
    assert s != [] ==> s[0] in t;
    assert t != [] ==> t[0] in s;
    if s != [] {
      assert s[0] == t[0];
      forall c ensures c in s[1..] <==> c in t[1..] {
        if c in s[1..] {
          assert c in s && c in t;
          assert c != s[0];
        }
        if c in t[1..] {
          assert c in t && c in s;
          assert c != t[0];
        }
      }
      OrderedSeqsEqual(s[1..], t[1..]);
    }
  }

  lemma SeedsDetermined(m: set<Cell>, cellSize: int, seeds: seq<Cell>, regions: seq<Box>,
                        seeds': seq<Cell>, regions': seq<Box>)
    requires ExactRegions(m, cellSize, seeds, regions)
    requires ExactRegions(m, cellSize, seeds', regions')
    ensures seeds == seeds'
  {
    forall c ensures c in seeds <==> c in seeds' {
      SeedsAreFirsts(m, cellSize, seeds, regions, c);
      SeedsAreFirsts(m, cellSize, seeds', regions', c);
    }
    OrderedSeqsEqual(seeds, seeds');
  }

  lemma TightBoxUnique(comp: set<Cell>, cellSize: int, b: Box, b': Box)
    requires TightBox(comp, cellSize, b) && TightBox(comp, cellSize, b')
    ensures b == b'
  {
    var x0, y0, x1, y1 :| Spans(comp, x0, y0, x1, y1) && b == Scaled(cellSize, x0, y0, x1, y1);
    var u0, v0, u1, v1 :| Spans(comp, u0, v0, u1, v1) && b' == Scaled(cellSize, u0, v0, u1, v1);
    assert x0 == u0 && y0 == v0 && x1 == u1 && y1 == v1;
  }

  /** The specification leaves no freedom: it determines the list of boxes. */
  lemma RegionsDetermined(m: set<Cell>, cellSize: int, regions: seq<Box>, regions': seq<Box>)
    requires IsRegionList(m, cellSize, regions) && IsRegionList(m, cellSize, regions')
    ensures regions == regions'
  {
    var seeds :| ExactRegions(m, cellSize, seeds, regions);
    var seeds' :| ExactRegions(m, cellSize, seeds', regions');
    SeedsDetermined(m, cellSize, seeds, regions, seeds', regions');
    forall i | 0 <= i < |regions| ensures regions[i] == regions'[i] {
      TightBoxUnique(Component(m, seeds[i]), cellSize, regions[i], regions'[i]);
    }
  }
}
