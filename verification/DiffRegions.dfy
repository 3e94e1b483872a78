/** `detectDiffRegions`: marks the cells of a pixel grid and flood fills them with an
    explicit stack, in place on two boolean grids. */
module DiffRegions {
  import opened Basics
  import opened GridComponents

  /** Reading past the end of the buffer gives `undefined`, which is not `> 0`. */
  function Sample(data: seq<byte>, i: nat): byte {
    if i < |data| then data[i] else 0
  }

  predicate NonBlack(data: seq<byte>, width: nat, x: nat, y: nat) {
    var idx := (y * width + x) * 4;
    Sample(data, idx) > 0 || Sample(data, idx + 1) > 0 || Sample(data, idx + 2) > 0
  }

  function CellOf(x: nat, y: nat, cellSize: nat): Cell
    requires cellSize > 0
  {
    Cell(x / cellSize, y / cellSize)
  }

  ghost function MarkedCells(data: seq<byte>, width: nat, height: nat, cellSize: nat): set<Cell>
    requires cellSize > 0
  {
    set x: nat, y: nat | 0 <= x < width && 0 <= y < height && NonBlack(data, width, x, y) :: CellOf(x, y, cellSize)
  }

  /** In terms of the buffer: some colour byte (the fourth of each pixel is not one) of this pixel is set. */
  lemma NonBlackBytes(data: seq<byte>, width: nat, x: nat, y: nat)
    ensures NonBlack(data, width, x, y) <==>
      exists k: nat :: k < |data| && k / 4 == y * width + x && k % 4 < 3 && data[k] > 0
  {
    var p := y * width + x;
    if NonBlack(data, width, x, y) {
      var k := if Sample(data, p * 4) > 0 then p * 4 else if Sample(data, p * 4 + 1) > 0 then p * 4 + 1 else p * 4 + 2;
      assert k < |data| && k / 4 == p && k % 4 < 3 && data[k] > 0;
    }
    if k: nat :| k < |data| && k / 4 == p && k % 4 < 3 && data[k] > 0 {
      assert k == p * 4 || k == p * 4 + 1 || k == p * 4 + 2;
    }
  }

  function CeilDiv(a: nat, b: nat): nat
    requires b > 0
  {
    (a + b - 1) / b
  }

  lemma MulMonotone(k: nat, a: nat, b: nat)
    requires a <= b
    ensures k * a <= k * b
  {}

  lemma DivAtLeast(a: nat, k: nat, q: nat)
    requires k > 0 && k * q <= a
    ensures q <= a / k
  {
    if a / k + 1 <= q {
      MulMonotone(k, a / k + 1, q);
      assert false;
    }
  }

  lemma CellInGrid(x: nat, width: nat, cellSize: nat)
    requires cellSize > 0 && x < width
    ensures 0 <= x / cellSize < CeilDiv(width, cellSize)
  {
    var q := x / cellSize;
    assert cellSize * (q + 1) == cellSize * q + cellSize;
    DivAtLeast(width + cellSize - 1, cellSize, q + 1);
  }

  predicate InGrid(c: Cell, gridW: nat, gridH: nat) {
    0 <= c.x < gridW && 0 <= c.y < gridH
  }

  /** The boolean grid holds exactly the set `s`. */
  ghost predicate Shows(grid: array2<bool>, s: set<Cell>)
    reads grid
  {
    && (forall c :: c in s ==> InGrid(c, grid.Length1, grid.Length0))
    && (forall y, x :: 0 <= y < grid.Length0 && 0 <= x < grid.Length1 ==> (grid[y, x] <==> Cell(x, y) in s))
  }

  method MarkCells(data: seq<byte>, width: nat, height: nat, cellSize: nat, grid: array2<bool>)
    requires cellSize > 0
    requires grid.Length0 == CeilDiv(height, cellSize) && grid.Length1 == CeilDiv(width, cellSize)
    requires Shows(grid, {})
    modifies grid
    ensures Shows(grid, MarkedCells(data, width, height, cellSize))
  {
    ghost var all := MarkedCells(data, width, height, cellSize);
    ghost var seen: set<Cell> := {};
    for y := 0 to height
      invariant Shows(grid, seen) && seen <= all
      invariant forall x', y' :: 0 <= x' < width && 0 <= y' < y && NonBlack(data, width, x', y') ==> CellOf(x', y', cellSize) in seen
    {
      for x := 0 to width
        invariant Shows(grid, seen) && seen <= all
        invariant forall x', y' :: 0 <= x' < width && 0 <= y' < y && NonBlack(data, width, x', y') ==> CellOf(x', y', cellSize) in seen
        invariant forall x' :: 0 <= x' < x && NonBlack(data, width, x', y) ==> CellOf(x', y, cellSize) in seen
      {
        if NonBlack(data, width, x, y) {
          CellInGrid(x, width, cellSize);
          CellInGrid(y, height, cellSize);
          var gx, gy := x / cellSize, y / cellSize;
          grid[gy, gx] := true;
          assert CellOf(x, y, cellSize) in all;
          seen := seen + {Cell(gx, gy)};
        }
      }
    }
    assert all <= seen;
  }

  function Neighbours(c: Cell): (r: seq<Cell>)
    ensures |r| == 4
    ensures forall d :: Adjacent(c, d) <==> d in r
  {
    var r := [Cell(c.x - 1, c.y), Cell(c.x + 1, c.y), Cell(c.x, c.y - 1), Cell(c.x, c.y + 1)];
    assert forall d :: d in r <==> d == r[0] || d == r[1] || d == r[2] || d == r[3];
    r
  }

  ghost function Elements(s: seq<Cell>): set<Cell> {
    set c | c in s
  }

  /** The push loop over the four neighbours of one popped cell. */
  method PushNeighbours(grid: array2<bool>, visited: array2<bool>, c: Cell, stack0: seq<Cell>,
                        ghost m: set<Cell>, ghost v: set<Cell>)
    returns (stack: seq<Cell>, ghost added: seq<Cell>)
    requires grid != visited && grid.Length0 == visited.Length0 && grid.Length1 == visited.Length1
    requires Shows(grid, m) && Shows(visited, v) && v <= m
    modifies visited
    ensures Shows(visited, v + Elements(added))
    ensures stack == stack0 + added && Distinct(added)
    ensures forall d :: d in added <==> d in m && d !in v && Adjacent(c, d)
  {
    var neighbors := Neighbours(c);
    stack, added := stack0, [];
    for i := 0 to |neighbors|
      invariant Shows(visited, v + Elements(added)) && Shows(grid, m)
      invariant stack == stack0 + added && Distinct(added)
      invariant forall d :: d in added <==> d in m && d !in v && d in neighbors[..i]
    {
      var n := neighbors[i];
      assert neighbors[..i + 1] == neighbors[..i] + [n];
      if n.x >= 0 && n.x < grid.Length1 && n.y >= 0 && n.y < grid.Length0 && grid[n.y, n.x] && !visited[n.y, n.x] {
        assert n in m && n !in v && n !in added;
        visited[n.y, n.x] := true;
        stack := stack + [n];
        assert Elements(added + [n]) == Elements(added) + {n};
        added := added + [n];
      }
    }
    assert neighbors[..|neighbors|] == neighbors;
  }

  /** What the fill knows half-way: `comp` is linked to the seed, everything popped
      already has its marked neighbours, and `stack` holds what is not popped yet. */
  ghost predicate Filling(m: set<Cell>, v0: set<Cell>, seed: Cell, comp: set<Cell>, stack: seq<Cell>) {
    && seed in comp && comp <= m && comp !! v0
    && (forall c :: c in comp ==> Linked(m, seed, c))
    && Distinct(stack) && Elements(stack) <= comp
    && (forall c, d :: c in comp && c !in stack && d in m && Adjacent(c, d) ==> d in comp)
  }

  /** Side `a` of the running box: a bound of the popped cells that some cell attains. */
  ghost predicate BoxSoFar(comp: set<Cell>, stack: seq<Cell>, x0: int, y0: int, x1: int, y1: int) {
    && (forall c :: c in comp && c !in stack ==> x0 <= c.x <= x1 && y0 <= c.y <= y1)
    && (exists c :: c in comp && c.x == x0)
    && (exists c :: c in comp && c.x == x1)
    && (exists c :: c in comp && c.y == y0)
    && (exists c :: c in comp && c.y == y1)
  }

  lemma FillStep(m: set<Cell>, v0: set<Cell>, seed: Cell, comp: set<Cell>, stack: seq<Cell>, added: seq<Cell>)
    requires Filling(m, v0, seed, comp, stack) && |stack| > 0
    requires ClosedIn(m, v0) && Distinct(added)
    requires var c := stack[|stack| - 1];
      forall d :: d in added <==> d in m && d !in v0 + comp && Adjacent(c, d)
    ensures Filling(m, v0, seed, comp + Elements(added), stack[..|stack| - 1] + added)
  {
    var c, rest := stack[|stack| - 1], stack[..|stack| - 1];
    var comp', stack' := comp + Elements(added), rest + added;
    assert forall d :: d in stack <==> d == c || d in rest;
    forall d | d in comp' ensures Linked(m, seed, d) {
      if d in added {
        assert c in Elements(stack);
        LinkedStep(m, seed, c, d);
      }
    }
    forall a, d | a in comp' && a !in stack' && d in m && Adjacent(a, d) ensures d in comp' {
      if a == c {
        if d in v0 {
          assert Adjacent(d, a);
          assert false;
        }
      }
    }
    assert forall d :: d in rest ==> d in Elements(stack);
    assert forall d :: d in added ==> d !in comp;
    assert Distinct(stack') by {
      assert forall i :: 0 <= i < |rest| ==> rest[i] in comp;
    }
    assert Elements(stack') <= comp';
  }

  lemma BoxStep(comp: set<Cell>, stack: seq<Cell>, added: seq<Cell>, x0: int, y0: int, x1: int, y1: int)
    requires BoxSoFar(comp, stack, x0, y0, x1, y1) && |stack| > 0
    requires stack[|stack| - 1] in comp
    ensures var c := stack[|stack| - 1];
      BoxSoFar(comp + Elements(added), stack[..|stack| - 1] + added, Min(x0, c.x), Min(y0, c.y), Max(x1, c.x), Max(y1, c.y))
  {
    var c, rest := stack[|stack| - 1], stack[..|stack| - 1];
    var comp', stack' := comp + Elements(added), rest + added;
    assert forall d :: d in stack <==> d == c || d in rest;
    assert c in comp';
    forall d | d in comp' && d !in stack'
      ensures Min(x0, c.x) <= d.x <= Max(x1, c.x) && Min(y0, c.y) <= d.y <= Max(y1, c.y)
    {
      assert d in comp;
    }
    var a0 :| a0 in comp && a0.x == x0;
    var a1 :| a1 in comp && a1.x == x1;
    var b0 :| b0 in comp && b0.y == y0;
    var b1 :| b1 in comp && b1.y == y1;
    assert a0 in comp' && a1 in comp' && b0 in comp' && b1 in comp';
  }

  lemma FilledIsComponent(m: set<Cell>, v0: set<Cell>, seed: Cell, comp: set<Cell>)
    requires Filling(m, v0, seed, comp, [])
    ensures comp == Component(m, seed) && ClosedIn(m, comp)
  {
    forall c | c in Component(m, seed) ensures c in comp {
      ClosedHoldsLinked(m, comp, seed, c);
    }
  }

  ghost predicate FillInvariant(m: set<Cell>, v0: set<Cell>, seed: Cell, pushes: seq<Cell>, stack: seq<Cell>,
                                x0: int, y0: int, x1: int, y1: int) {
    && Distinct(pushes)
    && Filling(m, v0, seed, Elements(pushes), stack)
    && BoxSoFar(Elements(pushes), stack, x0, y0, x1, y1)
  }

  /** How many marked cells have not been pushed yet. */
  ghost function Left(m: set<Cell>, pushes: seq<Cell>): nat {
    |m - Elements(pushes)|
  }

  lemma {:induction false} SubsetSize(a: set<Cell>, b: set<Cell>)
    requires a <= b
    ensures |a| <= |b|
  {
    if a != {} {
      var c :| c in a;
      SubsetSize(a - {c}, b - {c});
    }
  }

  lemma SmallerSet(a: set<Cell>, b: set<Cell>, c: Cell)
    requires a <= b && c in b && c !in a
    ensures |a| < |b|
  {
    assert a <= b - {c};
    SubsetSize(a, b - {c});
  }

  /** Each turn of the fill either pushes new cells or only pops one. */
  lemma FillProgress(m: set<Cell>, pushes: seq<Cell>, added: seq<Cell>)
    requires forall d :: d in added ==> d in m && d !in Elements(pushes)
    ensures Left(m, pushes + added) < Left(m, pushes) || (added == [] && Left(m, pushes + added) == Left(m, pushes))
  {
    if added == [] {
      assert pushes + added == pushes;
    } else {
      assert added[0] in added && added[0] in pushes + added;
      SmallerSet(m - Elements(pushes + added), m - Elements(pushes), added[0]);
    }
  }

  lemma FillInvariantStep(m: set<Cell>, v0: set<Cell>, seed: Cell, pushes: seq<Cell>, stack: seq<Cell>,
                          x0: int, y0: int, x1: int, y1: int, added: seq<Cell>)
    requires FillInvariant(m, v0, seed, pushes, stack, x0, y0, x1, y1) && |stack| > 0
    requires ClosedIn(m, v0) && Distinct(added)
    requires var c := stack[|stack| - 1];
      forall d :: d in added <==> d in m && d !in v0 + Elements(pushes) && Adjacent(c, d)
    ensures var c := stack[|stack| - 1];
      FillInvariant(m, v0, seed, pushes + added, stack[..|stack| - 1] + added,
                    Min(x0, c.x), Min(y0, c.y), Max(x1, c.x), Max(y1, c.y))
    ensures v0 + Elements(pushes + added) == v0 + Elements(pushes) + Elements(added)
  {
    var comp := Elements(pushes);
    assert stack[|stack| - 1] in Elements(stack);
    FillStep(m, v0, seed, comp, stack, added);
    BoxStep(comp, stack, added, x0, y0, x1, y1);
    assert Elements(pushes + added) == comp + Elements(added);
    assert forall i :: 0 <= i < |pushes| ==> pushes[i] in comp;
  }

  lemma FillStart(m: set<Cell>, v0: set<Cell>, seed: Cell)
    requires seed in m && seed !in v0
    ensures FillInvariant(m, v0, seed, [seed], [seed], seed.x, seed.y, seed.x, seed.y)
    ensures Elements([seed]) == {seed}
  {
    LinkedRefl(m, seed);
    assert seed in Elements([seed]);
  }

  lemma FillEnd(m: set<Cell>, v0: set<Cell>, seed: Cell, pushes: seq<Cell>, x0: int, y0: int, x1: int, y1: int)
    requires FillInvariant(m, v0, seed, pushes, [], x0, y0, x1, y1)
    ensures Distinct(pushes) && Elements(pushes) == Component(m, seed)
    ensures Elements(pushes) !! v0 && ClosedIn(m, Elements(pushes))
    ensures Spans(Component(m, seed), x0, y0, x1, y1)
  {
    FilledIsComponent(m, v0, seed, Elements(pushes));
  }

  /** One flood fill. `pushes` lists every cell that was ever pushed. */
  method FloodFill(grid: array2<bool>, visited: array2<bool>, gx: nat, gy: nat, ghost m: set<Cell>, ghost v0: set<Cell>)
    returns (minX: int, minY: int, maxX: int, maxY: int, ghost pushes: seq<Cell>)
    requires grid != visited && grid.Length0 == visited.Length0 && grid.Length1 == visited.Length1
    requires Shows(grid, m) && Shows(visited, v0) && v0 <= m && ClosedIn(m, v0)
    requires Cell(gx, gy) in m && Cell(gx, gy) !in v0
    modifies visited
    ensures Distinct(pushes) && Elements(pushes) == Component(m, Cell(gx, gy))
    ensures Elements(pushes) !! v0 && ClosedIn(m, Elements(pushes))
    ensures Shows(visited, v0 + Elements(pushes))
    ensures Spans(Component(m, Cell(gx, gy)), minX, minY, maxX, maxY)
  {
    ghost var seed := Cell(gx, gy);
    minX, minY, maxX, maxY := gx, gy, gx, gy;
    var stack := [Cell(gx, gy)];
    visited[gy, gx] := true;
    pushes := [seed];
    FillStart(m, v0, seed);
    while |stack| > 0
      invariant Shows(grid, m) && Shows(visited, v0 + Elements(pushes))
      invariant FillInvariant(m, v0, seed, pushes, stack, minX, minY, maxX, maxY)
      decreases Left(m, pushes), |stack|
    {
      var c := stack[|stack| - 1];
      ghost var x0, y0, x1, y1 := minX, minY, maxX, maxY;
      minX, minY, maxX, maxY := Min(minX, c.x), Min(minY, c.y), Max(maxX, c.x), Max(maxY, c.y);
      var next, added := PushNeighbours(grid, visited, c, stack[..|stack| - 1], m, v0 + Elements(pushes));
      FillInvariantStep(m, v0, seed, pushes, stack, x0, y0, x1, y1, added);
      FillProgress(m, pushes, added);
      stack := next;
      pushes := pushes + added;
    }
    FillEnd(m, v0, seed, pushes, minX, minY, maxX, maxY);
  }

  ghost predicate VisitedSoFar(m: set<Cell>, v: set<Cell>, seeds: seq<Cell>, at: Cell) {
    && v <= m && ClosedIn(m, v)
    && (forall c :: c in m && Before(c, at) ==> c in v)
    && (forall c {:trigger Reached(m, seeds, c)} :: c in v ==> Reached(m, seeds, c))
  }

  ghost predicate BoxesSoFar(m: set<Cell>, cellSize: int, seeds: seq<Cell>, regions: seq<Box>, at: Cell) {
    && |seeds| == |regions|
    && (forall i :: 0 <= i < |seeds| ==> FirstOfComponent(m, seeds[i]) && Before(seeds[i], at))
    && Ordered(seeds)
    && (forall i :: 0 <= i < |seeds| ==> TightBox(Component(m, seeds[i]), cellSize, regions[i]))
  }

  /** What the scan knows when it stands at `at`: the regions found so far belong to the
      components whose first cell lies before `at`, and no marked cell before `at` is unvisited. */
  ghost predicate Scanned(m: set<Cell>, cellSize: int, v: set<Cell>, seeds: seq<Cell>, regions: seq<Box>, at: Cell) {
    VisitedSoFar(m, v, seeds, at) && BoxesSoFar(m, cellSize, seeds, regions, at)
  }

  lemma ScanAdvance(m: set<Cell>, cellSize: int, v: set<Cell>, seeds: seq<Cell>, regions: seq<Box>, at: Cell, next: Cell)
    requires Scanned(m, cellSize, v, seeds, regions, at)
    requires at in m ==> at in v
    requires Before(at, next) && forall c :: c in m && Before(c, next) ==> c == at || Before(c, at)
    ensures Scanned(m, cellSize, v, seeds, regions, next)
  {}

  lemma ClosedUnion(m: set<Cell>, a: set<Cell>, b: set<Cell>)
    requires ClosedIn(m, a) && ClosedIn(m, b)
    ensures ClosedIn(m, a + b)
  {}

  lemma ReachedAppend(m: set<Cell>, seeds: seq<Cell>, at: Cell, c: Cell)
    ensures Reached(m, seeds, c) || Linked(m, at, c) ==> Reached(m, seeds + [at], c)
  {
    var seeds' := seeds + [at];
    assert seeds'[|seeds|] == at;
    if Reached(m, seeds, c) {
      var i :| 0 <= i < |seeds| && Linked(m, seeds[i], c);
      assert seeds'[i] == seeds[i];
    }
  }

  lemma VisitedFound(m: set<Cell>, v: set<Cell>, seeds: seq<Cell>, at: Cell, next: Cell)
    requires VisitedSoFar(m, v, seeds, at)
    requires at in m && ClosedIn(m, Component(m, at))
    requires forall c :: c in m && Before(c, next) ==> c == at || Before(c, at)
    ensures VisitedSoFar(m, v + Component(m, at), seeds + [at], next)
  {
    var v', seeds' := v + Component(m, at), seeds + [at];
    LinkedRefl(m, at);
    forall c | c in v' ensures Reached(m, seeds', c) {
      ReachedAppend(m, seeds, at, c);
      assert c in v ==> Reached(m, seeds, c);
    }
    ClosedUnion(m, v, Component(m, at));
  }

  lemma OrderedAppend(seeds: seq<Cell>, at: Cell)
    requires Ordered(seeds) && forall i :: 0 <= i < |seeds| ==> Before(seeds[i], at)
    ensures Ordered(seeds + [at])
  {}

  lemma TightAppend(m: set<Cell>, cellSize: int, seeds: seq<Cell>, regions: seq<Box>, at: Cell, box: Box)
    requires |seeds| == |regions| && TightBox(Component(m, at), cellSize, box)
    requires forall i :: 0 <= i < |seeds| ==> TightBox(Component(m, seeds[i]), cellSize, regions[i])
    ensures forall i :: 0 <= i <= |seeds| ==> TightBox(Component(m, (seeds + [at])[i]), cellSize, (regions + [box])[i])
  {
    forall i | 0 <= i <= |seeds| ensures TightBox(Component(m, (seeds + [at])[i]), cellSize, (regions + [box])[i]) {
      if i < |seeds| { assert (seeds + [at])[i] == seeds[i] && (regions + [box])[i] == regions[i]; }
    }
  }

  lemma BoxesFound(m: set<Cell>, cellSize: int, seeds: seq<Cell>, regions: seq<Box>, at: Cell, next: Cell, box: Box)
    requires BoxesSoFar(m, cellSize, seeds, regions, at)
    requires FirstOfComponent(m, at) && Before(at, next) && TightBox(Component(m, at), cellSize, box)
    ensures BoxesSoFar(m, cellSize, seeds + [at], regions + [box], next)
  {
    OrderedAppend(seeds, at);
    TightAppend(m, cellSize, seeds, regions, at, box);
  }

  lemma NewSeedIsFirst(m: set<Cell>, v: set<Cell>, at: Cell)
    requires at in m && Component(m, at) !! v && forall c :: c in m && Before(c, at) ==> c in v
    ensures FirstOfComponent(m, at)
  {
    forall c | c in m && Linked(m, at, c) ensures c == at || Before(at, c) {
      assert c in Component(m, at) && c !in v;
    }
  }

  lemma AppendDistinct(p: seq<Cell>, q: seq<Cell>)
    requires Distinct(p) && Distinct(q) && Elements(p) !! Elements(q)
    ensures Distinct(p + q) && Elements(p + q) == Elements(p) + Elements(q)
  {
    forall i, j | 0 <= i < |p| && 0 <= j < |q| ensures p[i] != q[j] {
      assert p[i] in Elements(p) && q[j] in Elements(q);
    }
  }

  /** A new component has been filled: the scan moves on with its seed and box appended. */
  lemma ScanFound(m: set<Cell>, cellSize: int, pushes: seq<Cell>, filled: seq<Cell>, seeds: seq<Cell>, regions: seq<Box>,
                  at: Cell, next: Cell, box: Box)
    requires Scanned(m, cellSize, Elements(pushes), seeds, regions, at)
    requires Distinct(pushes) && Distinct(filled)
    requires at in m && Elements(filled) == Component(m, at)
    requires Elements(filled) !! Elements(pushes) && ClosedIn(m, Elements(filled))
    requires TightBox(Component(m, at), cellSize, box)
    requires Before(at, next) && forall c :: c in m && Before(c, next) ==> c == at || Before(c, at)
    ensures Scanned(m, cellSize, Elements(pushes + filled), seeds + [at], regions + [box], next)
    ensures Distinct(pushes + filled) && Elements(pushes + filled) == Elements(pushes) + Elements(filled)
  {
    NewSeedIsFirst(m, Elements(pushes), at);
    VisitedFound(m, Elements(pushes), seeds, at, next);
    BoxesFound(m, cellSize, seeds, regions, at, next, box);
    AppendDistinct(pushes, filled);
  }

  /** The body of the scan at one grid cell. */
  method ScanCell(grid: array2<bool>, visited: array2<bool>, gx: nat, gy: nat, cellSize: nat, regions0: seq<Box>,
                  ghost m: set<Cell>, ghost seeds0: seq<Cell>, ghost pushes0: seq<Cell>)
    returns (regions: seq<Box>, ghost seeds: seq<Cell>, ghost pushes: seq<Cell>)
    requires grid != visited && grid.Length0 == visited.Length0 && grid.Length1 == visited.Length1
    requires gy < grid.Length0 && gx < grid.Length1
    requires Shows(grid, m) && Shows(visited, Elements(pushes0)) && Distinct(pushes0)
    requires Scanned(m, cellSize, Elements(pushes0), seeds0, regions0, Cell(gx, gy))
    modifies visited
    ensures Shows(visited, Elements(pushes)) && Distinct(pushes)
    ensures Scanned(m, cellSize, Elements(pushes), seeds, regions, Cell(gx + 1, gy))
  {
    regions, seeds, pushes := regions0, seeds0, pushes0;
    if grid[gy, gx] && !visited[gy, gx] {
      var minX, minY, maxX, maxY, filled := FloodFill(grid, visited, gx, gy, m, Elements(pushes));
      var box := Box(minX * cellSize, minY * cellSize, (maxX - minX + 1) * cellSize, (maxY - minY + 1) * cellSize);
      assert box == Scaled(cellSize, minX, minY, maxX, maxY);
      ScanFound(m, cellSize, pushes, filled, seeds, regions, Cell(gx, gy), Cell(gx + 1, gy), box);
      regions, seeds, pushes := regions + [box], seeds + [Cell(gx, gy)], pushes + filled;
    } else {
      ScanAdvance(m, cellSize, Elements(pushes), seeds, regions, Cell(gx, gy), Cell(gx + 1, gy));
    }
  }

  lemma ScanEnd(m: set<Cell>, cellSize: int, v: set<Cell>, seeds: seq<Cell>, regions: seq<Box>, gridW: nat, gridH: nat)
    requires Scanned(m, cellSize, v, seeds, regions, Cell(0, gridH))
    requires forall c :: c in m ==> InGrid(c, gridW, gridH)
    ensures v == m && ExactRegions(m, cellSize, seeds, regions)
  {
    assert m <= v;
  }

  /** The whole analysis. The result is the list of boxes of the components of the marked cells
      (and `RegionsDetermined` says there is only one such list); `pushes` records every cell
      put on a stack, each once, and together they are the marked cells. */
  method DetectDiffRegions(data: seq<byte>, width: nat, height: nat, cellSize: nat)
    returns (regions: seq<Box>, ghost pushes: seq<Cell>)
    requires cellSize > 0
    ensures IsRegionList(MarkedCells(data, width, height, cellSize), cellSize, regions)
    ensures Distinct(pushes) && Elements(pushes) == MarkedCells(data, width, height, cellSize)
  {
    var gridW, gridH := CeilDiv(width, cellSize), CeilDiv(height, cellSize);
    var grid := new bool[gridH, gridW]((_, _) => false);
    var visited := new bool[gridH, gridW]((_, _) => false);
    ghost var m := MarkedCells(data, width, height, cellSize);
    MarkCells(data, width, height, cellSize, grid);
    regions, pushes := [], [];
    ghost var seeds: seq<Cell> := [];
    assert Elements(pushes) == {};
    for gy := 0 to gridH
      invariant Shows(grid, m) && Shows(visited, Elements(pushes))
      invariant Distinct(pushes)
      invariant Scanned(m, cellSize, Elements(pushes), seeds, regions, Cell(0, gy))
    {
      for gx := 0 to gridW
        invariant Shows(grid, m) && Shows(visited, Elements(pushes))
        invariant Distinct(pushes)
        invariant Scanned(m, cellSize, Elements(pushes), seeds, regions, Cell(gx, gy))
      {
        regions, seeds, pushes := ScanCell(grid, visited, gx, gy, cellSize, regions, m, seeds, pushes);
      }
      ScanAdvance(m, cellSize, Elements(pushes), seeds, regions, Cell(gridW, gy), Cell(0, gy + 1));
    }
    ScanEnd(m, cellSize, Elements(pushes), seeds, regions, gridW, gridH);
  }

  predicate Contains(b: Box, x: int, y: int) {
    b.x <= x < b.x + b.width && b.y <= y < b.y + b.height
  }

  lemma PixelInSpan(p: nat, cellSize: nat, lo: int, hi: int)
    requires cellSize > 0 && lo <= p / cellSize <= hi
    ensures lo * cellSize <= p < lo * cellSize + (hi - lo + 1) * cellSize
  {
    var q := p / cellSize;
    assert p == q * cellSize + p % cellSize;
    assert lo * cellSize + (hi - lo + 1) * cellSize == (hi + 1) * cellSize;
    assert (q - lo) * cellSize >= 0;
    assert (hi - q) * cellSize >= 0;
  }

  lemma PixelInTightBox(comp: set<Cell>, cellSize: nat, b: Box, x: nat, y: nat)
    requires cellSize > 0 && CellOf(x, y, cellSize) in comp && TightBox(comp, cellSize, b)
    ensures Contains(b, x, y)
  {
    var x0, y0, x1, y1 :| Spans(comp, x0, y0, x1, y1) && b == Scaled(cellSize, x0, y0, x1, y1);
    PixelInSpan(x, cellSize, x0, x1);
    PixelInSpan(y, cellSize, y0, y1);
  }

  /** Every non-black pixel lies inside one of the reported boxes. */
  lemma NonBlackPixelsCovered(data: seq<byte>, width: nat, height: nat, cellSize: nat, regions: seq<Box>, x: nat, y: nat)
    requires cellSize > 0 && x < width && y < height && NonBlack(data, width, x, y)
    requires IsRegionList(MarkedCells(data, width, height, cellSize), cellSize, regions)
    ensures exists i :: 0 <= i < |regions| && Contains(regions[i], x, y)
  {
    var m, c := MarkedCells(data, width, height, cellSize), CellOf(x, y, cellSize);
    assert c in m;
    var seeds :| ExactRegions(m, cellSize, seeds, regions);
    assert Reached(m, seeds, c);
    var i :| 0 <= i < |seeds| && Linked(m, seeds[i], c);
    PixelInTightBox(Component(m, seeds[i]), cellSize, regions[i], x, y);
  }
}
