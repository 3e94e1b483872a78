/** Building the serialised tree from the live one, and finding nodes and elements by index path. */
module AxPaths {
  import opened Basics
  import SeqFacts
  import opened AxPathText
  import opened AxTree
  import opened Decimal

  /** A live element; `handle` tells apart elements that look alike. */
  datatype Element = Element(handle: int, role: string, axLabel: Option<string>, value: Option<string>,
                             identifier: Option<string>, traits: seq<string>, frame: Option<Frame>, children: seq<Element>)

  // ---- buildNode ----

  /** Children are left out at the depth limit. A node without children has none listed, so `[]`
      stands for the omitted list. */
  function Build(e: Element, path: string, maxDepth: int, depth: nat): AXNode
    decreases e
  {
    AXNode(e.role, e.axLabel, e.value, e.identifier, e.traits, e.frame, path,
           if depth < maxDepth then BuildAll(e.children, path, maxDepth, depth + 1) else [])
  }

  /** The children, each numbered by its position. */
  function BuildAll(es: seq<Element>, path: string, maxDepth: int, depth: nat): (r: seq<AXNode>)
    decreases es
  {
    seq(|es|, i requires 0 <= i < |es| => Build(es[i], Extend(path, i), maxDepth, depth))
  }

  // ---- navigateToPath ----

  /** `Trap` is the run-time failure of a negative array index. */
  datatype NavResult = Found(node: AXNode) | NotFound | Trap

  function NavigateToPath(node: AXNode, path: string): NavResult
    decreases node
  {
    if path == "" || path == node.path then Found(node)
    else
      var target, here := Split(path), |Split(node.path)|;
      if |target| == here then Found(node)
      else if node.children == [] || |target| <= here then NotFound
      else Descend(node, ParseInt(target[here]), path)
  }

  /** Into the child that one component of the path names. */
  function Descend(node: AXNode, i: Option<int>, path: string): NavResult
    requires node.children != []
    decreases node, 0
  {
    if i.None? || i.value >= |node.children| then NotFound
    else if i.value < 0 then Trap
    else NavigateToPath(node.children[i.value], path)
  }

  // ---- resolveLiveElement ----

  /** Following components one by one from `e`. */
  function Walk(e: Element, comps: seq<string>): Option<Element>
    decreases |comps|
  {
    if comps == [] then Some(e)
    else
      match ParseInt(comps[0])
      case None => None
      case Some(i) => if 0 <= i < |e.children| then Walk(e.children[i], comps[1..]) else None
  }

  method ResolveLiveElement(root: Element, path: string) returns (r: Option<Element>)
    ensures r == Walk(root, Split(path))
  {
    if path == "" { return Some(root); }
    var components := Split(path);
    var current := root;
    assert components[0..] == components;
    for k := 0 to |components|
      invariant Walk(current, components[k..]) == Walk(root, components)
    {
      assert components[k..][1..] == components[k + 1..];
      var idx := ParseInt(components[k]);
      if idx.None? { return None; }
      var children := current.children;
      if !(idx.value >= 0 && idx.value < |children|) { return None; }
      current := children[idx.value];
    }
    return Some(current);
  }

  // ---- agreement ----

  /** The index path that `comps` spells below `e`, as far as it resolves. */
  function Spelled(e: Element, comps: seq<string>): seq<nat>
    requires Walk(e, comps).Some?
    decreases |comps|
  {
    if comps == [] then [] else [ParseInt(comps[0]).value] + Spelled(e.children[ParseInt(comps[0]).value], comps[1..])
  }

  /** A component is negative where the walk has reached an element with children. */
  predicate HitsNegative(e: Element, comps: seq<string>)
    decreases |comps|
  {
    comps != [] && e.children != [] && ParseInt(comps[0]).Some? &&
    var i := ParseInt(comps[0]).value;
    i < 0 || (i < |e.children| && HitsNegative(e.children[i], comps[1..]))
  }

  /** The components that navigating from depth `depth` gets to see. */
  function Visible(comps: seq<string>, maxDepth: int, depth: nat): seq<string> {
    comps[..Min(|comps|, Max(0, maxDepth - depth))]
  }

  /** What navigating must give, from the live tree alone: `e` is the element at index path `ix`. */
  function Expected(e: Element, comps: seq<string>, ix: seq<nat>, maxDepth: int): NavResult {
    if HitsNegative(e, Visible(comps, maxDepth, |ix|)) then Trap
    else if Visible(comps, maxDepth, |ix|) != comps || Walk(e, comps).None? then NotFound
    else Found(Build(Walk(e, comps).value, PathOf(ix + Spelled(e, comps)), maxDepth, |ix| + |comps|))
  }

  /** One level of `navigateToPath` at the node of index path `ix`. */
  lemma NavigateLevel(node: AXNode, path: string, ix: seq<nat>)
    requires node.path == PathOf(ix) && |Split(path)| >= |ix|
    ensures NavigateToPath(node, path) ==
      if |Split(path)| == |ix| then Found(node)
      else if node.children == [] then NotFound
      else Descend(node, ParseInt(Split(path)[|ix|]), path)
  {
    SplitPath(ix);
    var target, here := Split(path), |Split(node.path)|;
    assert here == |ix|;
    assert path == "" ==> |target| == 0;
    assert path == node.path ==> |target| == here;
  }

  lemma VisibleStep(comps: seq<string>, maxDepth: int, depth: nat)
    requires comps != [] && depth < maxDepth
    ensures var seen := Visible(comps, maxDepth, depth);
      && seen != [] && seen[0] == comps[0] && seen[1..] == Visible(comps[1..], maxDepth, depth + 1)
      && (seen == comps <==> seen[1..] == comps[1..])
  {
    SeqFacts.Cons(Visible(comps, maxDepth, depth));
    SeqFacts.Cons(comps);
  }

  lemma NegativeStep(e: Element, comps: seq<string>, maxDepth: int, depth: nat)
    requires comps != [] && depth < maxDepth
    ensures HitsNegative(e, Visible(comps, maxDepth, depth)) <==>
      && e.children != [] && ParseInt(comps[0]).Some?
      && var i := ParseInt(comps[0]).value;
        i < 0 || (i < |e.children| && HitsNegative(e.children[i], Visible(comps[1..], maxDepth, depth + 1)))
  {
    VisibleStep(comps, maxDepth, depth);
  }

  lemma ExpectedDeeper(e: Element, i: nat, comps: seq<string>, ix: seq<nat>, maxDepth: int)
    requires comps != [] && |ix| < maxDepth && i < |e.children| && ParseInt(comps[0]) == Some(i)
    ensures Expected(e, comps, ix, maxDepth) == Expected(e.children[i], comps[1..], ix + [i], maxDepth)
  {
    NegativeStep(e, comps, maxDepth, |ix|);
    VisibleStep(comps, maxDepth, |ix|);
    if Walk(e, comps).Some? {
      assert ix + Spelled(e, comps) == (ix + [i]) + Spelled(e.children[i], comps[1..]);
    }
  }

  lemma ExpectedStep(e: Element, comps: seq<string>, ix: seq<nat>, maxDepth: int)
    requires comps != [] && |ix| < maxDepth
    ensures Expected(e, comps, ix, maxDepth) ==
      if e.children == [] || ParseInt(comps[0]).None? || ParseInt(comps[0]).value >= |e.children| then NotFound
      else if ParseInt(comps[0]).value < 0 then Trap
      else Expected(e.children[ParseInt(comps[0]).value], comps[1..], ix + [ParseInt(comps[0]).value], maxDepth)
  {
    NegativeStep(e, comps, maxDepth, |ix|);
    if e.children != [] && ParseInt(comps[0]).Some? && 0 <= ParseInt(comps[0]).value < |e.children| {
      ExpectedDeeper(e, ParseInt(comps[0]).value, comps, ix, maxDepth);
    }
  }

  /** The child that a component in range selects. */
  lemma DescendInto(e: Element, i: nat, path: string, ix: seq<nat>, maxDepth: int)
    requires i < |e.children| && |ix| < maxDepth
    ensures var node := Build(e, PathOf(ix), maxDepth, |ix|);
      node.children != []
      && Descend(node, Some(i), path) == NavigateToPath(Build(e.children[i], PathOf(ix + [i]), maxDepth, |ix + [i]|), path)
  {
    assert (ix + [i])[..|ix|] == ix;
  }

  /** One level of navigating a node that was built above the limit. */
  lemma NavigateOne(e: Element, path: string, ix: seq<nat>, maxDepth: int)
    requires |ix| < |Split(path)| && |ix| < maxDepth
    ensures var i := ParseInt(Split(path)[|ix|]);
      NavigateToPath(Build(e, PathOf(ix), maxDepth, |ix|), path) ==
        if e.children == [] || i.None? || i.value >= |e.children| then NotFound
        else if i.value < 0 then Trap
        else NavigateToPath(Build(e.children[i.value], PathOf(ix + [i.value]), maxDepth, |ix| + 1), path)
  {
    var node, i := Build(e, PathOf(ix), maxDepth, |ix|), ParseInt(Split(path)[|ix|]);
    NavigateLevel(node, path, ix);
    assert node.children == BuildAll(e.children, PathOf(ix), maxDepth, |ix| + 1);
    if i.Some? && 0 <= i.value < |e.children| {
      DescendInto(e, i.value, path, ix, maxDepth);
    }
  }

  lemma NavigateLimit(e: Element, path: string, ix: seq<nat>, maxDepth: int)
    requires |ix| < |Split(path)| && |ix| >= maxDepth
    ensures NavigateToPath(Build(e, PathOf(ix), maxDepth, |ix|), path) == NotFound
  {
    NavigateLevel(Build(e, PathOf(ix), maxDepth, |ix|), path, ix);
  }

  lemma {:induction false} NavigateBelow(e: Element, path: string, ix: seq<nat>, maxDepth: int)
    requires |ix| <= |Split(path)|
    ensures NavigateToPath(Build(e, PathOf(ix), maxDepth, |ix|), path) == Expected(e, Split(path)[|ix|..], ix, maxDepth)
    decreases |Split(path)| - |ix|
  {
    var comps := Split(path);
    var rest := comps[|ix|..];
    if |comps| == |ix| {
      NavigateLevel(Build(e, PathOf(ix), maxDepth, |ix|), path, ix);
      SeqFacts.Nil(ix);
      assert rest == [] && Visible(rest, maxDepth, |ix|) == [];
    } else if |ix| >= maxDepth {
      NavigateLimit(e, path, ix, maxDepth);
      assert Visible(rest, maxDepth, |ix|) == [];
    } else {
      NavigateOne(e, path, ix, maxDepth);
      ExpectedStep(e, rest, ix, maxDepth);
      var parsed := ParseInt(rest[0]);
      if parsed.Some? && 0 <= parsed.value < |e.children| {
        assert rest[1..] == comps[|ix| + 1..] && |ix + [parsed.value]| == |ix| + 1;
        NavigateBelow(e.children[parsed.value], path, ix + [parsed.value], maxDepth);
      }
    }
  }

  lemma {:induction false} NegativeIsDead(e: Element, comps: seq<string>, n: nat)
    requires n <= |comps|
    ensures HitsNegative(e, comps[..n]) ==> Walk(e, comps).None?
    decreases n
  {
    if HitsNegative(e, comps[..n]) && ParseInt(comps[0]).value >= 0 {
      assert comps[..n][1..] == comps[1..][..n - 1];
      NegativeIsDead(e.children[ParseInt(comps[0]).value], comps[1..], n - 1);
    }
  }

  /** `nav` is nothing where the live walk finds nothing, and otherwise the node built from the
      element that the walk finds. */
  ghost predicate Answers(nav: NavResult, root: Element, comps: seq<string>, maxDepth: int) {
    match Walk(root, comps)
    case None => nav == NotFound
    case Some(e) => nav == Found(Build(e, PathOf(Spelled(root, comps)), maxDepth, |comps|))
  }

  lemma ExpectedAnswers(root: Element, comps: seq<string>, maxDepth: int)
    ensures Answers(Expected(root, comps, [], maxDepth), root, comps, maxDepth) <==>
      && !HitsNegative(root, Visible(comps, maxDepth, 0))
      && !(|comps| > Max(0, maxDepth) && Walk(root, comps).Some?)
  {
    var seen := Visible(comps, maxDepth, 0);
    assert seen == comps <==> |comps| <= Max(0, maxDepth);
    NegativeIsDead(root, comps, |seen|);
    if Walk(root, comps).Some? {
      SeqFacts.Nil(Spelled(root, comps));
    }
  }

  /** Main result, for every tree, path text and depth limit. What navigating the dump gives is a function
      of the live tree: a trap exactly on a negative component that it gets to see, and otherwise
      the node built from the element that the path names, unless that lies below the limit. So dump
      and live tree answer alike except exactly for such a component, and for a path
      with more components than the limit that does name a live element. */
  lemma NavigateAgreesWithLive(root: Element, path: string, maxDepth: int)
    ensures var nav, comps := NavigateToPath(Build(root, "", maxDepth, 0), path), Split(path);
      && nav == Expected(root, comps, [], maxDepth)
      && (Answers(nav, root, comps, maxDepth) <==>
           && !HitsNegative(root, Visible(comps, maxDepth, 0))
           && !(|comps| > Max(0, maxDepth) && Walk(root, comps).Some?))
  {
    assert PathOf([]) == "" && Split(path)[0..] == Split(path);
    NavigateBelow(root, path, [], maxDepth);
    ExpectedAnswers(root, Split(path), maxDepth);
  }

  lemma NegativeOneParses()
    ensures Split("-1") == ["-1"] && ParseInt("-1") == Some(-1)
  {
    SplitSegment("-1");
    var d := "1";
    assert "-1"[1..] == d && d[..0] == "" && Value("") == 0;
  }

  /** The trap is real: "-1" below any root that has children, whatever the limit above 0. */
  lemma NegativeTraps(root: Element, maxDepth: int)
    requires root.children != [] && maxDepth > 0
    ensures NavigateToPath(Build(root, "", maxDepth, 0), "-1") == Trap && Walk(root, Split("-1")).None?
  {
    NegativeOneParses();
    NavigateAgreesWithLive(root, "-1", maxDepth);
    assert Visible(["-1"], maxDepth, 0) == ["-1"];
  }

  // ---- round trip ----

  function ElementAt(e: Element, ix: seq<nat>): Option<Element> {
    if ix == [] then Some(e)
    else if ix[0] < |e.children| then ElementAt(e.children[ix[0]], ix[1..])
    else None
  }

  lemma {:induction false} WalkTexts(e: Element, ix: seq<nat>)
    ensures Walk(e, Texts(ix)) == ElementAt(e, ix)
    ensures ElementAt(e, ix).Some? ==> Spelled(e, Texts(ix)) == ix && !HitsNegative(e, Texts(ix))
    decreases |ix|
  {
    if ix != [] {
      ParsePrint(ix[0]);
      assert Texts(ix)[1..] == Texts(ix[1..]);
      if ix[0] < |e.children| {
        WalkTexts(e.children[ix[0]], ix[1..]);
      }
    }
  }

  /** An element below the depth limit is found by the live walk under its printed path, but never in the dump. */
  lemma BelowLimitPart(root: Element, ix: seq<nat>, maxDepth: int)
    requires |ix| > Max(0, maxDepth) && ElementAt(root, ix).Some?
    ensures Walk(root, Split(PathOf(ix))) == ElementAt(root, ix)
    ensures NavigateToPath(Build(root, "", maxDepth, 0), PathOf(ix)) == NotFound
  {
    SplitPath(ix);
    WalkTexts(root, ix);
    assert |Texts(ix)| == |ix|;
    NavigateAgreesWithLive(root, PathOf(ix), maxDepth);
    NegativeIsDead(root, Texts(ix), |Visible(Texts(ix), maxDepth, 0)|);
  }

  /** `n` was built from the element at index path `ix`. */
  ghost predicate BuiltAt(root: Element, maxDepth: int, n: AXNode, ix: seq<nat>) {
    && |ix| <= Max(0, maxDepth) && ElementAt(root, ix).Some?
    && n == Build(ElementAt(root, ix).value, PathOf(ix), maxDepth, |ix|)
  }

  lemma {:induction false} ElementAtAppend(e: Element, a: seq<nat>, b: seq<nat>)
    requires ElementAt(e, a).Some?
    ensures ElementAt(e, a + b) == ElementAt(ElementAt(e, a).value, b)
    decreases |a|
  {
    if a == [] {
      assert a + b == b;
    } else {
      assert (a + b)[1..] == a[1..] + b;
      ElementAtAppend(e.children[a[0]], a[1..], b);
    }
  }

  /** Every node of the built tree is the node of some index path. */
  lemma {:induction false} NodesAreBuilt(root: Element, maxDepth: int, ix: seq<nat>, n: AXNode)
    requires |ix| <= Max(0, maxDepth) && ElementAt(root, ix).Some?
    requires n in Preorder(Build(ElementAt(root, ix).value, PathOf(ix), maxDepth, |ix|))
    ensures exists jx :: BuiltAt(root, maxDepth, n, jx)
    decreases Max(0, maxDepth) - |ix|, 1, 0
  {
    var e := ElementAt(root, ix).value;
    var top := Build(e, PathOf(ix), maxDepth, |ix|);
    if n == top {
      assert BuiltAt(root, maxDepth, n, ix);
    } else {
      assert BuildAll(e.children, PathOf(ix), maxDepth, |ix| + 1)[0..] == top.children;
      ChildNodesAreBuilt(root, maxDepth, ix, 0, n);
    }
  }

  /** The k-th built child is the node of the extended index path. */
  lemma ChildIsBuilt(root: Element, maxDepth: int, ix: seq<nat>, k: nat)
    requires ElementAt(root, ix).Some? && k < |ElementAt(root, ix).value.children|
    ensures ElementAt(root, ix + [k]) == Some(ElementAt(root, ix).value.children[k])
    ensures BuildAll(ElementAt(root, ix).value.children, PathOf(ix), maxDepth, |ix| + 1)[k]
      == Build(ElementAt(root, ix).value.children[k], PathOf(ix + [k]), maxDepth, |ix + [k]|)
  {
    var e := ElementAt(root, ix).value;
    ElementAtAppend(root, ix, [k]);
    assert [k][1..] == [] && ElementAt(e, [k]) == ElementAt(e.children[k], []);
    assert (ix + [k])[..|ix|] == ix;
  }

  lemma {:induction false} ChildNodesAreBuilt(root: Element, maxDepth: int, ix: seq<nat>, k: nat, n: AXNode)
    requires |ix| < maxDepth && ElementAt(root, ix).Some? && k <= |ElementAt(root, ix).value.children|
    requires n in PreorderAll(BuildAll(ElementAt(root, ix).value.children, PathOf(ix), maxDepth, |ix| + 1)[k..])
    ensures exists jx :: BuiltAt(root, maxDepth, n, jx)
    decreases Max(0, maxDepth) - |ix|, 0, |ElementAt(root, ix).value.children| - k
  {
    var all := BuildAll(ElementAt(root, ix).value.children, PathOf(ix), maxDepth, |ix| + 1);
    if k < |all| {
      SeqFacts.Cons(all[k..]);
      assert all[k..][1..] == all[k + 1..];
      if n in Preorder(all[k]) {
        ChildIsBuilt(root, maxDepth, ix, k);
        NodesAreBuilt(root, maxDepth, ix + [k], n);
      } else {
        ChildNodesAreBuilt(root, maxDepth, ix, k + 1, n);
      }
    }
  }

  /** Main result: for every node of the dump, its printed path leads `navigateToPath` back to that very
      node, leads the live walk to the element it was built from, and belongs to no other index path. */
  lemma PrintedPathsResolve(root: Element, maxDepth: int, n: AXNode)
    requires n in Preorder(Build(root, "", maxDepth, 0))
    ensures NavigateToPath(Build(root, "", maxDepth, 0), n.path) == Found(n)
    ensures exists ix :: BuiltAt(root, maxDepth, n, ix) && Walk(root, Split(n.path)) == ElementAt(root, ix)
                     && forall jx :: PathOf(jx) == n.path ==> jx == ix
  {
    NodesAreBuilt(root, maxDepth, [], n);
    var ix :| BuiltAt(root, maxDepth, n, ix);
    SplitPath(ix);
    WalkTexts(root, ix);
    assert Visible(Texts(ix), maxDepth, 0) == Texts(ix);
    NavigateAgreesWithLive(root, n.path, maxDepth);
    assert [] + Spelled(root, Texts(ix)) == ix;
    forall jx | PathOf(jx) == n.path ensures jx == ix {
      PathInjective(jx, ix);
    }
  }

  /** What a node of the dump shows of its element: every attribute in its own place, the printed path, and
      all children unless the limit cuts them off. */
  lemma NodeShowsElement(root: Element, maxDepth: int, n: AXNode, ix: seq<nat>)
    requires BuiltAt(root, maxDepth, n, ix)
    ensures var e := ElementAt(root, ix).value;
      && n.role == e.role && n.axLabel == e.axLabel && n.value == e.value && n.identifier == e.identifier
      && n.traits == e.traits && n.frame == e.frame && n.path == PathOf(ix)
      && |n.children| == (if |ix| < maxDepth then |e.children| else 0)
      && forall k :: 0 <= k < |n.children| ==> n.children[k].path == PathOf(ix + [k])
  {
    var e := ElementAt(root, ix).value;
    assert n.children == if |ix| < maxDepth then BuildAll(e.children, PathOf(ix), maxDepth, |ix| + 1) else [];
    forall k: nat | k < |n.children| ensures n.children[k].path == PathOf(ix + [k]) {
      ChildIsBuilt(root, maxDepth, ix, k);
    }
  }

  // ---- collectMatches ----

  function Flat(n: AXNode): AXNode { n.(children := []) }

  function Matches(matches: AXNode -> bool, ns: seq<AXNode>): seq<AXNode> {
    if ns == [] then [] else (if matches(ns[0]) then [Flat(ns[0])] else []) + Matches(matches, ns[1..])
  }

  lemma {:induction false} MatchesAppend(matches: AXNode -> bool, a: seq<AXNode>, b: seq<AXNode>)
    ensures Matches(matches, a + b) == Matches(matches, a) + Matches(matches, b)
    decreases |a|
  {
    if a == [] {
      SeqFacts.Nil(b);
      SeqFacts.Nil(Matches(matches, b));
    } else {
      SeqFacts.Tail(a, b);
      MatchesAppend(matches, a[1..], b);
      var head := if matches(a[0]) then [Flat(a[0])] else [];
      SeqFacts.Assoc(head, Matches(matches, a[1..]), Matches(matches, b));
    }
  }

  /** `found` cut to `max` entries, except that what was there already stays. */
  function Capped(already: seq<AXNode>, more: seq<AXNode>, max: int): seq<AXNode> {
    already + if |already| >= max then [] else if |more| <= max - |already| then more else more[..max - |already|]
  }

  lemma CappedTwice(r: seq<AXNode>, a: seq<AXNode>, b: seq<AXNode>, max: int)
    ensures Capped(Capped(r, a, max), b, max) == Capped(r, a + b, max)
  {}

  /** Appends the first matches in pre-order, stripped of children, up to the limit. */
  method CollectMatches(node: AXNode, matches: AXNode -> bool, results0: seq<AXNode>, maxResults: int) returns (results: seq<AXNode>)
    ensures results == Capped(results0, Matches(matches, Preorder(node)), maxResults)
    decreases node, 1
  {
    results := results0;
    if |results| >= maxResults { return; }
    ghost var below := PreorderAll(node.children);
    MatchesAppend(matches, [node], below);
    assert Matches(matches, [node]) == if matches(node) then [Flat(node)] else [];
    if matches(node) {
      results := results + [Flat(node)];
    }
    assert results == Capped(results0, Matches(matches, [node]), maxResults);
    CappedTwice(results0, Matches(matches, [node]), Matches(matches, below), maxResults);
    results := CollectFrom(node.children, matches, results, maxResults);
  }

  method CollectFrom(children: seq<AXNode>, matches: AXNode -> bool, results0: seq<AXNode>, maxResults: int) returns (results: seq<AXNode>)
    ensures results == Capped(results0, Matches(matches, PreorderAll(children)), maxResults)
    decreases children, 0
  {
    results := results0;
    assert children[0..] == children;
    for i := 0 to |children|
      invariant Capped(results, Matches(matches, PreorderAll(children[i..])), maxResults)
        == Capped(results0, Matches(matches, PreorderAll(children)), maxResults)
    {
      assert children[i..][1..] == children[i + 1..];
      MatchesAppend(matches, Preorder(children[i]), PreorderAll(children[i + 1..]));
      CappedTwice(results, Matches(matches, Preorder(children[i])), Matches(matches, PreorderAll(children[i + 1..])), maxResults);
      results := CollectMatches(children[i], matches, results, maxResults);
    }
  }

  /** `r` is `n` without its children. */
  predicate Without(n: AXNode, r: AXNode) {
    && r.role == n.role && r.axLabel == n.axLabel && r.value == n.value && r.identifier == n.identifier
    && r.traits == n.traits && r.frame == n.frame && r.path == n.path && r.children == []
  }

  /** What is collected: each match once and in order, its own attributes kept and its children gone. */
  lemma {:induction false} MatchesExactly(matches: AXNode -> bool, ns: seq<AXNode>, r: AXNode)
    ensures r in Matches(matches, ns) <==> exists i :: 0 <= i < |ns| && matches(ns[i]) && Without(ns[i], r)
  {
    if ns != [] {
      MatchesExactly(matches, ns[1..], r);
      SeqFacts.Cons(ns);
      if i :| 0 <= i < |ns[1..]| && matches(ns[1..][i]) && Without(ns[1..][i], r) {
        assert matches(ns[i + 1]) && Without(ns[i + 1], r);
      }
      if i :| 0 <= i < |ns| && matches(ns[i]) && Without(ns[i], r) {
        assert i > 0 ==> ns[1..][i - 1] == ns[i];
      }
    }
  }

  /** The limit: at most `max` entries are collected, and they are the first ones. */
  lemma CappedExactly(more: seq<AXNode>, max: int)
    ensures |Capped([], more, max)| == Min(|more|, Max(0, max)) && Capped([], more, max) <= more
  {}
}
