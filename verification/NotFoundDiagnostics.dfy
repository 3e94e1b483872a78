/** The bounded digest attached to "element not found" errors: an explicit-stack traversal
    that must equal the recursive pre-order. */
module NotFoundDiagnostics {
  import opened Basics
  import opened AxTree

  datatype CompactNode = CompactNode(role: string, axLabel: Option<string>, identifier: Option<string>, path: string)

  datatype Diagnostics = Diagnostics(searchedNodeCount: nat, truncated: bool, nodes: seq<CompactNode>, candidates: seq<CompactNode>)

  const MAX_CANDIDATES := 5

  function Redact(redact: string -> string, s: Option<string>): Option<string> {
    if s.None? then None else Some(redact(s.value))
  }

  function Compact(redact: string -> string, n: AXNode): CompactNode {
    CompactNode(n.role, Redact(redact, n.axLabel), Redact(redact, n.identifier), n.path)
  }

  function CompactAll(redact: string -> string, ns: seq<AXNode>): seq<CompactNode> {
    seq(|ns|, i requires 0 <= i < |ns| => Compact(redact, ns[i]))
  }

  /** An empty term matches nothing; `contains` is the case-folded substring test. */
  predicate MatchesTerm(contains: (AXNode, string) -> bool, n: AXNode, term: string) {
    term != "" && contains(n, term)
  }

  function Matching(contains: (AXNode, string) -> bool, ns: seq<AXNode>, term: string): seq<AXNode> {
    if ns == [] then []
    else Matching(contains, ns[..|ns| - 1], term) + if MatchesTerm(contains, ns[|ns| - 1], term) then [ns[|ns| - 1]] else []
  }

  lemma MatchingSnoc(contains: (AXNode, string) -> bool, ns: seq<AXNode>, n: AXNode, term: string)
    ensures Matching(contains, ns + [n], term) == Matching(contains, ns, term) + if MatchesTerm(contains, n, term) then [n] else []
  {
    assert (ns + [n])[..|ns|] == ns;
  }

  /** The first `k` elements, all of them if there are fewer, none if `k` is negative. */
  function First<T>(s: seq<T>, k: int): seq<T> {
    if k <= 0 then [] else if k < |s| then s[..k] else s
  }

  lemma FirstSnoc<T>(s: seq<T>, x: T, k: int)
    ensures First(s + [x], k) == if |First(s, k)| < k then First(s, k) + [x] else First(s, k)
  {}

  lemma TruncatedExactly(s: seq<CompactNode>, k: int)
    ensures |s| > |First(s, k)| <==> First(s, k) != s
  {}

  lemma CompactSnoc(redact: string -> string, ns: seq<AXNode>, n: AXNode)
    ensures CompactAll(redact, ns + [n]) == CompactAll(redact, ns) + [Compact(redact, n)]
  {}

  function Reversed(ns: seq<AXNode>): seq<AXNode> {
    if ns == [] then [] else Reversed(ns[1..]) + [ns[0]]
  }

  /** What is still to come when `stack` remains: its trees, top first. */
  function Pending(stack: seq<AXNode>): seq<AXNode> {
    PreorderAll(Reversed(stack))
  }

  lemma {:induction false} ReversedSnoc(ns: seq<AXNode>, n: AXNode)
    ensures Reversed(ns + [n]) == [n] + Reversed(ns)
    decreases |ns|
  {
    if ns == [] {
      assert [] + [n] == [n];
    } else {
      assert (ns + [n])[1..] == ns[1..] + [n];
      ReversedSnoc(ns[1..], n);
    }
  }

  lemma PendingPush(stack: seq<AXNode>, n: AXNode)
    ensures Pending(stack + [n]) == Preorder(n) + Pending(stack)
  {
    ReversedSnoc(stack, n);
    assert ([n] + Reversed(stack))[1..] == Reversed(stack);
  }

  lemma PendingPop(rest: seq<AXNode>, n: AXNode)
    ensures Pending(rest + [n]) == [n] + PreorderAll(n.children) + Pending(rest)
  {
    PendingPush(rest, n);
  }

  /** Pushing the children last to first puts their pre-order in front of what was pending. */
  method PushChildren(stack0: seq<AXNode>, children: seq<AXNode>) returns (stack: seq<AXNode>)
    ensures Pending(stack) == PreorderAll(children) + Pending(stack0)
  {
    stack := stack0;
    var i := |children| - 1;
    while i >= 0
      invariant -1 <= i < |children|
      invariant Pending(stack) == PreorderAll(children[i + 1..]) + Pending(stack0)
    {
      PendingPush(stack, children[i]);
      assert children[i..][1..] == children[i + 1..];
      stack := stack + [children[i]];
      i := i - 1;
    }
    assert children[0..] == children;
  }

  lemma VisitOne(done: seq<AXNode>, rest: seq<AXNode>, n: AXNode, stack: seq<AXNode>)
    requires Pending(stack) == PreorderAll(n.children) + Pending(rest)
    ensures (done + [n]) + Pending(stack) == done + Pending(rest + [n])
    ensures |Pending(stack)| < |Pending(rest + [n])|
  {
    PendingPop(rest, n);
  }

  /** The two lists collected after visiting `done`. */
  ghost predicate Collected(redact: string -> string, contains: (AXNode, string) -> bool, term: string, maxNodes: int,
                            done: seq<AXNode>, nodes: seq<CompactNode>, candidates: seq<CompactNode>) {
    && nodes == First(CompactAll(redact, done), maxNodes)
    && candidates == First(CompactAll(redact, Matching(contains, done, term)), MAX_CANDIDATES)
  }

  lemma CollectOne(redact: string -> string, contains: (AXNode, string) -> bool, term: string, maxNodes: int,
                   done: seq<AXNode>, nodes: seq<CompactNode>, candidates: seq<CompactNode>, n: AXNode)
    requires Collected(redact, contains, term, maxNodes, done, nodes, candidates)
    ensures var c := Compact(redact, n);
      Collected(redact, contains, term, maxNodes, done + [n],
                if |nodes| < maxNodes then nodes + [c] else nodes,
                if |candidates| < MAX_CANDIDATES && MatchesTerm(contains, n, term) then candidates + [c] else candidates)
  {
    CompactSnoc(redact, done, n);
    FirstSnoc(CompactAll(redact, done), Compact(redact, n), maxNodes);
    MatchingSnoc(contains, done, n, term);
    CompactSnoc(redact, Matching(contains, done, term), n);
    FirstSnoc(CompactAll(redact, Matching(contains, done, term)), Compact(redact, n), MAX_CANDIDATES);
  }

  /** `dump` is `None` when the tree dump throws. */
  method BuildNotFoundDiagnostics(dump: Option<AXNode>, term: string, maxNodes: int,
                                  redact: string -> string, contains: (AXNode, string) -> bool)
    returns (r: Option<Diagnostics>)
    ensures r.None? <==> dump.None?
    ensures r.Some? ==> var all := Preorder(dump.value);
      && r.value.searchedNodeCount == |all|
      && r.value.nodes == First(CompactAll(redact, all), maxNodes)
      && r.value.candidates == First(CompactAll(redact, Matching(contains, all, term)), MAX_CANDIDATES)
      && (r.value.truncated <==> r.value.nodes != CompactAll(redact, all))
  {
    if dump.None? { return None; }
    var root := dump.value;
    ghost var all, done := Preorder(root), [];
    var nodes, candidates := [], [];
    var count := 0;
    var stack := [root];
    PendingPush([], root);
    assert [] + [root] == [root] && Pending([]) == [];
    while |stack| > 0
      invariant done + Pending(stack) == all
      invariant count == |done|
      invariant Collected(redact, contains, term, maxNodes, done, nodes, candidates)
      decreases |Pending(stack)|
    {
      var node, rest := stack[|stack| - 1], stack[..|stack| - 1];
      assert stack == rest + [node];
      count := count + 1;
      CollectOne(redact, contains, term, maxNodes, done, nodes, candidates, node);
      if |nodes| < maxNodes { nodes := nodes + [Compact(redact, node)]; }
      if |candidates| < MAX_CANDIDATES && MatchesTerm(contains, node, term) {
        candidates := candidates + [Compact(redact, node)];
      }
      stack := PushChildren(rest, node.children);
      VisitOne(done, rest, node, stack);
      done := done + [node];
    }
    assert done == all;
    TruncatedExactly(CompactAll(redact, all), maxNodes);
    r := Some(Diagnostics(count, count > |nodes|, nodes, candidates));
  }

  // ---- what the user typed is never emitted ----

  /** The same tree with every `value` removed. */
  function Erase(n: AXNode): AXNode
    decreases n, 1
  {
    n.(value := None, children := EraseAll(n.children))
  }

  function EraseAll(ns: seq<AXNode>): seq<AXNode>
    decreases ns, 0
  {
    if ns == [] then [] else [Erase(ns[0])] + EraseAll(ns[1..])
  }

  lemma CompactAppend(redact: string -> string, a: seq<AXNode>, b: seq<AXNode>)
    ensures CompactAll(redact, a + b) == CompactAll(redact, a) + CompactAll(redact, b)
  {}

  lemma {:induction false} DigestErases(redact: string -> string, n: AXNode)
    ensures CompactAll(redact, Preorder(Erase(n))) == CompactAll(redact, Preorder(n))
    decreases n, 1
  {
    DigestErasesAll(redact, n.children);
    CompactAppend(redact, [n], PreorderAll(n.children));
    CompactAppend(redact, [Erase(n)], PreorderAll(EraseAll(n.children)));
    assert CompactAll(redact, [n]) == [Compact(redact, n)] == CompactAll(redact, [Erase(n)]);
  }

  lemma {:induction false} DigestErasesAll(redact: string -> string, ns: seq<AXNode>)
    ensures CompactAll(redact, PreorderAll(EraseAll(ns))) == CompactAll(redact, PreorderAll(ns))
    decreases ns, 0
  {
    if ns != [] {
      DigestErases(redact, ns[0]);
      DigestErasesAll(redact, ns[1..]);
      CompactAppend(redact, Preorder(ns[0]), PreorderAll(ns[1..]));
      CompactAppend(redact, Preorder(Erase(ns[0])), PreorderAll(EraseAll(ns[1..])));
      assert EraseAll(ns)[1..] == EraseAll(ns[1..]);
    }
  }

  /** Two trees that differ only in user-entered values give the same digest and the same count. */
  lemma ValuesDoNotLeak(redact: string -> string, a: AXNode, b: AXNode, maxNodes: int)
    requires Erase(a) == Erase(b)
    ensures First(CompactAll(redact, Preorder(a)), maxNodes) == First(CompactAll(redact, Preorder(b)), maxNodes)
    ensures |Preorder(a)| == |Preorder(b)|
  {
    DigestErases(redact, a);
    DigestErases(redact, b);
    assert |CompactAll(redact, Preorder(a))| == |Preorder(a)|;
    assert |CompactAll(redact, Preorder(b))| == |Preorder(b)|;
  }

  lemma {:induction false} MatchingFromThere(redact: string -> string, contains: (AXNode, string) -> bool,
                                             ns: seq<AXNode>, term: string, c: CompactNode)
    requires c in CompactAll(redact, Matching(contains, ns, term))
    ensures c in CompactAll(redact, ns)
  {
    var n := |ns| - 1;
    var front, last := ns[..n], Compact(redact, ns[n]);
    assert ns == front + [ns[n]];
    CompactSnoc(redact, front, ns[n]);
    CompactSnoc(redact, Matching(contains, front, term), ns[n]);
    if c != last {
      var m := CompactAll(redact, Matching(contains, front, term));
      assert CompactAll(redact, Matching(contains, ns, term)) == m + (if MatchesTerm(contains, ns[n], term) then [last] else []);
      assert c in m;
      MatchingFromThere(redact, contains, front, term, c);
    }
  }

  /** Which nodes become candidates may depend on values, but what is emitted of a candidate is what the same
      tree without any values has at some node. */
  lemma CandidatesAreValueFree(redact: string -> string, contains: (AXNode, string) -> bool,
                               root: AXNode, term: string, c: CompactNode)
    requires c in First(CompactAll(redact, Matching(contains, Preorder(root), term)), MAX_CANDIDATES)
    ensures c in CompactAll(redact, Preorder(Erase(root)))
  {
    MatchingFromThere(redact, contains, Preorder(root), term, c);
    DigestErases(redact, root);
  }

  /** The choice of candidates does depend on values: with and without the value searched for, a tree of one
      node has one candidate or none. */
  lemma ValuesChooseCandidates(contains: (AXNode, string) -> bool, n: AXNode, term: string)
    requires n.children == [] && term != "" && contains(n, term) && !contains(Erase(n), term)
    ensures |Matching(contains, Preorder(n), term)| == 1 && Matching(contains, Preorder(Erase(n)), term) == []
  {
    assert Preorder(n) == [n] && Preorder(Erase(n)) == [Erase(n)];
    assert [n][..0] == [] && [Erase(n)][..0] == [];
  }

  // ---- what is emitted ----

  /** An optional text, redacted if there is one. */
  predicate RedactedFrom(redact: string -> string, out: Option<string>, original: Option<string>) {
    && (out.Some? <==> original.Some?)
    && (original.Some? ==> out.value == redact(original.value))
  }

  /** The i-th entry of the digest tells the role and path of the i-th node in pre-order as they are, and its label and
      identifier, each in its own place, redacted. */
  lemma DigestTells(redact: string -> string, ns: seq<AXNode>, maxNodes: int, i: nat)
    requires i < |ns| && i < maxNodes
    ensures var digest := First(CompactAll(redact, ns), maxNodes);
      && |digest| == Min(|ns|, maxNodes)
      && digest[i].role == ns[i].role && digest[i].path == ns[i].path
      && RedactedFrom(redact, digest[i].axLabel, ns[i].axLabel)
      && RedactedFrom(redact, digest[i].identifier, ns[i].identifier)
  {}

  /** With no positive cap nothing is emitted. */
  lemma NoCapNoDigest(redact: string -> string, ns: seq<AXNode>, maxNodes: int)
    requires maxNodes <= 0
    ensures First(CompactAll(redact, ns), maxNodes) == []
  {}

  lemma {:induction false} EraseCounts(ns: seq<AXNode>)
    ensures |PreorderAll(EraseAll(ns))| == |PreorderAll(ns)| && |EraseAll(ns)| == |ns|
    decreases ns
  {
    if ns != [] {
      EraseCounts(ns[0].children);
      EraseCounts(ns[1..]);
      assert EraseAll(ns)[1..] == EraseAll(ns[1..]);
    }
  }

  /** Erasing leaves the shape of the tree and all attributes but the values. */
  lemma {:induction false} EraseLeaves(n: AXNode, i: nat)
    requires i < |Preorder(n)|
    ensures |Preorder(Erase(n))| == |Preorder(n)|
    ensures var e, m := Preorder(Erase(n))[i], Preorder(n)[i];
      && e.value == None && e.role == m.role && e.axLabel == m.axLabel && e.identifier == m.identifier && e.path == m.path
      && |e.children| == |m.children|
    decreases n, 1
  {
    EraseCounts(n.children);
    if i > 0 {
      EraseLeavesAll(n.children, i - 1);
    }
  }

  lemma {:induction false} EraseLeavesAll(ns: seq<AXNode>, i: nat)
    requires i < |PreorderAll(ns)|
    ensures |PreorderAll(EraseAll(ns))| == |PreorderAll(ns)|
    ensures var e, m := PreorderAll(EraseAll(ns))[i], PreorderAll(ns)[i];
      && e.value == None && e.role == m.role && e.axLabel == m.axLabel && e.identifier == m.identifier && e.path == m.path
      && |e.children| == |m.children|
    decreases ns, 0
  {
    EraseCounts(ns);
    assert EraseAll(ns)[1..] == EraseAll(ns[1..]);
    EraseCounts(ns[0].children);
    if i < |Preorder(ns[0])| {
      EraseLeaves(ns[0], i);
    } else {
      EraseLeavesAll(ns[1..], i - |Preorder(ns[0])|);
    }
  }

  /** At most five candidates are kept. */
  lemma FiveCandidates(candidates: seq<CompactNode>)
    ensures |First(candidates, MAX_CANDIDATES)| == Min(5, |candidates|) && First(candidates, MAX_CANDIDATES) <= candidates
  {}

  /** Candidates are found in the order of the nodes, and a node is one exactly if a non-empty term is found in it. */
  lemma {:induction false} MatchingInOrder(contains: (AXNode, string) -> bool, a: seq<AXNode>, b: seq<AXNode>, term: string)
    ensures Matching(contains, a + b, term) == Matching(contains, a, term) + Matching(contains, b, term)
    decreases |b|
  {
    if b == [] {
      assert a + b == a;
    } else {
      var n := |b| - 1;
      assert a + b == (a + b[..n]) + [b[n]] && b == b[..n] + [b[n]];
      MatchingInOrder(contains, a, b[..n], term);
      MatchingSnoc(contains, a + b[..n], b[n], term);
      MatchingSnoc(contains, b[..n], b[n], term);
    }
  }

  lemma MatchingOne(contains: (AXNode, string) -> bool, n: AXNode, term: string)
    ensures Matching(contains, [n], term) == if term != "" && contains(n, term) then [n] else []
  {
    assert [n][..0] == [];
  }
}
