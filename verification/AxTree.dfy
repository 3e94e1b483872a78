/** Accessibility trees and their pre-order. */
module AxTree {
  import opened Basics

  datatype Frame = Frame(x: real, y: real, width: real, height: real)

  datatype AXNode = AXNode(role: string, axLabel: Option<string>, value: Option<string>, identifier: Option<string>,
                           traits: seq<string>, frame: Option<Frame>, path: string, children: seq<AXNode>)

  function Preorder(n: AXNode): (r: seq<AXNode>)
    decreases n
  {
    [n] + PreorderAll(n.children)
  }

  function PreorderAll(ns: seq<AXNode>): seq<AXNode>
    decreases ns
  {
    if ns == [] then [] else Preorder(ns[0]) + PreorderAll(ns[1..])
  }

  lemma {:induction false} PreorderAllAppend(a: seq<AXNode>, b: seq<AXNode>)
    ensures PreorderAll(a + b) == PreorderAll(a) + PreorderAll(b)
    decreases |a|
  {
    if a == [] {
      assert a + b == b;
    } else {
      assert (a + b)[1..] == a[1..] + b;
      PreorderAllAppend(a[1..], b);
    }
  }

  lemma PreorderAllSnoc(a: seq<AXNode>, n: AXNode)
    ensures PreorderAll(a + [n]) == PreorderAll(a) + Preorder(n)
  {
    PreorderAllAppend(a, [n]);
    assert PreorderAll([n]) == Preorder(n) + PreorderAll([]);
  }

  /** How many nodes come before the k-th tree. */
  function Offset(ns: seq<AXNode>, k: nat): nat
    requires k <= |ns|
    decreases k
  {
    if k == 0 then 0 else Offset(ns, k - 1) + |Preorder(ns[k - 1])|
  }

  lemma {:induction false} OffsetTail(ns: seq<AXNode>, k: nat)
    requires 0 < k <= |ns|
    ensures Offset(ns, k) == |Preorder(ns[0])| + Offset(ns[1..], k - 1)
    decreases k
  {
    if k > 1 {
      OffsetTail(ns, k - 1);
      assert ns[1..][k - 2] == ns[k - 1];
    }
  }

  lemma Shifted<T>(a: seq<T>, b: seq<T>, from: nat, n: nat)
    requires from + n <= |b|
    ensures (a + b)[|a| + from..|a| + from + n] == b[from..from + n]
  {}

  /** In the pre-order of some trees, each tree is one block, behind the blocks of all earlier trees. */
  lemma {:induction false} PreorderBlocks(ns: seq<AXNode>, k: nat)
    requires k < |ns|
    ensures Offset(ns, k) + |Preorder(ns[k])| <= |PreorderAll(ns)|
    ensures PreorderAll(ns)[Offset(ns, k)..Offset(ns, k) + |Preorder(ns[k])|] == Preorder(ns[k])
    decreases k
  {
    if k > 0 {
      var first := Preorder(ns[0]);
      OffsetTail(ns, k);
      PreorderBlocks(ns[1..], k - 1);
      assert ns[1..][k - 1] == ns[k] && PreorderAll(ns) == first + PreorderAll(ns[1..]);
      Shifted(first, PreorderAll(ns[1..]), Offset(ns[1..], k - 1), |Preorder(ns[k])|);
    }
  }

  lemma BlockBehind<T>(x: T, below: seq<T>, from: nat, sub: seq<T>)
    requires from + |sub| <= |below| && below[from..from + |sub|] == sub
    ensures var all := [x] + below; all[1 + from..1 + from + |sub|] == sub
  {
    Shifted([x], below, from, |sub|);
  }

  lemma PreorderParts(n: AXNode)
    ensures Preorder(n) == [n] + PreorderAll(n.children)
  {}

  /** A node comes before its descendants, and the subtrees of its children follow in order. */
  lemma PreorderOfChild(n: AXNode, k: nat, all: seq<AXNode>, sub: seq<AXNode>)
    requires k < |n.children| && all == Preorder(n) && sub == Preorder(n.children[k])
    ensures |all| > 0 && all[0] == n
    ensures var at := 1 + Offset(n.children, k); at + |sub| <= |all| && all[at..at + |sub|] == sub
  {
    PreorderParts(n);
    PreorderBlocks(n.children, k);
    BlockBehind(n, PreorderAll(n.children), Offset(n.children, k), sub);
  }
}
