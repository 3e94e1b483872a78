/** The scored, pruned, early-exit search for the device-content root of a Simulator window. */
module ContentRoot {
  import opened Basics
  import opened AxTree

  // ---- labels, roles, rectangles ----

  const CHROME_LABELS := {
    "Action", "Home", "Save Screen", "Rotate", "Volume Up", "Volume Down", "Sleep/Wake",
    "AXCloseButton", "AXFullScreenButton", "AXMinimizeButton" }

  const APP_SEMANTICS_ROLES := { "AXTextField", "AXStaticText", "AXButton", "AXCell", "AXImage", "AXLink" }

  predicate IsChromeLabel(axLabel: Option<string>) {
    axLabel.Some? && axLabel.value != "" &&
    (axLabel.value in CHROME_LABELS || ("iPhone " <= axLabel.value && Includes(axLabel.value, " \U{2013} iOS ")))
  }

  function ExpectedRect(window: AXNode): Option<Frame> {
    match window.frame
    case None => None
    case Some(f) => Some(Frame(f.x + 25.0, f.y + 102.0, f.width - 50.0, f.height - 102.0 - 16.0))
  }

  predicate Near(a: real, b: real) { -15.0 <= a - b <= 15.0 }

  predicate FitsExpected(c: Frame, e: Frame) {
    Near(c.x, e.x) && Near(c.y, e.y) && Near(c.x + c.width, e.x + e.width) && Near(c.y + c.height, e.y + e.height)
  }

  // ---- counting ----

  predicate HasSemantics(n: AXNode) {
    n.role in APP_SEMANTICS_ROLES && (n.role == "AXButton" ==> !IsChromeLabel(n.axLabel))
  }

  function CountSemantics(ns: seq<AXNode>): nat {
    if ns == [] then 0 else (if HasSemantics(ns[0]) then 1 else 0) + CountSemantics(ns[1..])
  }

  /** How many proper descendants carry app semantics. */
  function Descendants(n: AXNode): nat {
    CountSemantics(PreorderAll(n.children))
  }

  lemma {:induction false} CountAppend(a: seq<AXNode>, b: seq<AXNode>)
    ensures CountSemantics(a + b) == CountSemantics(a) + CountSemantics(b)
    decreases |a|
  {
    if a == [] {
      assert a + b == b;
    } else {
      assert (a + b)[1..] == a[1..] + b;
      CountAppend(a[1..], b);
    }
  }

  lemma CountOne(n: AXNode)
    ensures CountSemantics([n]) == if HasSemantics(n) then 1 else 0
  {
    assert [n][1..] == [];
  }

  lemma CountThree(p: seq<AXNode>, n: AXNode, c: seq<AXNode>)
    ensures CountSemantics(p + ([n] + c)) == CountSemantics(p + c) + if HasSemantics(n) then 1 else 0
  {
    CountAppend(p, [n] + c);
    CountAppend([n], c);
    CountAppend(p, c);
    CountOne(n);
  }

  lemma PopCounts(rest: seq<AXNode>, n: AXNode)
    ensures CountSemantics(PreorderAll(rest + [n]))
      == CountSemantics(PreorderAll(rest + n.children)) + if HasSemantics(n) then 1 else 0
    ensures |PreorderAll(rest + n.children)| < |PreorderAll(rest + [n])|
  {
    PreorderAllSnoc(rest, n);
    PreorderAllAppend(rest, n.children);
    CountThree(PreorderAll(rest), n, PreorderAll(n.children));
  }

  /** The capped stack walk counts what the recursive definition counts, up to the cap. */
  method CountAppSemanticsDescendants(node: AXNode, cap: int) returns (result: int)
    ensures result == Min(cap, Descendants(node))
  {
    var count := 0;
    var stack := node.children;
    while |stack| > 0 && count < cap
      invariant count == 0 || count <= cap
      invariant count + CountSemantics(PreorderAll(stack)) == Descendants(node)
      decreases |PreorderAll(stack)|
    {
      var current := stack[|stack| - 1];
      var rest := stack[..|stack| - 1];
      PopCounts(rest, current);
      assert stack == rest + [current];
      stack := rest;
      if current.role in APP_SEMANTICS_ROLES {
        if current.role == "AXButton" {
          if !IsChromeLabel(current.axLabel) {
            count := count + 1;
          }
        } else {
          count := count + 1;
        }
        if count >= cap { break; }
      }
      stack := stack + current.children;
    }
    result := Min(count, cap);
  }

  // ---- scoring ----

  predicate IsBar(n: AXNode) {
    n.role == "AXToolbar" || n.role == "AXMenuBar"
  }

  function Score(n: AXNode, expected: Option<Frame>): int {
    (if (n.role == "AXGroup" || n.role == "AXScrollArea") && "iOSContentGroup" in n.traits then 10 else 0)
    + (if expected.Some? && n.frame.Some? && FitsExpected(n.frame.value, expected.value) then 8 else 0)
    + Min(5, Descendants(n)) * 5
    - (if IsBar(n) then 10 else 0)
    - (if n.children == [] then 5 else 0)
  }

  method ScoreContentCandidate(node: AXNode, expected: Option<Frame>) returns (score: int, semantics: int)
    ensures score == Score(node, expected) && semantics == Min(5, Descendants(node))
  {
    score := 0;
    if (node.role == "AXGroup" || node.role == "AXScrollArea") && "iOSContentGroup" in node.traits {
      score := score + 10;
    }
    if expected.Some? && node.frame.Some? && FitsExpected(node.frame.value, expected.value) {
      score := score + 8;
    }
    semantics := CountAppSemanticsDescendants(node, 5);
    score := score + semantics * 5;
    if node.role == "AXToolbar" || node.role == "AXMenuBar" {
      score := score - 10;
    }
    if |node.children| == 0 {
      score := score - 5;
    }
  }

  // ---- the search ----

  predicate Pruned(n: AXNode) {
    n.role == "AXMenuBar" || n.role == "AXWindow" || IsChromeLabel(n.axLabel)
  }

  datatype Found = Found(node: AXNode, score: int, semantics: int)

  function FoundOf(n: AXNode, expected: Option<Frame>): Found {
    Found(n, Score(n, expected), Min(5, Descendants(n)))
  }

  /** The nodes the search would score, in order and with their scores, were it never to exit early. */
  function Candidates(n: AXNode, depth: nat, maxDepth: int, expected: Option<Frame>): seq<Found>
    decreases n
  {
    if depth > 0 && Pruned(n) then []
    else (if depth > 0 then [FoundOf(n, expected)] else []) + Below(n, depth, maxDepth, expected)
  }

  function Below(n: AXNode, depth: nat, maxDepth: int, expected: Option<Frame>): seq<Found>
    decreases n, 0
  {
    if depth < maxDepth then CandidatesAll(n.children, depth + 1, maxDepth, expected) else []
  }

  function CandidatesAll(ns: seq<AXNode>, depth: nat, maxDepth: int, expected: Option<Frame>): seq<Found>
    decreases ns
  {
    if ns == [] then [] else Candidates(ns[0], depth, maxDepth, expected) + CandidatesAll(ns[1..], depth, maxDepth, expected)
  }

  datatype Search = Search(best: Option<Found>, exited: bool)

  predicate Exits(f: Found) {
    f.score >= 25 && f.semantics > 0
  }

  function Consider(s: Search, f: Found): Search {
    Search(if s.best.None? || f.score > s.best.value.score then Some(f) else s.best, Exits(f))
  }

  function Scan(s: Search, cs: seq<Found>): Search
    decreases |cs|
  {
    if s.exited || cs == [] then s else Scan(Consider(s, cs[0]), cs[1..])
  }

  lemma {:induction false} ScanAppend(s: Search, a: seq<Found>, b: seq<Found>)
    ensures Scan(s, a + b) == Scan(Scan(s, a), b)
    decreases |a|
  {
    if a == [] {
      assert a + b == b;
    } else if !s.exited {
      assert (a + b)[1..] == a[1..] + b;
      ScanAppend(Consider(s, a[0]), a[1..], b);
    }
  }

  lemma ScanOne(s: Search, f: Found, rest: seq<Found>)
    requires !s.exited
    ensures Scan(s, [f] + rest) == Scan(Consider(s, f), rest)
  {
    assert ([f] + rest)[1..] == rest;
  }

  /** The variables that the recursive `visit` closure captures. */
  class Visitor {
    var best: Option<Found>
    var earlyExit: bool
    const expected: Option<Frame>
    const maxDepth: int

    ghost function State(): Search
      reads this
    {
      Search(best, earlyExit)
    }

    constructor (expected: Option<Frame>, maxDepth: int)
      ensures State() == Search(None, false) && this.expected == expected && this.maxDepth == maxDepth
    {
      best, earlyExit := None, false;
      this.expected, this.maxDepth := expected, maxDepth;
    }

    method Visit(node: AXNode, depth: nat)
      modifies this
      ensures State() == Scan(old(State()), Candidates(node, depth, maxDepth, expected))
      decreases node, 1
    {
      if earlyExit { return; }
      if depth > 0 {
        if node.role == "AXMenuBar" || node.role == "AXWindow" { return; }
        if IsChromeLabel(node.axLabel) { return; }
      }
      ghost var s0, below := State(), Below(node, depth, maxDepth, expected);
      if depth > 0 {
        var score, semantics := ScoreContentCandidate(node, expected);
        ghost var f := Found(node, score, semantics);
        ScanOne(s0, f, below);
        if best.None? || score > best.value.score {
          best := Some(Found(node, score, semantics));
        }
        if score >= 25 && semantics > 0 {
          earlyExit := true;
          return;
        }
        assert State() == Consider(s0, f);
      } else {
        assert [] + below == below;
      }
      if depth < maxDepth {
        VisitChildren(node.children, depth);
      }
    }

    method VisitChildren(children: seq<AXNode>, depth: nat)
      modifies this
      ensures State() == Scan(old(State()), CandidatesAll(children, depth + 1, maxDepth, expected))
      decreases children, 0
    {
      assert children[0..] == children;
      for i := 0 to |children|
        invariant Scan(State(), CandidatesAll(children[i..], depth + 1, maxDepth, expected))
          == Scan(old(State()), CandidatesAll(children, depth + 1, maxDepth, expected))
      {
        var child, rest := children[i], children[i + 1..];
        ScanAppend(State(), Candidates(child, depth + 1, maxDepth, expected), CandidatesAll(rest, depth + 1, maxDepth, expected));
        assert children[i..][1..] == rest;
        Visit(child, depth + 1);
        if earlyExit { return; }
      }
    }
  }

  datatype ContentRootResult = Success(node: AXNode, score: int) | Empty

  /** What the caller gets once the search is over. */
  function Verdict(best: Option<Found>): ContentRootResult {
    if best.None? || best.value.semantics == 0 then Empty else Success(best.value.node, best.value.score)
  }

  function AllCandidates(window: AXNode, maxDepth: int): seq<Found> {
    Candidates(window, 0, maxDepth, ExpectedRect(window))
  }

  function Outcome(window: AXNode, maxDepth: int): ContentRootResult {
    Verdict(Scan(Search(None, false), AllCandidates(window, maxDepth)).best)
  }

  method FindDeviceContentRecursively(window: AXNode, maxDepth: int := 8) returns (r: ContentRootResult)
    ensures r == Outcome(window, maxDepth)
  {
    var v := new Visitor(ExpectedRect(window), maxDepth);
    v.Visit(window, 0);
    if v.best.None? { return Empty; }
    var winner := v.best.value;
    if winner.semantics == 0 { return Empty; }
    return Success(winner.node, winner.score);
  }

  // ---- who wins ----

  /** `cs[k]` beats everything before it and nothing after it beats `cs[k]`. */
  ghost predicate EarliestBest(cs: seq<Found>, k: int) {
    && 0 <= k < |cs|
    && (forall j :: 0 <= j < k ==> cs[j].score < cs[k].score)
    && (forall j :: k < j < |cs| ==> cs[j].score <= cs[k].score)
  }

  ghost predicate IsFirstExit(cs: seq<Found>, k: int) {
    0 <= k < |cs| && Exits(cs[k]) && forall j :: 0 <= j < k ==> !Exits(cs[j])
  }

  ghost predicate NoExit(cs: seq<Found>) {
    forall j :: 0 <= j < |cs| ==> !Exits(cs[j])
  }

  /** Each candidate carries the score of its own node. */
  lemma {:induction false} CandidatesScored(n: AXNode, depth: nat, maxDepth: int, expected: Option<Frame>)
    ensures forall f :: f in Candidates(n, depth, maxDepth, expected) ==> f == FoundOf(f.node, expected)
    decreases n, 1
  {
    CandidatesAllScored(n.children, depth + 1, maxDepth, expected);
  }

  lemma {:induction false} CandidatesAllScored(ns: seq<AXNode>, depth: nat, maxDepth: int, expected: Option<Frame>)
    ensures forall f :: f in CandidatesAll(ns, depth, maxDepth, expected) ==> f == FoundOf(f.node, expected)
    decreases ns, 0
  {
    if ns != [] {
      CandidatesScored(ns[0], depth, maxDepth, expected);
      CandidatesAllScored(ns[1..], depth, maxDepth, expected);
    }
  }

  /** The scan of `cs` when no node exits keeps the earliest best. */
  lemma {:induction false} ScanWithoutExit(cs: seq<Found>)
    requires NoExit(cs)
    ensures var s := Scan(Search(None, false), cs);
      && !s.exited
      && (cs == [] ==> s.best.None?)
      && (cs != [] ==> exists k :: EarliestBest(cs, k) && s.best == Some(cs[k]))
    decreases |cs|
  {
    if cs != [] {
      var n := |cs| - 1;
      var front, last := cs[..n], cs[n];
      ScanWithoutExit(front);
      assert cs == front + [last];
      ScanAppend(Search(None, false), front, [last]);
      var s0 := Scan(Search(None, false), front);
      if front == [] || last.score > s0.best.value.score {
        assert EarliestBest(cs, n);
      } else {
        var k :| EarliestBest(front, k) && s0.best == Some(front[k]);
        assert EarliestBest(cs, k);
      }
    }
  }

  /** A node without app semantics never reaches the early-exit score. */
  lemma NoSemanticsLowScore(f: Found, expected: Option<Frame>)
    requires f == FoundOf(f.node, expected)
    ensures f.semantics == 0 ==> f.score <= 18
    ensures 0 <= f.semantics <= 5 && (f.semantics > 0 <==> Descendants(f.node) > 0)
  {}

  /** An exiting node ends the scan as the winner, and strictly beats every node before it. */
  lemma ScanWithExit(cs: seq<Found>, k: nat, expected: Option<Frame>)
    requires IsFirstExit(cs, k) && forall f :: f in cs ==> f == FoundOf(f.node, expected)
    ensures Scan(Search(None, false), cs) == Search(Some(cs[k]), true)
    ensures forall j :: 0 <= j < k ==> cs[j].score < cs[k].score
  {
    forall j | 0 <= j < k ensures cs[j].score < 25 {
      assert cs[j] in cs;
      NoSemanticsLowScore(cs[j], expected);
    }
    var front, rest := cs[..k], cs[k..];
    ScanWithoutExit(front);
    assert cs == front + rest;
    ScanAppend(Search(None, false), front, rest);
    ScanOne(Scan(Search(None, false), front), cs[k], rest[1..]);
    assert rest == [cs[k]] + rest[1..];
  }

  lemma {:induction false} FirstExitExists(cs: seq<Found>, i: nat)
    requires i < |cs| && Exits(cs[i])
    ensures exists k: nat :: IsFirstExit(cs, k)
    decreases i
  {
    if j :| 0 <= j < i && Exits(cs[j]) {
      FirstExitExists(cs, j);
    } else {
      assert IsFirstExit(cs, i);
    }
  }

  /** Main result. The winner over the pruned pre-order is its first exiting node if there is one,
      which strictly beats all before it, and otherwise its earliest maximum-score node. */
  lemma WinnerExactly(window: AXNode, maxDepth: int)
    ensures var cs := AllCandidates(window, maxDepth);
      if NoExit(cs) then
        if cs == [] then Outcome(window, maxDepth) == Empty
        else exists k :: EarliestBest(cs, k) && Outcome(window, maxDepth) == Verdict(Some(cs[k]))
      else
        exists k :: IsFirstExit(cs, k) && Outcome(window, maxDepth) == Success(cs[k].node, cs[k].score)
          && forall j :: 0 <= j < k ==> cs[j].score < cs[k].score
  {
    var cs := AllCandidates(window, maxDepth);
    if NoExit(cs) {
      ScanWithoutExit(cs);
    } else {
      var i :| 0 <= i < |cs| && Exits(cs[i]);
      FirstExitExists(cs, i);
      var k: nat :| IsFirstExit(cs, k);
      CandidatesScored(window, 0, maxDepth, ExpectedRect(window));
      ScanWithExit(cs, k, ExpectedRect(window));
    }
  }

  lemma FourDescendantsScore(n: AXNode, expected: Option<Frame>)
    requires Descendants(n) >= 4 && !IsBar(n)
    ensures Score(n, expected) >= 20
  {}

  /** A scored node other than a toolbar with at least four semantic descendants guarantees success. */
  lemma FourDescendantsSucceed(window: AXNode, maxDepth: int, i: nat)
    requires i < |AllCandidates(window, maxDepth)|
    requires var n := AllCandidates(window, maxDepth)[i].node; Descendants(n) >= 4 && !IsBar(n)
    ensures Outcome(window, maxDepth).Success?
  {
    var cs, e := AllCandidates(window, maxDepth), ExpectedRect(window);
    WinnerExactly(window, maxDepth);
    if NoExit(cs) {
      var k :| EarliestBest(cs, k) && Outcome(window, maxDepth) == Verdict(Some(cs[k]));
      CandidatesScored(window, 0, maxDepth, e);
      assert cs[i] in cs && cs[k] in cs;
      FourDescendantsScore(cs[i].node, e);
      NoSemanticsLowScore(cs[k], e);
    }
  }

  /** A success always names a scored node with semantic descendants. */
  lemma SuccessHasSemantics(window: AXNode, maxDepth: int)
    requires Outcome(window, maxDepth).Success?
    ensures exists f :: f in AllCandidates(window, maxDepth) && f.node == Outcome(window, maxDepth).node && Descendants(f.node) > 0
  {
    var cs := AllCandidates(window, maxDepth);
    WinnerExactly(window, maxDepth);
    CandidatesScored(window, 0, maxDepth, ExpectedRect(window));
    var k :| 0 <= k < |cs| && Outcome(window, maxDepth) == Success(cs[k].node, cs[k].score) && cs[k].semantics > 0;
    assert cs[k] in cs;
    NoSemanticsLowScore(cs[k], ExpectedRect(window));
  }

  // ---- the documented failure condition ----

  ghost predicate SomeSemantics(cs: seq<Found>) {
    exists j :: 0 <= j < |cs| && cs[j].semantics > 0
  }

  ghost predicate Eclipses(cs: seq<Found>, i: int)
    requires 0 <= i < |cs|
  {
    cs[i].semantics == 0 &&
    forall j :: 0 <= j < |cs| && cs[j].semantics > 0 ==> cs[j].score < cs[i].score || (cs[j].score == cs[i].score && i < j)
  }

  /** Nothing exits and a node without semantics outscores every node that has some
      (or ties with it and comes first). */
  ghost predicate Eclipsed(cs: seq<Found>) {
    NoExit(cs) && exists i :: 0 <= i < |cs| && Eclipses(cs, i)
  }

  lemma EclipsedWinner(cs: seq<Found>, k: int)
    requires EarliestBest(cs, k) && NoExit(cs) && forall j :: 0 <= j < |cs| ==> cs[j].semantics >= 0
    ensures cs[k].semantics == 0 <==> Eclipsed(cs)
  {
    if cs[k].semantics == 0 {
      assert Eclipses(cs, k);
    }
  }

  lemma SemanticsNotNegative(window: AXNode, maxDepth: int)
    ensures var cs := AllCandidates(window, maxDepth); forall j :: 0 <= j < |cs| ==> cs[j].semantics >= 0
  {
    var cs := AllCandidates(window, maxDepth);
    CandidatesScored(window, 0, maxDepth, ExpectedRect(window));
    forall j | 0 <= j < |cs| ensures cs[j].semantics >= 0 {
      assert cs[j] in cs;
      NoSemanticsLowScore(cs[j], ExpectedRect(window));
    }
  }

  lemma EmptyExactly(window: AXNode, maxDepth: int)
    ensures var cs := AllCandidates(window, maxDepth);
      Outcome(window, maxDepth) == Empty <==> !SomeSemantics(cs) || Eclipsed(cs)
  {
    var cs := AllCandidates(window, maxDepth);
    WinnerExactly(window, maxDepth);
    SemanticsNotNegative(window, maxDepth);
    if NoExit(cs) && cs != [] {
      var k :| EarliestBest(cs, k) && Outcome(window, maxDepth) == Verdict(Some(cs[k]));
      EclipsedWinner(cs, k);
    } else if cs != [] {
      var k :| IsFirstExit(cs, k) && Outcome(window, maxDepth) == Success(cs[k].node, cs[k].score);
      assert SomeSemantics(cs);
    }
  }

  lemma {:induction false} DescendantsOf(ns: seq<AXNode>, i: nat)
    requires i < |ns|
    ensures Descendants(ns[i]) <= CountSemantics(PreorderAll(ns))
    decreases i
  {
    CountAppend(Preorder(ns[0]), PreorderAll(ns[1..]));
    if i == 0 {
      CountAppend([ns[0]], PreorderAll(ns[0].children));
    } else {
      DescendantsOf(ns[1..], i - 1);
    }
  }

  lemma WindowCandidates(window: AXNode, maxDepth: int)
    ensures AllCandidates(window, maxDepth)
      == if maxDepth > 0 then CandidatesAll(window.children, 1, maxDepth, ExpectedRect(window)) else []
  {
    var below := Below(window, 0, maxDepth, ExpectedRect(window));
    assert [] + below == below;
  }

  /** No candidate has more semantic descendants than the node it was found at or below. */
  lemma {:induction false} CandidateBelow(n: AXNode, depth: nat, maxDepth: int, expected: Option<Frame>, f: Found)
    requires f in Candidates(n, depth, maxDepth, expected)
    ensures Descendants(f.node) <= Descendants(n)
    decreases n, 1
  {
    if f in Below(n, depth, maxDepth, expected) {
      var i := CandidateOfChild(n.children, depth + 1, maxDepth, expected, f);
      DescendantsOf(n.children, i);
    }
  }

  /** A candidate among some siblings was found at or below one that is not pruned. */
  lemma {:induction false} CandidateOfChild(ns: seq<AXNode>, depth: nat, maxDepth: int, expected: Option<Frame>, f: Found)
    returns (i: nat)
    requires depth > 0 && f in CandidatesAll(ns, depth, maxDepth, expected)
    ensures i < |ns| && !Pruned(ns[i]) && Descendants(f.node) <= Descendants(ns[i])
    decreases ns, 0
  {
    if f in Candidates(ns[0], depth, maxDepth, expected) {
      i := 0;
      CandidateBelow(ns[0], depth, maxDepth, expected, f);
    } else {
      i := CandidateOfChild(ns[1..], depth, maxDepth, expected, f);
      i := i + 1;
    }
  }

  lemma {:induction false} ChildIsCandidate(ns: seq<AXNode>, i: nat, depth: nat, maxDepth: int, expected: Option<Frame>)
    requires depth > 0 && i < |ns| && !Pruned(ns[i])
    ensures FoundOf(ns[i], expected) in CandidatesAll(ns, depth, maxDepth, expected)
    decreases i
  {
    if i > 0 {
      ChildIsCandidate(ns[1..], i - 1, depth, maxDepth, expected);
    } else {
      assert FoundOf(ns[0], expected) in Candidates(ns[0], depth, maxDepth, expected);
    }
  }

  /** Some app content is in sight: it lies below a child of the window that is searched. Content
      that is itself a child of the window, or that lies below pruned children only, is not. */
  ghost predicate InSight(window: AXNode, maxDepth: int) {
    maxDepth > 0 && exists i :: 0 <= i < |window.children| && !Pruned(window.children[i]) && Descendants(window.children[i]) > 0
  }

  lemma InSightIsScored(window: AXNode, maxDepth: int)
    requires InSight(window, maxDepth)
    ensures SomeSemantics(AllCandidates(window, maxDepth)) && Descendants(window) > 0
  {
    var cs, e := AllCandidates(window, maxDepth), ExpectedRect(window);
    var i :| 0 <= i < |window.children| && !Pruned(window.children[i]) && Descendants(window.children[i]) > 0;
    DescendantsOf(window.children, i);
    ChildIsCandidate(window.children, i, 1, maxDepth, e);
    WindowCandidates(window, maxDepth);
    var j :| 0 <= j < |cs| && cs[j] == FoundOf(window.children[i], e);
  }

  lemma ScoredIsInSight(window: AXNode, maxDepth: int)
    requires SomeSemantics(AllCandidates(window, maxDepth))
    ensures InSight(window, maxDepth)
  {
    var cs, e := AllCandidates(window, maxDepth), ExpectedRect(window);
    CandidatesScored(window, 0, maxDepth, e);
    WindowCandidates(window, maxDepth);
    var j :| 0 <= j < |cs| && cs[j].semantics > 0;
    assert cs[j] in cs;
    NoSemanticsLowScore(cs[j], e);
    var i := CandidateOfChild(window.children, 1, maxDepth, e, cs[j]);
  }

  /** Some scored node has semantic descendants exactly when such content is in sight. */
  lemma InSightExactly(window: AXNode, maxDepth: int)
    ensures SomeSemantics(AllCandidates(window, maxDepth)) <==> InSight(window, maxDepth)
    ensures InSight(window, maxDepth) ==> Descendants(window) > 0
  {
    if InSight(window, maxDepth) {
      InSightIsScored(window, maxDepth);
    } else if SomeSemantics(AllCandidates(window, maxDepth)) {
      ScoredIsInSight(window, maxDepth);
    }
  }

  /** The search is documented to fail when no subtree of the window carries app semantics. It does
      fail then, but in other cases too: exactly when there is app content that is out of sight
      or eclipsed. */
  lemma DocumentedFailureExactly(window: AXNode, maxDepth: int)
    ensures Descendants(window) == 0 ==> Outcome(window, maxDepth) == Empty
    ensures (Outcome(window, maxDepth) == Empty <==> Descendants(window) == 0)
      <==> !(Descendants(window) > 0 && (!InSight(window, maxDepth) || Eclipsed(AllCandidates(window, maxDepth))))
  {
    EmptyExactly(window, maxDepth);
    InSightExactly(window, maxDepth);
  }

  function Plain(role: string, traits: seq<string>, frame: Option<Frame>, children: seq<AXNode>): AXNode {
    AXNode(role, None, None, None, traits, frame, "", children)
  }

  /** A window whose only content is one button, directly below it, fails at every depth limit. */
  lemma LeafButtonFails(maxDepth: int)
    ensures var window := Plain("AXWindow", [], None, [Plain("AXButton", [], None, [])]);
      Descendants(window) == 1 && Outcome(window, maxDepth) == Empty
  {
    var button := Plain("AXButton", [], None, []);
    var window := Plain("AXWindow", [], None, [button]);
    assert PreorderAll(button.children) == [] && PreorderAll([button]) == [button];
    CountOne(button);
    assert Descendants(button) == 0;
    InSightExactly(window, maxDepth);
    EmptyExactly(window, maxDepth);
  }

  lemma LeafCandidate(n: AXNode, depth: nat, maxDepth: int, expected: Option<Frame>)
    requires n.children == [] && depth > 0 && !Pruned(n)
    ensures Candidates(n, depth, maxDepth, expected) == [FoundOf(n, expected)] && Descendants(n) == 0
  {
    assert Below(n, depth, maxDepth, expected) == [];
  }

  lemma CandidatesCons(n: AXNode, ns: seq<AXNode>, depth: nat, maxDepth: int, expected: Option<Frame>)
    ensures CandidatesAll([n] + ns, depth, maxDepth, expected)
      == Candidates(n, depth, maxDepth, expected) + CandidatesAll(ns, depth, maxDepth, expected)
  {
    assert ([n] + ns)[1..] == ns;
  }

  const BUTTON := Plain("AXButton", [], None, [])
  const LEAF := Plain("AXGroup", [], None, [])
  const THREE_BUTTONS := Plain("AXGroup", [], None, [BUTTON, BUTTON, BUTTON])
  const DECOY := Plain("AXGroup", ["iOSContentGroup"], Some(Frame(25.0, 102.0, 50.0, 82.0)), [LEAF])
  const DECOY_WINDOW := Plain("AXWindow", [], Some(Frame(0.0, 0.0, 100.0, 200.0)), [DECOY, THREE_BUTTONS])

  lemma DecoyScores()
    ensures var e := ExpectedRect(DECOY_WINDOW);
      && FoundOf(DECOY, e) == Found(DECOY, 18, 0) && FoundOf(THREE_BUTTONS, e) == Found(THREE_BUTTONS, 15, 3)
      && FoundOf(BUTTON, e) == Found(BUTTON, -5, 0) && FoundOf(LEAF, e) == Found(LEAF, -5, 0)
    ensures Descendants(THREE_BUTTONS) == 3
  {
    var one, two, three := [BUTTON], [BUTTON, BUTTON], [BUTTON, BUTTON, BUTTON];
    assert PreorderAll(one) == one;
    assert two[1..] == one && PreorderAll(two) == two;
    assert three[1..] == two && PreorderAll(three) == three;
    assert CountSemantics(one) == 1 && CountSemantics(two) == 2 && Descendants(THREE_BUTTONS) == 3;
    assert PreorderAll([LEAF]) == [LEAF] && Descendants(DECOY) == 0;
    assert DECOY.traits[0] == "iOSContentGroup";
  }

  lemma DecoyCandidates()
    ensures var e := ExpectedRect(DECOY_WINDOW);
      AllCandidates(DECOY_WINDOW, 8) == [FoundOf(DECOY, e), FoundOf(LEAF, e), FoundOf(THREE_BUTTONS, e),
                                         FoundOf(BUTTON, e), FoundOf(BUTTON, e), FoundOf(BUTTON, e)]
  {
    var e := ExpectedRect(DECOY_WINDOW);
    var b := [FoundOf(BUTTON, e)];
    WindowCandidates(DECOY_WINDOW, 8);
    LeafCandidate(BUTTON, 2, 8, e);
    LeafCandidate(LEAF, 2, 8, e);
    CandidatesCons(LEAF, [], 2, 8, e);
    assert [LEAF] + [] == [LEAF] && Below(DECOY, 1, 8, e) == [FoundOf(LEAF, e)];
    CandidatesCons(BUTTON, [], 2, 8, e);
    CandidatesCons(BUTTON, [BUTTON], 2, 8, e);
    CandidatesCons(BUTTON, [BUTTON, BUTTON], 2, 8, e);
    assert Below(THREE_BUTTONS, 1, 8, e) == b + (b + (b + []));
    CandidatesCons(DECOY, [THREE_BUTTONS], 1, 8, e);
    CandidatesCons(THREE_BUTTONS, [], 1, 8, e);
  }

  /** With the default depth limit, a window whose only app content, three buttons, is eclipsed by an
      empty content group that fits the expected rectangle: so four semantic descendants is also the
      least number that suffices. */
  lemma ThreeDescendantsMayFail()
    ensures Descendants(THREE_BUTTONS) == 3
    ensures var cs := AllCandidates(DECOY_WINDOW, 8); |cs| == 6 && cs[2].node == THREE_BUTTONS
    ensures Outcome(DECOY_WINDOW, 8) == Empty
  {
    var cs := AllCandidates(DECOY_WINDOW, 8);
    DecoyScores();
    DecoyCandidates();
    assert Eclipses(cs, 0);
    EmptyExactly(DECOY_WINDOW, 8);
  }

  // ---- the rubric ----

  /** A bar scores 10 less than the same node with a role that earns and costs nothing. */
  lemma BarCostsTen(n: AXNode, bar: string, expected: Option<Frame>)
    requires n.role !in {"AXToolbar", "AXMenuBar", "AXGroup", "AXScrollArea"} && bar in {"AXToolbar", "AXMenuBar"}
    ensures Score(n.(role := bar), expected) == Score(n, expected) - 10
  {}

  /** The content-group trait earns a group or scroll area 10, and any other node nothing. */
  lemma TraitEarnsTen(n: AXNode, expected: Option<Frame>)
    requires "iOSContentGroup" !in n.traits
    ensures Score(n.(traits := n.traits + ["iOSContentGroup"]), expected)
      == Score(n, expected) + if n.role in {"AXGroup", "AXScrollArea"} then 10 else 0
  {
    var traits := n.traits + ["iOSContentGroup"];
    assert traits[|n.traits|] == "iOSContentGroup";
  }

  /** In terms of the edges of candidate and window. */
  predicate FitsInset(c: Frame, w: Frame) {
    var right, bottom := c.x + c.width, c.y + c.height;
    && w.x + 10.0 <= c.x <= w.x + 40.0
    && w.y + 87.0 <= c.y <= w.y + 117.0
    && w.x + w.width - 40.0 <= right <= w.x + w.width - 10.0
    && w.y + w.height - 31.0 <= bottom <= w.y + w.height - 1.0
  }

  /** A frame whose four edges lie within 15 points of the window's, inset by 25 left and right, 102 at the top and 16
      at the bottom, earns 8; any other frame, or none, nothing. */
  lemma FittingFrameEarnsEight(n: AXNode, frame: Frame, window: AXNode)
    ensures Score(n.(frame := Some(frame)), ExpectedRect(window)) - Score(n.(frame := None), ExpectedRect(window))
      == if window.frame.Some? && FitsInset(frame, window.frame.value) then 8 else 0
  {}

  /** Semantic descendants earn 5 each, up to five of them; having no children costs 5. */
  lemma ChildrenEarn(n: AXNode, children: seq<AXNode>, expected: Option<Frame>)
    requires n.children == []
    ensures Score(n.(children := children), expected) - Score(n, expected)
      == if children == [] then 0
         else if CountSemantics(PreorderAll(children)) >= 5 then 30
         else 5 + 5 * CountSemantics(PreorderAll(children))
  {
    assert PreorderAll(n.children) == [] && Descendants(n) == 0;
  }

  /** Where the scale starts: a childless node without merits. */
  lemma BareNodeScores(n: AXNode, expected: Option<Frame>)
    requires n.children == [] && n.frame.None? && n.traits == [] && !IsBar(n)
    ensures Score(n, expected) == -5
  {
    assert PreorderAll(n.children) == [];
  }

  const TEXT := Plain("AXStaticText", [], None, [])
  const TOOLBAR := Plain("AXToolbar", [], None, [BUTTON, BUTTON])
  const THREE_TEXTS := Plain("AXGroup", [], None, [TEXT, TEXT, TEXT])
  const TOOLBAR_WINDOW := Plain("AXWindow", [], None, [TOOLBAR, THREE_TEXTS])

  lemma Siblings(n: AXNode)
    requires n.children == [] && HasSemantics(n)
    ensures CountSemantics(PreorderAll([n, n])) == 2 && CountSemantics(PreorderAll([n, n, n])) == 3
  {
    var one, two, three := [n], [n, n], [n, n, n];
    assert PreorderAll(n.children) == [] && PreorderAll(one) == one;
    assert two[1..] == one && PreorderAll(two) == two;
    assert three[1..] == two && PreorderAll(three) == three;
    CountOne(n);
    assert CountSemantics(two) == 1 + CountSemantics(one) && CountSemantics(three) == 1 + CountSemantics(two);
  }

  lemma ToolbarScores()
    ensures var e := ExpectedRect(TOOLBAR_WINDOW);
      && FoundOf(TOOLBAR, e) == Found(TOOLBAR, 0, 2) && FoundOf(THREE_TEXTS, e) == Found(THREE_TEXTS, 15, 3)
      && FoundOf(BUTTON, e) == Found(BUTTON, -5, 0) && FoundOf(TEXT, e) == Found(TEXT, -5, 0)
  {
    Siblings(BUTTON);
    Siblings(TEXT);
    assert Descendants(TOOLBAR) == 2 && Descendants(THREE_TEXTS) == 3;
  }

  lemma ToolbarCandidates()
    ensures var e := ExpectedRect(TOOLBAR_WINDOW);
      var b, text := FoundOf(BUTTON, e), FoundOf(TEXT, e);
      AllCandidates(TOOLBAR_WINDOW, 8) == [FoundOf(TOOLBAR, e), b, b, FoundOf(THREE_TEXTS, e), text, text, text]
  {
    var e := ExpectedRect(TOOLBAR_WINDOW);
    var b, text := [FoundOf(BUTTON, e)], [FoundOf(TEXT, e)];
    WindowCandidates(TOOLBAR_WINDOW, 8);
    LeafCandidate(BUTTON, 2, 8, e);
    LeafCandidate(TEXT, 2, 8, e);
    CandidatesCons(BUTTON, [], 2, 8, e);
    CandidatesCons(BUTTON, [BUTTON], 2, 8, e);
    assert Below(TOOLBAR, 1, 8, e) == b + (b + []);
    CandidatesCons(TEXT, [], 2, 8, e);
    CandidatesCons(TEXT, [TEXT], 2, 8, e);
    CandidatesCons(TEXT, [TEXT, TEXT], 2, 8, e);
    assert Below(THREE_TEXTS, 1, 8, e) == text + (text + (text + []));
    CandidatesCons(TOOLBAR, [THREE_TEXTS], 1, 8, e);
    CandidatesCons(THREE_TEXTS, [], 1, 8, e);
  }

  /** A toolbar loses against content: with two buttons it scores 0, a group with three texts 15. */
  lemma ToolbarLoses()
    ensures Outcome(TOOLBAR_WINDOW, 8) == Success(THREE_TEXTS, 15)
  {
    var e := ExpectedRect(TOOLBAR_WINDOW);
    var t, x, b := FoundOf(TOOLBAR, e), FoundOf(THREE_TEXTS, e), FoundOf(BUTTON, e);
    var text := FoundOf(TEXT, e);
    ToolbarScores();
    ToolbarCandidates();
    var cs := AllCandidates(TOOLBAR_WINDOW, 8);
    assert cs == [t, b, b, x, text, text, text];
    assert EarliestBest(cs, 3);
    WinnerExactly(TOOLBAR_WINDOW, 8);
    var k :| EarliestBest(cs, k) && Outcome(TOOLBAR_WINDOW, 8) == Verdict(Some(cs[k]));
    assert k == 3;
  }

  // ---- labels and roles ----

  /** A label is chrome exactly if it is one of ten names, or starts with "iPhone " and names an iOS version. */
  lemma ChromeLabelExactly(s: string)
    ensures !IsChromeLabel(None) && !IsChromeLabel(Some(""))
    ensures s != "" ==>
      (IsChromeLabel(Some(s)) <==>
         || s in {"Action", "Home", "Save Screen", "Rotate", "Volume Up", "Volume Down", "Sleep/Wake",
                  "AXCloseButton", "AXFullScreenButton", "AXMinimizeButton"}
         || ("iPhone " <= s && exists a, b :: s == a + " \U{2013} iOS " + b))
  {
    var mark := " \U{2013} iOS ";
    if Includes(s, mark) {
      var k :| 0 <= k <= |s| && mark <= s[k..];
      assert s == s[..k] + mark + s[k + |mark|..];
    }
    if a, b :| s == a + mark + b {
      assert s[|a|..] == mark + b;
    }
  }

  /** Five roles carry app semantics whatever their label, buttons unless they have a chrome label, others never. */
  lemma SemanticsExactly(n: AXNode)
    ensures n.role in {"AXTextField", "AXStaticText", "AXCell", "AXImage", "AXLink"} ==> HasSemantics(n)
    ensures n.role == "AXButton" ==> (HasSemantics(n) <==> !IsChromeLabel(n.axLabel))
    ensures n.role !in {"AXTextField", "AXStaticText", "AXCell", "AXImage", "AXLink", "AXButton"} ==> !HasSemantics(n)
  {}

  /** Menu bars, nested windows and nodes with a chrome label are neither scored nor searched, so content below them
      alone is never found. */
  lemma PrunedHidesContent(window: AXNode, maxDepth: int)
    requires forall i :: 0 <= i < |window.children| ==>
      var c := window.children[i]; c.role in {"AXMenuBar", "AXWindow"} || IsChromeLabel(c.axLabel)
    ensures AllCandidates(window, maxDepth) == [] && Outcome(window, maxDepth) == Empty
  {
    var cs := AllCandidates(window, maxDepth);
    WindowCandidates(window, maxDepth);
    if cs != [] {
      assert cs[0] in cs;
      var i := CandidateOfChild(window.children, 1, maxDepth, ExpectedRect(window), cs[0]);
    }
    WinnerExactly(window, maxDepth);
  }

  /** Any other child of the window is scored, at any positive depth limit. */
  lemma OthersAreScored(window: AXNode, maxDepth: int, i: nat)
    requires i < |window.children| && maxDepth > 0
    requires var c := window.children[i]; c.role !in {"AXMenuBar", "AXWindow"} && !IsChromeLabel(c.axLabel)
    ensures FoundOf(window.children[i], ExpectedRect(window)) in AllCandidates(window, maxDepth)
  {
    WindowCandidates(window, maxDepth);
    ChildIsCandidate(window.children, i, 1, maxDepth, ExpectedRect(window));
  }

  /** The search stops at the first node with at least 25 points and some semantics, even before better ones. */
  lemma FirstGoodEnoughWins(window: AXNode, maxDepth: int, k: nat)
    requires k < |AllCandidates(window, maxDepth)|
    requires var f := AllCandidates(window, maxDepth)[k]; f.score >= 25 && f.semantics >= 1
    requires forall j :: 0 <= j < k ==> AllCandidates(window, maxDepth)[j].score < 25
    ensures var f := AllCandidates(window, maxDepth)[k]; Outcome(window, maxDepth) == Success(f.node, f.score)
  {
    var cs := AllCandidates(window, maxDepth);
    WinnerExactly(window, maxDepth);
    assert Exits(cs[k]);
  }
}
