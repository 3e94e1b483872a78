/** The network interceptor and the page it injects into, as one transition system. */
module InterceptorSpec {
  import opened Basics
  import opened Regex
  import opened Glob
  import Decimal

  datatype Action = Block | Mock

  datatype MockResponse = MockResponse(status: int, headers: map<string, string>, body: string)

  datatype Rule = Rule(id: string, urlPattern: string, action: Action, mockResponse: Option<MockResponse>)

  datatype Server = Server(rules: seq<Rule>, enabled: bool, offline: bool)

  /** `window.fetch` is either the browser's own or the injected hook. */
  datatype Handler = Native | Hook

  datatype PageState = PageState(fetch: Handler, saved: Option<Handler>, rules: Option<seq<Rule>>, offline: bool)

  /** What `evaluate` is asked to run, with the rules and the flag of the moment of the call. */
  datatype Script = Inject(rules: seq<Rule>, offline: bool) | Remove

  /** `ids` is the module-level counter shared by all interceptors. `inFlight` are the scripts that have been
      sent and have not run yet; one connection keeps them in order. */
  datatype Net = Net(server: Server, page: PageState, ids: nat, inFlight: seq<Script>)

  const FRESH_PAGE := PageState(Native, None, None, false)

  const INITIAL := Net(Server([], false, false), FRESH_PAGE, 0, [])

  // ---- rules: an insertion-ordered map keyed by id ----

  function RuleId(n: nat): string { "rule_" + Decimal.Print(n) }

  function MapSet(rules: seq<Rule>, rule: Rule): seq<Rule> {
    if rules == [] then [rule]
    else if rules[0].id == rule.id then [rule] + rules[1..]
    else [rules[0]] + MapSet(rules[1..], rule)
  }

  function MapDelete(rules: seq<Rule>, id: string): seq<Rule> {
    if rules == [] then []
    else if rules[0].id == id then rules[1..]
    else [rules[0]] + MapDelete(rules[1..], id)
  }

  function FirstMatch(rules: seq<Rule>, url: string): Option<Rule> {
    if rules == [] then None
    else if Selects(rules[0].urlPattern, url) then Some(rules[0])
    else FirstMatch(rules[1..], url)
  }

  /** `rules[k]` is the earliest rule, in insertion order, whose pattern selects the URL. */
  ghost predicate IsEarliest(rules: seq<Rule>, url: string, k: int) {
    0 <= k < |rules| && Selects(rules[k].urlPattern, url) && forall j :: 0 <= j < k ==> !Selects(rules[j].urlPattern, url)
  }

  /** The selected rule is the earliest that matches, and there is none exactly when none matches. */
  lemma {:induction false} FirstMatchIsEarliest(rules: seq<Rule>, url: string)
    ensures FirstMatch(rules, url).None? <==> forall j :: 0 <= j < |rules| ==> !Selects(rules[j].urlPattern, url)
    ensures forall r :: FirstMatch(rules, url) == Some(r) ==> exists k :: IsEarliest(rules, url, k) && rules[k] == r
  {
    if rules != [] {
      var t := rules[1..];
      assert forall j :: 0 <= j < |t| ==> t[j] == rules[j + 1];
      FirstMatchIsEarliest(t, url);
      if Selects(rules[0].urlPattern, url) {
        assert IsEarliest(rules, url, 0);
      } else if FirstMatch(t, url).Some? {
        var k :| IsEarliest(t, url, k) && t[k] == FirstMatch(t, url).value;
        assert IsEarliest(rules, url, k + 1);
      }
    }
  }

  // ---- scripts that run in the page ----

  function Injected(p: PageState, rules: seq<Rule>, offline: bool): PageState {
    PageState(Hook, if p.saved.None? then Some(p.fetch) else p.saved, Some(rules), offline)
  }

  function Removed(p: PageState): PageState {
    PageState(if p.saved.Some? then p.saved.value else p.fetch, None, None, false)
  }

  function Ran(p: PageState, script: Script): PageState {
    match script
    case Inject(rules, offline) => Injected(p, rules, offline)
    case Remove => Removed(p)
  }

  // ---- calls and events ----

  /** The calls run up to their `await`. In between, the page may run the oldest script in flight, any script
      in flight may be lost, and the page may navigate. */
  datatype Op =
    | AddRule(urlPattern: string, action: Action, mockResponse: Option<MockResponse>)
    | RemoveRule(id: string)
    | ClearRules
    | Enable
    | Disable
    | SetOffline(value: bool)
    | SyncRules
    | Reinject
    | OtherInterceptorAdds
    | Deliver
    | Lose(k: nat)
    | Navigate

  function Send(s: Net, script: Script): Net {
    s.(inFlight := s.inFlight + [script])
  }

  function SendInjection(s: Net): Net {
    Send(s, Inject(s.server.rules, s.server.offline))
  }

  function Disabled(s: Net): Net {
    Send(s.(server := Server([], false, false)), Remove)
  }

  function Step(s: Net, op: Op): Net {
    match op
    case AddRule(p, a, m) =>
      var n := s.ids + 1;
      s.(ids := n, server := s.server.(rules := MapSet(s.server.rules, Rule(RuleId(n), p, a, m))))
    case RemoveRule(id) => s.(server := s.server.(rules := MapDelete(s.server.rules, id)))
    case ClearRules => s.(server := s.server.(rules := []))
    case Enable => SendInjection(s.(server := s.server.(enabled := true)))
    case Disable => Disabled(s)
    case SetOffline(true) => SendInjection(s.(server := s.server.(offline := true, enabled := true)))
    case SetOffline(false) =>
      var s' := s.(server := s.server.(offline := false));
      if !s.server.enabled then s'
      else if s.server.rules == [] then Disabled(s')
      else SendInjection(s')
    case SyncRules => if s.server.enabled then SendInjection(s) else s
    case Reinject => if s.server.enabled then SendInjection(s) else s
    case OtherInterceptorAdds => s.(ids := s.ids + 1)
    case Deliver => if s.inFlight == [] then s else s.(page := Ran(s.page, s.inFlight[0]), inFlight := s.inFlight[1..])
    case Lose(k) => if k < |s.inFlight| then s.(inFlight := s.inFlight[..k] + s.inFlight[k + 1..]) else s
    case Navigate => s.(page := FRESH_PAGE)
  }

  function Run(s: Net, ops: seq<Op>): Net
    decreases |ops|
  {
    if ops == [] then s else Run(Step(s, ops[0]), ops[1..])
  }

  // ---- what a request meets ----

  datatype Outcome = Failed | Blocked | Mocked(body: string, status: int, headers: map<string, string>) | Passed

  function Decide(offline: bool, rules: seq<Rule>, url: string): Outcome {
    if offline then Failed
    else
      match FirstMatch(rules, url)
      case Some(Rule(_, _, Block, _)) => Blocked
      case Some(Rule(_, _, Mock, Some(m))) => Mocked(m.body, if m.status == 0 then 200 else m.status, m.headers)
      case _ => Passed
  }

  /** What `fetch(url)` does in the page. */
  function PageFetch(p: PageState, url: string): Outcome {
    if p.fetch == Native then Passed
    else Decide(p.offline, if p.rules.Some? then p.rules.value else [], url)
  }

  // ---- what every run keeps ----

  predicate DistinctIds(rules: seq<Rule>) {
    forall i, j :: 0 <= i < j < |rules| ==> rules[i].id != rules[j].id
  }

  ghost predicate IsIssued(id: string, ids: nat) {
    exists n :: 0 < n <= ids && id == RuleId(n)
  }

  ghost predicate ServerValid(s: Server, ids: nat) {
    && (s.offline ==> s.enabled)
    && (forall i :: 0 <= i < |s.rules| ==> IsIssued(s.rules[i].id, ids))
    && DistinctIds(s.rules)
  }

  /** The hook never wraps itself: what is saved is always the browser's own function. */
  ghost predicate PageValid(p: PageState) {
    && (p.fetch == Hook <==> p.saved.Some?)
    && (p.fetch == Hook <==> p.rules.Some?)
    && (p.saved.Some? ==> p.saved.value == Native)
  }

  ghost predicate Valid(s: Net) {
    ServerValid(s.server, s.ids) && PageValid(s.page)
  }

  lemma IssuedMonotone(id: string, m: nat, n: nat)
    requires IsIssued(id, m) && m <= n
    ensures IsIssued(id, n)
  {
    var k :| 0 < k <= m && id == RuleId(k);
    assert 0 < k <= n;
  }

  lemma NewIdIsNew(id: string, ids: nat)
    requires IsIssued(id, ids)
    ensures id != RuleId(ids + 1)
  {
    var k :| 0 < k <= ids && id == RuleId(k);
    if id == RuleId(ids + 1) {
      assert Decimal.Print(k) == RuleId(k)[5..] == RuleId(ids + 1)[5..] == Decimal.Print(ids + 1);
      Decimal.PrintInjective(k, ids + 1);
    }
  }

  /** A rule with a fresh id goes to the end, so earlier rules keep precedence. */
  lemma {:induction false} FreshAppends(rules: seq<Rule>, rule: Rule)
    requires forall i :: 0 <= i < |rules| ==> rules[i].id != rule.id
    ensures MapSet(rules, rule) == rules + [rule]
  {
    if rules != [] {
      FreshAppends(rules[1..], rule);
    }
  }

  /** Deleting an id drops the one rule that has it and keeps the order of the others. */
  lemma {:induction false} DeleteDrops(rules: seq<Rule>, id: string, k: nat)
    requires DistinctIds(rules) && k < |rules| && rules[k].id == id
    ensures MapDelete(rules, id) == rules[..k] + rules[k + 1..]
    decreases k
  {
    if k > 0 {
      var t := rules[1..];
      assert t[k - 1] == rules[k] && rules[0].id != rules[k].id;
      DeleteDrops(t, id, k - 1);
      assert [rules[0]] + (t[..k - 1] + t[k..]) == rules[..k] + rules[k + 1..];
    }
  }

  lemma {:induction false} DeleteMissing(rules: seq<Rule>, id: string)
    requires forall i :: 0 <= i < |rules| ==> rules[i].id != id
    ensures MapDelete(rules, id) == rules
  {
    if rules != [] {
      DeleteMissing(rules[1..], id);
    }
  }

  lemma AddKeepsRules(s: Server, ids: nat, rule: Rule)
    requires ServerValid(s, ids) && rule.id == RuleId(ids + 1)
    ensures ServerValid(s.(rules := MapSet(s.rules, rule)), ids + 1)
  {
    forall i | 0 <= i < |s.rules| ensures IsIssued(s.rules[i].id, ids + 1) && s.rules[i].id != rule.id {
      IssuedMonotone(s.rules[i].id, ids, ids + 1);
      NewIdIsNew(s.rules[i].id, ids);
    }
    FreshAppends(s.rules, rule);
    assert IsIssued(rule.id, ids + 1);
  }

  lemma RemoveKeepsRules(s: Server, ids: nat, id: string)
    requires ServerValid(s, ids)
    ensures ServerValid(s.(rules := MapDelete(s.rules, id)), ids)
  {
    if k :| 0 <= k < |s.rules| && s.rules[k].id == id {
      DeleteDrops(s.rules, id, k);
    } else {
      DeleteMissing(s.rules, id);
    }
  }

  lemma IdsMoveOn(s: Server, ids: nat)
    requires ServerValid(s, ids)
    ensures ServerValid(s, ids + 1)
  {
    forall i | 0 <= i < |s.rules| ensures IsIssued(s.rules[i].id, ids + 1) {
      IssuedMonotone(s.rules[i].id, ids, ids + 1);
    }
  }

  lemma StepKeepsValid(s: Net, op: Op)
    requires Valid(s)
    ensures Valid(Step(s, op))
  {
    match op {
      case AddRule(p, a, m) => AddKeepsRules(s.server, s.ids, Rule(RuleId(s.ids + 1), p, a, m));
      case RemoveRule(id) => RemoveKeepsRules(s.server, s.ids, id);
      case OtherInterceptorAdds => IdsMoveOn(s.server, s.ids);
      case _ =>
    }
  }

  /** In every run, from the start: offline implies enabled, rule ids are distinct and issued,
      and the page can always be restored to the browser's own `fetch`. */
  lemma {:induction false} RunKeepsValid(s: Net, ops: seq<Op>)
    requires Valid(s)
    ensures Valid(Run(s, ops))
    decreases |ops|
  {
    if ops != [] {
      StepKeepsValid(s, ops[0]);
      RunKeepsValid(Step(s, ops[0]), ops[1..]);
    }
  }
}
