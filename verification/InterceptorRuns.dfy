/** Interceptor and page over runs in which scripts are under way while calls, edits of the rules
    and navigations go on. */
module InterceptorRuns {
  import opened Basics
  import opened Glob
  import opened InterceptorSpec
  import SeqFacts

  // ---- what a run sends and what reaches the page ----

  /** The calls that send the injection script. */
  predicate Injects(s: Net, op: Op) {
    op.Enable? || (op.SetOffline? && (op.value || (s.server.enabled && s.server.rules != [])))
    || ((op.SyncRules? || op.Reinject?) && s.server.enabled)
  }

  predicate Removes(s: Net, op: Op) {
    op.Disable? || (op.SetOffline? && !op.value && s.server.enabled && s.server.rules == [])
  }

  /** The script that a call sends, made of the rules and the flag as the call leaves them. */
  function Sent(s: Net, op: Op): seq<Script> {
    if Injects(s, op) then [Inject(Step(s, op).server.rules, Step(s, op).server.offline)]
    else if Removes(s, op) then [Remove]
    else []
  }

  function AllSent(s: Net, ops: seq<Op>): seq<Script>
    decreases |ops|
  {
    if ops == [] then [] else Sent(s, ops[0]) + AllSent(Step(s, ops[0]), ops[1..])
  }

  /** What happens to the page: a script runs in it, or a navigation wipes it. */
  datatype Landing = Arrived(script: Script) | Wiped

  function Landed(s: Net, op: Op): seq<Landing> {
    if op.Deliver? && s.inFlight != [] then [Arrived(s.inFlight[0])] else if op.Navigate? then [Wiped] else []
  }

  function AllLanded(s: Net, ops: seq<Op>): seq<Landing>
    decreases |ops|
  {
    if ops == [] then [] else Landed(s, ops[0]) + AllLanded(Step(s, ops[0]), ops[1..])
  }

  function ArrivedScripts(ls: seq<Landing>): seq<Script> {
    if ls == [] then [] else (if ls[0].Arrived? then [ls[0].script] else []) + ArrivedScripts(ls[1..])
  }

  predicate Lossless(ops: seq<Op>) {
    forall i :: 0 <= i < |ops| ==> !ops[i].Lose?
  }

  // ---- the page shows what landed last ----

  function Shown(ls: seq<Landing>): PageState {
    if ls == [] then FRESH_PAGE
    else
      match ls[|ls| - 1]
      case Arrived(Inject(rules, offline)) => PageState(Hook, Some(Native), Some(rules), offline)
      case _ => FRESH_PAGE
  }

  lemma StepShows(s: Net, op: Op, past: seq<Landing>)
    requires s.page == Shown(past)
    ensures Step(s, op).page == Shown(past + Landed(s, op))
  {
    SeqFacts.Nil(past);
  }

  lemma {:induction false} RunShows(s: Net, ops: seq<Op>, past: seq<Landing>)
    requires s.page == Shown(past)
    ensures Run(s, ops).page == Shown(past + AllLanded(s, ops))
    decreases |ops|
  {
    SeqFacts.Nil(past);
    if ops != [] {
      StepShows(s, ops[0], past);
      RunShows(Step(s, ops[0]), ops[1..], past + Landed(s, ops[0]));
      SeqFacts.Assoc(past, Landed(s, ops[0]), AllLanded(Step(s, ops[0]), ops[1..]));
    }
  }

  /** In every run, with losses, races and navigations, all of the page's state is decided by what landed last:
      the rules and flag of an injection, or the browser's own state after a removal or navigation. */
  lemma PageShowsLastLanding(ops: seq<Op>)
    ensures Run(INITIAL, ops).page == Shown(AllLanded(INITIAL, ops))
  {
    RunShows(INITIAL, ops, []);
    SeqFacts.Nil(AllLanded(INITIAL, ops));
  }

  // ---- scripts arrive in the order sent ----

  lemma {:induction false} ArrivedAppend(a: seq<Landing>, b: seq<Landing>)
    ensures ArrivedScripts(a + b) == ArrivedScripts(a) + ArrivedScripts(b)
    decreases |a|
  {
    if a == [] {
      SeqFacts.Nil(b);
      SeqFacts.Nil(ArrivedScripts(b));
    } else {
      SeqFacts.Tail(a, b);
      ArrivedAppend(a[1..], b);
      SeqFacts.Assoc(if a[0].Arrived? then [a[0].script] else [], ArrivedScripts(a[1..]), ArrivedScripts(b));
    }
  }

  lemma StepQueue(s: Net, op: Op)
    requires !op.Lose?
    ensures s.inFlight + Sent(s, op) == ArrivedScripts(Landed(s, op)) + Step(s, op).inFlight
  {
    SeqFacts.Nil(s.inFlight);
    if op.Deliver? && s.inFlight != [] {
      SeqFacts.Cons(s.inFlight);
    }
  }

  /** Nothing lost, nothing invented, nothing overtaken: what was in flight and what has been sent since is what
      has arrived, in order, followed by what is in flight now. */
  lemma {:induction false} ScriptsKeepOrder(s: Net, ops: seq<Op>)
    requires Lossless(ops)
    ensures s.inFlight + AllSent(s, ops) == ArrivedScripts(AllLanded(s, ops)) + Run(s, ops).inFlight
    decreases |ops|
  {
    if ops == [] {
      SeqFacts.Nil(s.inFlight);
    } else {
      var s', l := Step(s, ops[0]), Landed(s, ops[0]);
      var sent, landed := AllSent(s', ops[1..]), AllLanded(s', ops[1..]);
      StepQueue(s, ops[0]);
      ScriptsKeepOrder(s', ops[1..]);
      ArrivedAppend(l, landed);
      SeqFacts.Assoc(s.inFlight, Sent(s, ops[0]), sent);
      SeqFacts.Assoc(ArrivedScripts(l), s'.inFlight, sent);
      SeqFacts.Assoc(ArrivedScripts(l), ArrivedScripts(landed), Run(s, ops).inFlight);
    }
  }

  /** A script is one that was in flight before or that a call of the run sent. */
  ghost predicate Origin(s: Net, ops: seq<Op>, x: Script) {
    x in s.inFlight || exists k :: 0 <= k < |ops| && x in Sent(Run(s, ops[..k]), ops[k])
  }

  lemma OriginLater(s: Net, ops: seq<Op>, x: Script)
    requires ops != [] && Origin(Step(s, ops[0]), ops[1..], x)
    ensures Origin(s, ops, x)
  {
    var s' := Step(s, ops[0]);
    if x in s'.inFlight {
      if x !in s.inFlight {
        assert x in Sent(s, ops[0]) && Run(s, ops[..0]) == s;
      }
    } else {
      var k :| 0 <= k < |ops[1..]| && x in Sent(Run(s', ops[1..][..k]), ops[1..][k]);
      assert ops[..k + 1][1..] == ops[1..][..k];
      assert x in Sent(Run(s, ops[..k + 1]), ops[k + 1]);
    }
  }

  /** Even with losses, every script that arrives was sent by a call of the run, with the rules and the flag
      that the interceptor had right after that call. */
  lemma {:induction false} ArrivalsWereSent(s: Net, ops: seq<Op>, x: Script)
    requires Arrived(x) in AllLanded(s, ops)
    ensures Origin(s, ops, x)
    decreases |ops|
  {
    if Arrived(x) !in Landed(s, ops[0]) {
      ArrivalsWereSent(Step(s, ops[0]), ops[1..], x);
      OriginLater(s, ops, x);
    }
  }

  // ---- edits of the rules ----

  predicate Drops(op: Op, id: string) {
    op.ClearRules? || op.Disable? || (op.RemoveRule? && op.id == id)
  }

  predicate DroppedIn(ops: seq<Op>, id: string) {
    exists i :: 0 <= i < |ops| && Drops(ops[i], id)
  }

  lemma DroppedStep(ops: seq<Op>, id: string)
    requires ops != []
    ensures DroppedIn(ops, id) <==> Drops(ops[0], id) || DroppedIn(ops[1..], id)
  {
    if DroppedIn(ops[1..], id) {
      var i :| 0 <= i < |ops[1..]| && Drops(ops[1..][i], id);
      assert Drops(ops[i + 1], id);
    }
    if i :| 1 <= i < |ops| && Drops(ops[i], id) {
      assert ops[1..][i - 1] == ops[i];
    }
  }

  /** The rules that `ops` leave. */
  function Left(rules: seq<Rule>, ops: seq<Op>): seq<Rule> {
    if rules == [] then [] else (if DroppedIn(ops, rules[0].id) then [] else [rules[0]]) + Left(rules[1..], ops)
  }

  function NewRule(s: Net, op: Op): Rule
    requires op.AddRule?
  {
    Rule(RuleId(s.ids + 1), op.urlPattern, op.action, op.mockResponse)
  }

  /** What the first operation adds and the rest leaves. */
  function AddedFirst(s: Net, ops: seq<Op>): seq<Rule>
    requires ops != []
  {
    if ops[0].AddRule? then Left([NewRule(s, ops[0])], ops[1..]) else []
  }

  /** The rules that `ops` add and leave. */
  function Added(s: Net, ops: seq<Op>): seq<Rule>
    decreases |ops|
  {
    if ops == [] then [] else AddedFirst(s, ops) + Added(Step(s, ops[0]), ops[1..])
  }

  lemma {:induction false} LeftAppend(a: seq<Rule>, b: seq<Rule>, ops: seq<Op>)
    ensures Left(a + b, ops) == Left(a, ops) + Left(b, ops)
    decreases |a|
  {
    if a == [] {
      SeqFacts.Nil(b);
      SeqFacts.Nil(Left(b, ops));
    } else {
      SeqFacts.Tail(a, b);
      LeftAppend(a[1..], b, ops);
      SeqFacts.Assoc(if DroppedIn(ops, a[0].id) then [] else [a[0]], Left(a[1..], ops), Left(b, ops));
    }
  }

  lemma {:induction false} LeftAfterOther(rules: seq<Rule>, ops: seq<Op>)
    requires ops != [] && forall i :: 0 <= i < |rules| ==> !Drops(ops[0], rules[i].id)
    ensures Left(rules, ops) == Left(rules, ops[1..])
  {
    if rules != [] {
      DroppedStep(ops, rules[0].id);
      LeftAfterOther(rules[1..], ops);
    }
  }

  lemma {:induction false} LeftAfterClear(rules: seq<Rule>, ops: seq<Op>)
    requires ops != [] && (ops[0].ClearRules? || ops[0].Disable?)
    ensures Left(rules, ops) == []
  {
    if rules != [] {
      DroppedStep(ops, rules[0].id);
      LeftAfterClear(rules[1..], ops);
    }
  }

  lemma {:induction false} LeftAfterRemove(rules: seq<Rule>, ops: seq<Op>)
    requires DistinctIds(rules) && ops != [] && ops[0].RemoveRule?
    ensures Left(rules, ops) == Left(MapDelete(rules, ops[0].id), ops[1..])
  {
    if rules != [] {
      DroppedStep(ops, rules[0].id);
      if rules[0].id == ops[0].id {
        LeftAfterOther(rules[1..], ops);
      } else {
        LeftAfterRemove(rules[1..], ops);
      }
    }
  }

  lemma {:induction false} LeftNothing(rules: seq<Rule>)
    ensures Left(rules, []) == rules
  {
    if rules != [] {
      LeftNothing(rules[1..]);
    }
  }

  lemma RulesAfterAdd(s: Net, ops: seq<Op>)
    requires Valid(s) && ops != [] && ops[0].AddRule?
    ensures Left(s.server.rules, ops) + Left([NewRule(s, ops[0])], ops[1..]) == Left(Step(s, ops[0]).server.rules, ops[1..])
  {
    var rules, newRule := s.server.rules, NewRule(s, ops[0]);
    forall i | 0 <= i < |rules| ensures rules[i].id != newRule.id {
      NewIdIsNew(rules[i].id, s.ids);
    }
    FreshAppends(rules, newRule);
    LeftAppend(rules, [newRule], ops[1..]);
    LeftAfterOther(rules, ops);
  }

  lemma OthersKeepRules(s: Net, op: Op)
    requires !op.AddRule? && !op.RemoveRule? && !op.ClearRules? && !op.Disable?
    ensures Step(s, op).server.rules == s.server.rules
  {}

  lemma RulesAfterFirst(s: Net, ops: seq<Op>)
    requires Valid(s) && ops != []
    ensures Left(s.server.rules, ops) + AddedFirst(s, ops) == Left(Step(s, ops[0]).server.rules, ops[1..])
  {
    var rules, op := s.server.rules, ops[0];
    if op.AddRule? {
      RulesAfterAdd(s, ops);
    } else {
      SeqFacts.Nil(Left(rules, ops));
      if op.RemoveRule? {
        LeftAfterRemove(rules, ops);
      } else if op.ClearRules? || op.Disable? {
        LeftAfterClear(rules, ops);
      } else {
        OthersKeepRules(s, op);
        LeftAfterOther(rules, ops);
      }
    }
  }

  /** Every run leaves, of the old rules in their order, those that it does not drop, and behind them, in
      order, those that it adds and does not drop again. */
  lemma {:induction false} RulesAfterRun(s: Net, ops: seq<Op>)
    requires Valid(s)
    ensures Run(s, ops).server.rules == Left(s.server.rules, ops) + Added(s, ops)
    decreases |ops|
  {
    if ops == [] {
      LeftNothing(s.server.rules);
      SeqFacts.Nil(s.server.rules);
    } else {
      var s', rest := Step(s, ops[0]), ops[1..];
      StepKeepsValid(s, ops[0]);
      RulesAfterFirst(s, ops);
      RulesAfterRun(s', rest);
      SeqFacts.Assoc(Left(s.server.rules, ops), AddedFirst(s, ops), Added(s', rest));
    }
  }

  // ---- which rule a request meets ----

  lemma {:induction false} FirstMatchAppend(a: seq<Rule>, b: seq<Rule>, url: string)
    ensures FirstMatch(a + b, url) == if FirstMatch(a, url).Some? then FirstMatch(a, url) else FirstMatch(b, url)
    decreases |a|
  {
    if a == [] {
      SeqFacts.Nil(b);
    } else {
      SeqFacts.Tail(a, b);
      FirstMatchAppend(a[1..], b, url);
    }
  }

  lemma {:induction false} FirstMatchLeft(rules: seq<Rule>, ops: seq<Op>, url: string)
    ensures FirstMatch(rules, url).None? ==> FirstMatch(Left(rules, ops), url).None?
    ensures FirstMatch(rules, url).Some? && !DroppedIn(ops, FirstMatch(rules, url).value.id)
      ==> FirstMatch(Left(rules, ops), url) == FirstMatch(rules, url)
    decreases |rules|
  {
    if rules != [] {
      FirstMatchLeft(rules[1..], ops, url);
      FirstMatchAppend(if DroppedIn(ops, rules[0].id) then [] else [rules[0]], Left(rules[1..], ops), url);
    }
  }

  lemma {:induction false} LeftMembers(rules: seq<Rule>, ops: seq<Op>)
    ensures forall r :: r in Left(rules, ops) <==> r in rules && !DroppedIn(ops, r.id)
  {
    if rules != [] {
      LeftMembers(rules[1..], ops);
      SeqFacts.Cons(rules);
    }
  }

  lemma {:induction false} FirstMatchMember(rules: seq<Rule>, url: string)
    ensures FirstMatch(rules, url).Some? ==> FirstMatch(rules, url).value in rules
  {
    if rules != [] {
      FirstMatchMember(rules[1..], url);
    }
  }

  /** Added rules have ids that were not issued before. */
  lemma {:induction false} AddedAreNew(s: Net, ops: seq<Op>, id: string)
    requires IsIssued(id, s.ids)
    ensures forall r :: r in Added(s, ops) ==> r.id != id
    decreases |ops|
  {
    if ops != [] {
      var s' := Step(s, ops[0]);
      IssuedMonotone(id, s.ids, s'.ids);
      AddedAreNew(s', ops[1..], id);
      if ops[0].AddRule? {
        NewIdIsNew(id, s.ids);
        LeftMembers([NewRule(s, ops[0])], ops[1..]);
      }
    }
  }

  /** The rule that a request meets under the rules before `ops` is not dropped by `ops`; or there is
      none, and none of the rules that `ops` add and leave selects the URL. */
  ghost predicate EditsDoNotMatter(s: Net, ops: seq<Op>, url: string) {
    match FirstMatch(s.server.rules, url)
    case Some(r) => !DroppedIn(ops, r.id)
    case None => forall r :: r in Added(s, ops) ==> !Selects(r.urlPattern, url)
  }

  /** Edits leave the rule that a URL selects as it was exactly when they do not matter to the URL. */
  lemma SelectionKeptExactly(s: Net, ops: seq<Op>, url: string)
    requires Valid(s)
    ensures FirstMatch(s.server.rules, url) == FirstMatch(Run(s, ops).server.rules, url) <==> EditsDoNotMatter(s, ops, url)
  {
    var rules, left, added := s.server.rules, Left(s.server.rules, ops), Added(s, ops);
    RulesAfterRun(s, ops);
    FirstMatchLeft(rules, ops, url);
    FirstMatchAppend(left, added, url);
    match FirstMatch(rules, url)
    case None =>
      FirstMatchIsEarliest(added, url);
    case Some(r) =>
      FirstMatchMember(rules, url);
      FirstMatchMember(left + added, url);
      LeftMembers(rules, ops);
      AddedAreNew(s, ops, r.id);
  }

  // ---- page and interceptor ----

  /** What the flags are after the last script of `sent`. */
  ghost predicate FlagsFollow(server: Server, sent: seq<Script>) {
    if sent == [] then !server.enabled && !server.offline
    else
      match sent[|sent| - 1]
      case Inject(_, offline) => server.enabled && server.offline == offline
      case Remove => !server.enabled && !server.offline
  }

  lemma StepFlags(s: Net, op: Op, sent: seq<Script>)
    requires FlagsFollow(s.server, sent)
    ensures FlagsFollow(Step(s, op).server, sent + Sent(s, op))
  {
    SeqFacts.Nil(sent);
  }

  lemma {:induction false} RunFlags(s: Net, ops: seq<Op>, sent: seq<Script>)
    requires FlagsFollow(s.server, sent)
    ensures FlagsFollow(Run(s, ops).server, sent + AllSent(s, ops))
    decreases |ops|
  {
    if ops == [] {
      SeqFacts.Nil(sent);
    } else {
      StepFlags(s, ops[0], sent);
      SeqFacts.Assoc(sent, Sent(s, ops[0]), AllSent(Step(s, ops[0]), ops[1..]));
      RunFlags(Step(s, ops[0]), ops[1..], sent + Sent(s, ops[0]));
    }
  }

  lemma {:induction false} RunConcat(s: Net, a: seq<Op>, b: seq<Op>)
    ensures Run(s, a + b) == Run(Run(s, a), b)
    decreases |a|
  {
    if a == [] {
      SeqFacts.Nil(b);
    } else {
      SeqFacts.Tail(a, b);
      RunConcat(Step(s, a[0]), a[1..], b);
    }
  }

  /** The page shows what the call `ops[k]` sent. */
  ghost predicate ShowsSentBy(ops: seq<Op>, k: nat) {
    && k < |ops| && Injects(Run(INITIAL, ops[..k]), ops[k])
    && var sender, page := Run(INITIAL, ops[..k + 1]).server, Run(INITIAL, ops).page;
      page.rules == Some(sender.rules) && page.offline == sender.offline
  }

  lemma SomeCallShown(ops: seq<Op>)
    requires Run(INITIAL, ops).page.fetch == Hook
    ensures exists k: nat :: ShowsSentBy(ops, k)
  {
    var ls := AllLanded(INITIAL, ops);
    PageShowsLastLanding(ops);
    var x := ls[|ls| - 1].script;
    ArrivalsWereSent(INITIAL, ops, x);
    var k: nat :| k < |ops| && x in Sent(Run(INITIAL, ops[..k]), ops[k]);
    assert ops[..k + 1] == ops[..k] + [ops[k]] && [ops[k]][1..] == [];
    RunConcat(INITIAL, ops[..k], [ops[k]]);
    assert Run(Step(Run(INITIAL, ops[..k]), ops[k]), []) == Step(Run(INITIAL, ops[..k]), ops[k]);
    assert ShowsSentBy(ops, k);
  }

  /** Main result, for every run and every moment of it, scripts lost or under way included: a hooked page has the rules
      and the flag that the interceptor had after some injecting call; and for each URL it selects the rule that
      `findMatchingRule` selects now exactly if the edits since that call do not matter to the URL. */
  lemma HookedPageAgreesExactly(ops: seq<Op>, url: string)
    requires Run(INITIAL, ops).page.fetch == Hook
    ensures exists k: nat :: ShowsSentBy(ops, k)
    ensures forall k: nat :: ShowsSentBy(ops, k) ==>
      (FirstMatch(Run(INITIAL, ops).page.rules.value, url) == FirstMatch(Run(INITIAL, ops).server.rules, url)
       <==> EditsDoNotMatter(Run(INITIAL, ops[..k + 1]), ops[k + 1..], url))
  {
    SomeCallShown(ops);
    forall k: nat | ShowsSentBy(ops, k)
      ensures FirstMatch(Run(INITIAL, ops).page.rules.value, url) == FirstMatch(Run(INITIAL, ops).server.rules, url)
       <==> EditsDoNotMatter(Run(INITIAL, ops[..k + 1]), ops[k + 1..], url)
    {
      RunKeepsValid(INITIAL, ops[..k + 1]);
      assert ops == ops[..k + 1] + ops[k + 1..];
      RunConcat(INITIAL, ops[..k + 1], ops[k + 1..]);
      SelectionKeptExactly(Run(INITIAL, ops[..k + 1]), ops[k + 1..], url);
    }
  }

  /** A navigation is what happened to the page last. */
  predicate EndsWiped(ls: seq<Landing>) {
    ls != [] && ls[|ls| - 1] == Wiped
  }

  /** Unless a navigation came last, the page shows the last script that arrived. */
  lemma ShownIsLastScript(ls: seq<Landing>)
    ensures var scripts := ArrivedScripts(ls);
      Shown(ls) == if EndsWiped(ls) || scripts == [] then FRESH_PAGE else Ran(FRESH_PAGE, scripts[|scripts| - 1])
  {
    if ls != [] {
      var n := |ls| - 1;
      assert ls == ls[..n] + [ls[n]];
      ArrivedAppend(ls[..n], [ls[n]]);
      assert [ls[n]][1..] == [];
    }
  }

  /** When nothing has been lost and nothing is in flight, a hook in the page belongs to an enabled interceptor with
      the same offline flag, and an enabled interceptor lacks its hook only if the page has
      navigated since the last script ran in it. */
  lemma NoStrayHook(ops: seq<Op>)
    requires Lossless(ops) && Run(INITIAL, ops).inFlight == []
    ensures var s := Run(INITIAL, ops);
      && (s.page.fetch == Hook <==> s.server.enabled && !EndsWiped(AllLanded(INITIAL, ops)))
      && (s.page.fetch == Hook ==> s.page.offline == s.server.offline)
  {
    var sent, ls := AllSent(INITIAL, ops), AllLanded(INITIAL, ops);
    PageShowsLastLanding(ops);
    ShownIsLastScript(ls);
    ScriptsKeepOrder(INITIAL, ops);
    SeqFacts.Nil(sent);
    SeqFacts.Nil(ArrivedScripts(ls));
    RunFlags(INITIAL, ops, []);
  }

  /** In state `s`, the call `op` sends a script; `after` sends and loses nothing, and in the end nothing is in flight. */
  ghost predicate Quiet(s: Net, op: Op, after: seq<Op>) {
    && Sent(s, op) != [] && Lossless(after) && AllSent(Step(s, op), after) == []
    && Run(Step(s, op), after).inFlight == []
  }

  lemma CallSends(s: Net, op: Op)
    requires Sent(s, op) != []
    ensures |Sent(s, op)| == 1 && Step(s, op).page == s.page && Step(s, op).inFlight == s.inFlight + Sent(s, op)
    ensures FlagsFollow(Step(s, op).server, Sent(s, op))
    ensures Sent(s, op)[0].Inject? ==> Sent(s, op)[0].rules == Step(s, op).server.rules
  {}

  /** From a state `s` right after a call with the script `x`: the page ends up as that script makes it,
      unless a navigation came last. */
  lemma QuietFrom(s: Net, past: seq<Landing>, x: Script, after: seq<Op>)
    requires s.page == Shown(past) && s.inFlight != [] && s.inFlight[|s.inFlight| - 1] == x
    requires Lossless(after) && AllSent(s, after) == [] && Run(s, after).inFlight == []
    ensures Run(s, after).page == if EndsWiped(AllLanded(s, after)) then FRESH_PAGE else Ran(FRESH_PAGE, x)
  {
    var ls := AllLanded(s, after);
    RunShows(s, after, past);
    ShownIsLastScript(past + ls);
    ArrivedAppend(past, ls);
    ScriptsKeepOrder(s, after);
    SeqFacts.Nil(s.inFlight);
    SeqFacts.Nil(ArrivedScripts(ls));
  }

  /** Then the page is as that last script makes it, unless it has navigated since. */
  lemma QuietPage(before: seq<Op>, op: Op, after: seq<Op>)
    requires Quiet(Run(INITIAL, before), op, after)
    ensures var s0 := Run(INITIAL, before);
      var s1 := Step(s0, op);
      Run(s1, after).page == if EndsWiped(AllLanded(s1, after)) then FRESH_PAGE else Ran(FRESH_PAGE, Sent(s0, op)[0])
  {
    var s0 := Run(INITIAL, before);
    PageShowsLastLanding(before);
    CallSends(s0, op);
    QuietFrom(Step(s0, op), AllLanded(INITIAL, before), Sent(s0, op)[0], after);
  }

  /** Over every run, whatever was lost, under way or edited before: once the script of the last sending call
      has run and nothing is in flight, the page is hooked exactly if that call injects and the page has not
      navigated since, and then it has the flags of the interceptor and the rules of the moment of
      that call. */
  lemma InjectionAgrees(before: seq<Op>, op: Op, after: seq<Op>)
    requires Quiet(Run(INITIAL, before), op, after)
    ensures var s0 := Run(INITIAL, before);
      var s1 := Step(s0, op);
      var s := Run(s1, after);
      && (s.page.fetch == Hook <==> Injects(s0, op) && !EndsWiped(AllLanded(s1, after)))
      && (s.page.fetch == Hook ==>
           s.server.enabled && s.page.offline == s.server.offline && s.page.rules == Some(s1.server.rules))
  {
    var s0 := Run(INITIAL, before);
    var s1, script := Step(s0, op), Sent(s0, op);
    CallSends(s0, op);
    QuietPage(before, op, after);
    RunFlags(s1, after, script);
    SeqFacts.Nil(script);
  }

  lemma ValidAfterCall(before: seq<Op>, op: Op)
    ensures Valid(Step(Run(INITIAL, before), op))
  {
    RunKeepsValid(INITIAL, before);
    StepKeepsValid(Run(INITIAL, before), op);
  }

  /** When moreover the edits since do not matter to a URL, and only then, the page selects the rule that
      `findMatchingRule` selects, and a request meets what the interceptor decides. */
  lemma InjectionDecides(before: seq<Op>, op: Op, after: seq<Op>, url: string)
    requires Quiet(Run(INITIAL, before), op, after)
    requires Run(Step(Run(INITIAL, before), op), after).page.fetch == Hook
    ensures var s1 := Step(Run(INITIAL, before), op);
      var s := Run(s1, after);
      && s.page.rules.Some?
      && (FirstMatch(s.page.rules.value, url) == FirstMatch(s.server.rules, url) <==> EditsDoNotMatter(s1, after, url))
      && (EditsDoNotMatter(s1, after, url) ==> PageFetch(s.page, url) == Decide(s.server.offline, s.server.rules, url))
  {
    InjectionAgrees(before, op, after);
    ValidAfterCall(before, op);
    SelectionKeptExactly(Step(Run(INITIAL, before), op), after, url);
  }

  /** After any run, a disabling call whose script arrives leaves the page as a fresh navigation would. */
  lemma DisableRestores(before: seq<Op>, op: Op, after: seq<Op>)
    requires Quiet(Run(INITIAL, before), op, after) && Removes(Run(INITIAL, before), op)
    ensures Run(Step(Run(INITIAL, before), op), after).page == FRESH_PAGE
  {
    QuietPage(before, op, after);
  }

  /** Right after an injecting call has been answered, the page can disagree: a rule added while the script was under
      way is known to the interceptor only. */
  lemma AddRuleOvertakesEnable()
    ensures var s := Run(INITIAL, [Enable, AddRule("x", Block, None), Deliver]);
      && s.page.fetch == Hook && s.inFlight == []
      && PageFetch(s.page, "x") == Passed && Decide(s.server.offline, s.server.rules, "x") == Blocked
  {
    var ops := [Enable, AddRule("x", Block, None), Deliver];
    var s1 := Step(INITIAL, Enable);
    var s2 := Step(s1, ops[1]);
    assert ops[1..] == [ops[1], Deliver] && ops[1..][1..] == [Deliver] && [Deliver][1..] == [];
    assert Run(INITIAL, ops) == Run(s1, ops[1..]) == Run(s2, [Deliver]) == Run(Step(s2, Deliver), []);
    assert "x" <= "x"[0..];
    assert Selects("x", "x");
  }

  // ---- the flags over runs ----

  /** The last of the calls that set the offline flag was `setOffline(true)`. */
  ghost predicate WentOffline(ops: seq<Op>) {
    exists i :: 0 <= i < |ops| && ops[i] == SetOffline(true)
             && forall j :: i < j < |ops| ==> !ops[j].SetOffline? && !ops[j].Disable?
  }

  /** The call switches interception off: `disable`, or `setOffline(false)` without rules. */
  ghost predicate SwitchesOff(s: Net, op: Op) {
    op.Disable? || (op == SetOffline(false) && s.server.rules == [])
  }

  lemma WentOfflineSnoc(ops: seq<Op>, op: Op)
    ensures WentOffline(ops + [op]) <==> op == SetOffline(true) || (WentOffline(ops) && !op.SetOffline? && !op.Disable?)
  {
    var all := ops + [op];
    assert all[|ops|] == op && forall i :: 0 <= i < |ops| ==> all[i] == ops[i];
    if WentOffline(ops) && !op.SetOffline? && !op.Disable? {
      var i :| 0 <= i < |ops| && ops[i] == SetOffline(true)
        && forall j :: i < j < |ops| ==> !ops[j].SetOffline? && !ops[j].Disable?;
      assert all[i] == SetOffline(true);
    }
  }

  /** The `i`-th call switched interception on, and no later one off. */
  ghost predicate SwitchedOnAt(ops: seq<Op>, i: int) {
    && 0 <= i < |ops| && (ops[i].Enable? || ops[i] == SetOffline(true))
    && forall j :: i < j < |ops| ==> !SwitchesOff(Run(INITIAL, ops[..j]), ops[j])
  }

  ghost predicate WasEnabled(ops: seq<Op>) {
    exists i :: SwitchedOnAt(ops, i)
  }

  lemma SwitchedOnSnoc(ops: seq<Op>, op: Op, i: int)
    requires i < |ops|
    ensures SwitchedOnAt(ops + [op], i) <==> SwitchedOnAt(ops, i) && !SwitchesOff(Run(INITIAL, ops), op)
  {
    var all := ops + [op];
    assert all[|ops|] == op && all[..|ops|] == ops;
    forall j | 0 <= j < |ops| ensures all[j] == ops[j] && all[..j] == ops[..j] {}
  }

  lemma WasEnabledSnoc(ops: seq<Op>, op: Op)
    ensures WasEnabled(ops + [op]) <==>
      op.Enable? || op == SetOffline(true) || (WasEnabled(ops) && !SwitchesOff(Run(INITIAL, ops), op))
  {
    assert (ops + [op])[|ops|] == op;
    assert op.Enable? || op == SetOffline(true) <==> SwitchedOnAt(ops + [op], |ops|);
    forall i | i < |ops|
      ensures SwitchedOnAt(ops + [op], i) <==> SwitchedOnAt(ops, i) && !SwitchesOff(Run(INITIAL, ops), op)
    {
      SwitchedOnSnoc(ops, op, i);
    }
  }

  lemma FlagStep(s: Net, op: Op)
    ensures Step(s, op).server.offline <==> op == SetOffline(true) || (s.server.offline && !op.SetOffline? && !op.Disable?)
    ensures Step(s, op).server.enabled <==> op.Enable? || op == SetOffline(true) || (s.server.enabled && !SwitchesOff(s, op))
  {}

  lemma RunSnoc(ops: seq<Op>, op: Op)
    ensures Run(INITIAL, ops + [op]) == Step(Run(INITIAL, ops), op)
  {
    RunConcat(INITIAL, ops, [op]);
    assert [op][1..] == [] && Run(Step(Run(INITIAL, ops), op), []) == Step(Run(INITIAL, ops), op);
  }

  /** In every run, the interceptor is offline exactly if the last of its `setOffline` and `disable` calls was
      `setOffline(true)`, and enabled exactly if it was switched on and not off since. */
  lemma {:induction false} FlagsExactly(ops: seq<Op>)
    ensures Run(INITIAL, ops).server.offline <==> WentOffline(ops)
    ensures Run(INITIAL, ops).server.enabled <==> WasEnabled(ops)
    decreases |ops|
  {
    if ops != [] {
      var front, op := ops[..|ops| - 1], ops[|ops| - 1];
      assert ops == front + [op];
      FlagsExactly(front);
      RunSnoc(front, op);
      FlagStep(Run(INITIAL, front), op);
      WentOfflineSnoc(front, op);
      WasEnabledSnoc(front, op);
    }
  }

  /** Once the script of going offline has run and nothing is in flight, every request in the page fails. */
  lemma OfflineFailsRequests(before: seq<Op>, after: seq<Op>, url: string)
    requires Quiet(Run(INITIAL, before), SetOffline(true), after)
    requires !EndsWiped(AllLanded(Step(Run(INITIAL, before), SetOffline(true)), after))
    ensures PageFetch(Run(Step(Run(INITIAL, before), SetOffline(true)), after).page, url) == Failed
  {
    QuietPage(before, SetOffline(true), after);
    FlagStep(Run(INITIAL, before), SetOffline(true));
  }

  lemma EarliestIsFirst(rules: seq<Rule>, url: string, k: int)
    requires IsEarliest(rules, url, k)
    ensures FirstMatch(rules, url) == Some(rules[k])
  {
    FirstMatchIsEarliest(rules, url);
    var r := FirstMatch(rules, url).value;
    var j :| IsEarliest(rules, url, j) && rules[j] == r;
    assert j == k;
  }

  /** A request fails exactly when the interceptor is offline, and passes otherwise if no rule selects its URL. */
  lemma UnselectedPasses(offline: bool, rules: seq<Rule>, url: string)
    ensures Decide(offline, rules, url) == Failed <==> offline
    ensures !offline && (forall k :: !IsEarliest(rules, url, k)) ==> Decide(offline, rules, url) == Passed
  {
    FirstMatchIsEarliest(rules, url);
  }

  /** Online, the earliest rule that selects the URL decides: it blocks, or answers with its own response (status 200 if
      it gives none), or lets pass if it has no response to give. */
  lemma EarliestDecides(rules: seq<Rule>, url: string, k: int)
    requires IsEarliest(rules, url, k)
    ensures var d, m := Decide(false, rules, url), rules[k].mockResponse;
      && (rules[k].action == Block ==> d == Blocked)
      && (rules[k].action == Mock && m.None? ==> d == Passed)
      && (rules[k].action == Mock && m.Some? ==>
            d.Mocked? && d.body == m.value.body && d.headers == m.value.headers
            && (m.value.status == 0 ==> d.status == 200) && (m.value.status != 0 ==> d.status == m.value.status))
  {
    EarliestIsFirst(rules, url, k);
  }

  /** Without a hook nothing is intercepted. */
  lemma UnhookedPasses(p: PageState, url: string)
    requires p.fetch == Native
    ensures PageFetch(p, url) == Passed
  {}
}
