/** The interceptor object, the page it talks to and the shared id counter. Each method's
    effect is the step of `InterceptorSpec` with the same name. */
module NetworkInterceptors {
  import opened Basics
  import opened Regex
  import opened Glob
  import opened InterceptorSpec

  /** The module-level `ruleIdCounter`. */
  class IdCounter {
    var value: nat
    constructor ()
      ensures value == 0
    {
      value := 0;
    }
  }

  /** The globals of the JavaScript context that the two scripts read and write. */
  class Page {
    var fetch: Handler
    var originalFetch: Option<Handler>
    var interceptRules: Option<seq<Rule>>
    var offlineMode: bool

    ghost function State(): PageState
      reads this
    {
      PageState(fetch, originalFetch, interceptRules, offlineMode)
    }

    constructor ()
      ensures State() == FRESH_PAGE
    {
      fetch, originalFetch, interceptRules, offlineMode := Native, None, None, false;
    }

    /** The injection script. */
    method RunInjection(rules: seq<Rule>, offline: bool)
      modifies this
      ensures State() == Injected(old(State()), rules, offline)
    {
      if originalFetch.None? { originalFetch := Some(fetch); }
      interceptRules := Some(rules);
      offlineMode := offline;
      fetch := Hook;
    }

    method RunRemoval()
      modifies this
      ensures State() == Removed(old(State()))
    {
      if originalFetch.Some? {
        fetch := originalFetch.value;
        originalFetch := None;
      }
      interceptRules := None;
      offlineMode := false;
    }

    /** A navigation discards the JavaScript context. */
    method Navigate()
      modifies this
      ensures State() == FRESH_PAGE
    {
      fetch, originalFetch, interceptRules, offlineMode := Native, None, None, false;
    }

    /** The page's `f(u)`. */
    method FindRule(url: string) returns (r: Option<Rule>)
      ensures r == FirstMatch(if interceptRules.Some? then interceptRules.value else [], url)
    {
      var rules := if interceptRules.Some? then interceptRules.value else [];
      assert rules[0..] == rules;
      for i := 0 to |rules|
        invariant FirstMatch(rules, url) == FirstMatch(rules[i..], url)
      {
        var hit := PageMatch(url, rules[i].urlPattern);
        if hit { return Some(rules[i]); }
      }
      return None;
    }

    /** The replaced `window.fetch`. */
    method Fetch(url: string) returns (o: Outcome)
      ensures o == PageFetch(State(), url)
    {
      if fetch == Native { return Passed; }
      if offlineMode { return Failed; }
      var rule := FindRule(url);
      if rule.Some? {
        if rule.value.action == Block { return Blocked; }
        if rule.value.action == Mock && rule.value.mockResponse.Some? {
          var m := rule.value.mockResponse.value;
          return Mocked(m.body, if m.status == 0 then 200 else m.status, m.headers);
        }
      }
      return Passed;
    }
  }

  /** The connection to the page; `evaluate` puts a script on its way. */
  class InterceptorClient {
    var inFlight: seq<Script>
    const page: Page

    constructor (page: Page)
      ensures inFlight == [] && this.page == page
    {
      inFlight := [];
      this.page := page;
    }

    method Evaluate(script: Script)
      modifies this
      ensures inFlight == old(inFlight) + [script]
    {
      inFlight := inFlight + [script];
    }

    /** The page runs the script that was sent first. */
    method Deliver(ghost net: NetworkInterceptor)
      modifies this, page
      ensures net.Whole(this) == Step(old(net.Whole(this)), Op.Deliver)
    {
      if inFlight == [] { return; }
      match inFlight[0] {
        case Inject(rules, offline) => page.RunInjection(rules, offline);
        case Remove => page.RunRemoval();
      }
      inFlight := inFlight[1..];
    }
  }

  class NetworkInterceptor {
    var rules: seq<Rule>
    var enabled: bool
    var offline: bool
    const ids: IdCounter

    ghost function State(): Server
      reads this
    {
      Server(rules, enabled, offline)
    }

    ghost function Whole(client: InterceptorClient): Net
      reads this, client, client.page, ids
    {
      Net(State(), client.page.State(), ids.value, client.inFlight)
    }

    constructor (ids: IdCounter)
      ensures State() == Server([], false, false) && this.ids == ids
    {
      rules, enabled, offline := [], false, false;
      this.ids := ids;
    }

    method AddRule(urlPattern: string, action: Action, mockResponse: Option<MockResponse>, ghost client: InterceptorClient)
      returns (full: Rule)
      modifies this, ids
      ensures Whole(client) == Step(old(Whole(client)), Op.AddRule(urlPattern, action, mockResponse))
      ensures full == Rule(RuleId(ids.value), urlPattern, action, mockResponse)
    {
      ids.value := ids.value + 1;
      full := Rule(RuleId(ids.value), urlPattern, action, mockResponse);
      rules := MapSet(rules, full);
    }

    method RemoveRule(id: string, ghost client: InterceptorClient) returns (removed: bool)
      modifies this
      ensures Whole(client) == Step(old(Whole(client)), Op.RemoveRule(id))
      ensures removed <==> exists i :: 0 <= i < |old(rules)| && old(rules)[i].id == id
    {
      removed := exists i :: 0 <= i < |rules| && rules[i].id == id;
      rules := MapDelete(rules, id);
    }

    method ClearRules(ghost client: InterceptorClient)
      modifies this
      ensures Whole(client) == Step(old(Whole(client)), Op.ClearRules)
    {
      rules := [];
    }

    method FindMatchingRule(url: string) returns (r: Option<Rule>)
      ensures r == FirstMatch(rules, url)
    {
      assert rules[0..] == rules;
      for i := 0 to |rules|
        invariant FirstMatch(rules, url) == FirstMatch(rules[i..], url)
      {
        var hit := MatchUrl(url, rules[i].urlPattern);
        if hit { return Some(rules[i]); }
      }
      return None;
    }

    method Inject(client: InterceptorClient)
      modifies client
      ensures Whole(client) == SendInjection(old(Whole(client)))
    {
      client.Evaluate(Script.Inject(rules, offline));
    }

    method Enable(client: InterceptorClient)
      modifies this, client
      ensures Whole(client) == Step(old(Whole(client)), Op.Enable)
    {
      enabled := true;
      Inject(client);
    }

    method Disable(client: InterceptorClient)
      modifies this, client
      ensures Whole(client) == Step(old(Whole(client)), Op.Disable)
    {
      enabled := false;
      offline := false;
      rules := [];
      client.Evaluate(Remove);
    }

    method SetOffline(value: bool, client: InterceptorClient)
      modifies this, client
      ensures Whole(client) == Step(old(Whole(client)), Op.SetOffline(value))
    {
      offline := value;
      if value {
        if !enabled { enabled := true; }
        Inject(client);
        return;
      }
      if !enabled { return; }
      if |rules| == 0 {
        Disable(client);
        return;
      }
      Inject(client);
    }

    method SyncRules(client: InterceptorClient)
      modifies client
      ensures Whole(client) == Step(old(Whole(client)), Op.SyncRules)
    {
      if !enabled { return; }
      Inject(client);
    }

    /** The hook for the page-loaded event. */
    method Reinject(client: InterceptorClient) returns (injected: bool)
      modifies client
      ensures Whole(client) == Step(old(Whole(client)), Op.Reinject)
      ensures injected == enabled
    {
      if !enabled { return false; }
      Inject(client);
      return true;
    }
  }
}
