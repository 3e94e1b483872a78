/** The two accessibility retry loops. Each is proved against one description of a run that does
    not know which loop it came from; what tells the loops apart is only how stages are written. */
module AxRecovery {
  import opened Basics
  import SeqFacts

  /** `BridgeError` is an `AccessibilityBridgeError`. */
  datatype Error = BridgeError(code: string) | OtherError

  datatype OpOutcome<+T> = Ok(value: T) | Threw(error: Error)

  datatype ReactivateOutcome = Returned(active: bool) | ReactivateThrew(error: Error)

  datatype Options = Options(maxAttempts: Option<int>, backoffMs: Option<seq<int>>, reactivateOnRetry: Option<bool>,
                             deviceId: Option<string>, bundleId: Option<string>)

  /** What the n-th operation and the reactivation after it do. */
  datatype World<!T> = World(ops: nat -> OpOutcome<T>, reactivations: nat -> ReactivateOutcome)

  datatype Action = Dump | Query | Press | Reactivate | Sleep

  datatype Stage = Stage(attempt: nat, action: Action, ok: bool, errorCode: Option<string>)

  datatype Report = Report(attempts: nat, recovered: bool, stages: seq<Stage>, lastErrorCode: Option<string>)

  /** A value, or the code of the thrown error; the report comes with either. */
  datatype Result<+T> = Value(value: T, report: Report) | Thrown(code: string, report: Report)

  const RECOVERABLE := { "DEVICE_CONTENT_ROOT_EMPTY", "AX_TIMEOUT", "BRIDGE_EXEC_FAILED", "AX_ERROR" }
  const NON_RECOVERABLE := { "BRIDGE_NOT_FOUND", "AX_PERMISSION_DENIED" }
  const FLUTTER_SEMANTICS_INACTIVE := "FLUTTER_SEMANTICS_INACTIVE"
  const DEFAULT_BACKOFF_MS := [200, 500, 1200]
  const DEFAULT_MAX_ATTEMPTS := 3

  predicate IsRecoverable(e: Error) {
    e.BridgeError? && e.code !in NON_RECOVERABLE && e.code in RECOVERABLE
  }

  function CodeOf(e: Error): string { if e.BridgeError? then e.code else "UNKNOWN" }

  function GetOr<T>(o: Option<T>, default: T): T { if o.Some? then o.value else default }

  /** An optional string that JavaScript takes for true. */
  predicate Truthy(o: Option<string>) { o.Some? && o.value != "" }

  function MaxAttempts(o: Options): (n: nat)
    ensures n >= 1
  {
    var m := GetOr(o.maxAttempts, DEFAULT_MAX_ATTEMPTS);
    if m < 1 then 1 else m
  }

  /** The schedule's entry, its last one reused when it is too short. */
  function ResolveBackoff(schedule: Option<seq<int>>, gapIndex: nat): int {
    var source := if schedule.Some? && schedule.value != [] then schedule.value else DEFAULT_BACKOFF_MS;
    source[if gapIndex < |source| then gapIndex else |source| - 1]
  }

  // ---- a run, whichever loop makes it ----

  datatype Event<+T> =
    | Operated(attempt: nat, outcome: OpOutcome<T>)
    | Slept(attempt: nat, ms: int)
    | Reactivated(attempt: nat, result: ReactivateOutcome)

  predicate Stops<T>(o: Options, w: World<T>, a: nat) {
    w.ops(a).Ok? || !IsRecoverable(w.ops(a).error) || a >= MaxAttempts(o)
  }

  /** What happens between attempt `a` and the next. */
  function Between<T>(o: Options, w: World<T>, a: nat): seq<Event<T>>
    requires a >= 1
  {
    var backoff := ResolveBackoff(o.backoffMs, a - 1);
    (if backoff > 0 then [Slept(a, backoff)] else [])
    + (if GetOr(o.reactivateOnRetry, true) && Truthy(o.deviceId) then [Reactivated(a, w.reactivations(a))] else [])
  }

  /** The events of a run from attempt `a` on. */
  function Trace<T>(o: Options, w: World<T>, a: nat): seq<Event<T>>
    requires a >= 1
    decreases MaxAttempts(o) - a
  {
    [Operated(a, w.ops(a))] + if Stops(o, w, a) then [] else Between(o, w, a) + Trace(o, w, a + 1)
  }

  /** The attempt at which the run ends. */
  function LastAttempt<T>(o: Options, w: World<T>, a: nat): (n: nat)
    requires 1 <= a <= MaxAttempts(o)
    ensures a <= n <= MaxAttempts(o) && Stops(o, w, n)
    ensures forall k :: a <= k < n ==> !Stops(o, w, k)
    decreases MaxAttempts(o) - a
  {
    if Stops(o, w, a) then a else LastAttempt(o, w, a + 1)
  }

  /** How a loop writes its stages and its final error. */
  datatype Style = Style(operation: Action, thrownCode: string, promotes: bool)

  const DUMP_STYLE := Style(Dump, "REACTIVATE_FAILED", true)

  function GenericStyle(operation: Action): Style { Style(operation, "REACTIVATE_THREW", false) }

  function Render<T>(s: Style, e: Event<T>): Stage {
    match e
    case Operated(a, Ok(_)) => Stage(a, s.operation, true, None)
    case Operated(a, Threw(err)) => Stage(a, s.operation, false, Some(CodeOf(err)))
    case Slept(a, _) => Stage(a, Sleep, true, None)
    case Reactivated(a, Returned(true)) => Stage(a, Reactivate, true, None)
    case Reactivated(a, Returned(false)) => Stage(a, Reactivate, false, Some("REACTIVATE_RETURNED_FALSE"))
    case Reactivated(a, ReactivateThrew(BridgeError(c))) => Stage(a, Reactivate, false, Some(c))
    case Reactivated(a, ReactivateThrew(OtherError)) => Stage(a, Reactivate, false, Some(s.thrownCode))
  }

  function RenderAll<T>(s: Style, es: seq<Event<T>>): seq<Stage> {
    seq(|es|, i requires 0 <= i < |es| => Render(s, es[i]))
  }

  /** The sleeps asked for, in order. */
  function Sleeps<T>(es: seq<Event<T>>): seq<int> {
    if es == [] then [] else (if es[0].Slept? then [es[0].ms] else []) + Sleeps(es[1..])
  }

  predicate ReturnedFalse(stages: seq<Stage>) {
    exists i :: 0 <= i < |stages| && stages[i].action == Reactivate && !stages[i].ok
      && stages[i].errorCode == Some("REACTIVATE_RETURNED_FALSE")
  }

  predicate Promotes(s: Style, code: string, o: Options, stages: seq<Stage>) {
    s.promotes && Truthy(o.bundleId) && code == "DEVICE_CONTENT_ROOT_EMPTY" && ReturnedFalse(stages)
  }

  /** What a loop of style `s` must return. */
  function Expected<T>(s: Style, o: Options, w: World<T>): Result<T> {
    var n, stages := LastAttempt(o, w, 1), RenderAll(s, Trace(o, w, 1));
    match w.ops(n)
    case Ok(v) => Value(v, Report(n, true, stages, None))
    case Threw(e) =>
      var code := if IsRecoverable(e) && Promotes(s, CodeOf(e), o, stages) then FLUTTER_SEMANTICS_INACTIVE else CodeOf(e);
      Thrown(code, Report(n, false, stages, Some(code)))
  }

  // ---- the two loops ----

  lemma {:induction false} SleepsAppend<T>(a: seq<Event<T>>, b: seq<Event<T>>)
    ensures Sleeps(a + b) == Sleeps(a) + Sleeps(b)
    decreases |a|
  {
    if a == [] {
      SeqFacts.Nil(b);
      SeqFacts.Nil(Sleeps(b));
    } else {
      SeqFacts.Tail(a, b);
      SleepsAppend(a[1..], b);
      var head: seq<int> := if a[0].Slept? then [a[0].ms] else [];
      SeqFacts.Assoc(head, Sleeps(a[1..]), Sleeps(b));
    }
  }

  lemma RenderSnoc<T>(s: Style, es: seq<Event<T>>, e: Event<T>)
    ensures RenderAll(s, es + [e]) == RenderAll(s, es) + [Render(s, e)]
    ensures Sleeps(es + [e]) == Sleeps(es) + if e.Slept? then [e.ms] else []
  {
    SleepsAppend(es, [e]);
  }

  /** The pause and the reactivation between two attempts of the dump loop. */
  method DumpTreeWithRecoveryGap<T>(o: Options, w: World<T>, attempt: nat, stages0: seq<Stage>, slept0: seq<int>)
    returns (stages: seq<Stage>, slept: seq<int>)
    requires attempt >= 1
    ensures stages == stages0 + RenderAll(DUMP_STYLE, Between(o, w, attempt))
    ensures slept == slept0 + Sleeps(Between(o, w, attempt))
  {
    stages, slept := stages0, slept0;
    ghost var done: seq<Event<T>> := [];
    var backoff := ResolveBackoff(o.backoffMs, attempt - 1);
    if backoff > 0 {
      RenderSnoc(DUMP_STYLE, done, Slept(attempt, backoff));
      done := done + [Slept(attempt, backoff)];
      slept := slept + [backoff];
      stages := stages + [Stage(attempt, Sleep, true, None)];
    }
    if GetOr(o.reactivateOnRetry, true) && Truthy(o.deviceId) {
      var re := w.reactivations(attempt);
      RenderSnoc(DUMP_STYLE, done, Reactivated(attempt, re));
      done := done + [Reactivated(attempt, re)];
      match re {
        case Returned(active) =>
          stages := stages + [Stage(attempt, Reactivate, active, if active then None else Some("REACTIVATE_RETURNED_FALSE"))];
        case ReactivateThrew(err) =>
          stages := stages + [Stage(attempt, Reactivate, false, Some(if err.BridgeError? then err.code else "REACTIVATE_FAILED"))];
      }
    }
    assert done == Between(o, w, attempt);
  }

  lemma RenderAppend<T>(s: Style, a: seq<Event<T>>, b: seq<Event<T>>)
    ensures RenderAll(s, a + b) == RenderAll(s, a) + RenderAll(s, b)
    ensures Sleeps(a + b) == Sleeps(a) + Sleeps(b)
  {
    SleepsAppend(a, b);
  }

  lemma ThreeParts<U>(a: seq<U>, b: seq<U>, c: seq<U>, d: seq<U>)
    ensures a + (b + (c + d)) == ((a + b) + c) + d
  {}

  /** What one attempt adds to the stages and sleeps collected so far. */
  lemma TraceStep<T>(s: Style, o: Options, w: World<T>, a: nat, stages: seq<Stage>, slept: seq<int>)
    requires a >= 1
    ensures var op := Render(s, Operated(a, w.ops(a)));
      if Stops(o, w, a) then
        stages + RenderAll(s, Trace(o, w, a)) == stages + [op] && slept + Sleeps(Trace(o, w, a)) == slept
      else
        && stages + RenderAll(s, Trace(o, w, a))
             == ((stages + [op]) + RenderAll(s, Between(o, w, a))) + RenderAll(s, Trace(o, w, a + 1))
        && slept + Sleeps(Trace(o, w, a)) == (slept + Sleeps(Between(o, w, a))) + Sleeps(Trace(o, w, a + 1))
  {
    var now: seq<Event<T>> := [Operated(a, w.ops(a))];
    assert RenderAll(s, now) == [Render(s, Operated(a, w.ops(a)))];
    assert now[1..] == [] && Sleeps(now) == [];
    if Stops(o, w, a) {
      SeqFacts.Nil(now);
      SeqFacts.Nil(slept);
    } else {
      var gap, rest := Between(o, w, a), Trace(o, w, a + 1);
      RenderAppend(s, now, gap + rest);
      RenderAppend(s, gap, rest);
      ThreeParts(stages, RenderAll(s, now), RenderAll(s, gap), RenderAll(s, rest));
      SeqFacts.Nil(Sleeps(gap) + Sleeps(rest));
      SeqFacts.Assoc(slept, Sleeps(gap), Sleeps(rest));
    }
  }

  method DumpTreeWithRecovery<T>(o: Options, w: World<T>) returns (r: Result<T>, slept: seq<int>)
    ensures r == Expected(DUMP_STYLE, o, w)
    ensures slept == Sleeps(Trace(o, w, 1))
  {
    var maxAttempts := MaxAttempts(o);
    var stages: seq<Stage>, attempt: nat, lastError := [], 0, OtherError;
    slept := [];
    while attempt < maxAttempts
      invariant 0 <= attempt < maxAttempts
      invariant LastAttempt(o, w, attempt + 1) == LastAttempt(o, w, 1)
      invariant stages + RenderAll(DUMP_STYLE, Trace(o, w, attempt + 1)) == RenderAll(DUMP_STYLE, Trace(o, w, 1))
      invariant slept + Sleeps(Trace(o, w, attempt + 1)) == Sleeps(Trace(o, w, 1))
      decreases maxAttempts - attempt
    {
      attempt := attempt + 1;
      TraceStep(DUMP_STYLE, o, w, attempt, stages, slept);
      match w.ops(attempt) {
        case Ok(v) =>
          stages := stages + [Stage(attempt, Dump, true, None)];
          return Value(v, Report(attempt, true, stages, None)), slept;
        case Threw(err) =>
          var code := if err.BridgeError? then err.code else "UNKNOWN";
          stages := stages + [Stage(attempt, Dump, false, Some(code))];
          if !IsRecoverable(err) {
            return Thrown(code, Report(attempt, false, stages, Some(code))), slept;
          }
          lastError := err;
          if attempt >= maxAttempts { break; }
          stages, slept := DumpTreeWithRecoveryGap(o, w, attempt, stages, slept);
      }
    }
    var finalCode := CodeOf(lastError);
    var surfaced := if Truthy(o.bundleId) && finalCode == "DEVICE_CONTENT_ROOT_EMPTY" && ReturnedFalse(stages)
      then FLUTTER_SEMANTICS_INACTIVE else finalCode;
    r := Thrown(surfaced, Report(attempt, false, stages, Some(surfaced)));
  }

  /** The pause and the reactivation between two attempts of the generic loop. */
  method RunAxOperationWithRecoveryGap<T>(o: Options, w: World<T>, attempt: nat, stages0: seq<Stage>, slept0: seq<int>,
                                           actionLabel: Action)
    returns (stages: seq<Stage>, slept: seq<int>)
    requires attempt >= 1
    ensures stages == stages0 + RenderAll(GenericStyle(actionLabel), Between(o, w, attempt))
    ensures slept == slept0 + Sleeps(Between(o, w, attempt))
  {
    stages, slept := stages0, slept0;
    ghost var done: seq<Event<T>> := [];
    var backoff := ResolveBackoff(o.backoffMs, attempt - 1);
    if backoff > 0 {
      RenderSnoc(GenericStyle(actionLabel), done, Slept(attempt, backoff));
      done := done + [Slept(attempt, backoff)];
      slept := slept + [backoff];
      stages := stages + [Stage(attempt, Sleep, true, None)];
    }
    if GetOr(o.reactivateOnRetry, true) && Truthy(o.deviceId) {
      var re := w.reactivations(attempt);
      RenderSnoc(GenericStyle(actionLabel), done, Reactivated(attempt, re));
      done := done + [Reactivated(attempt, re)];
      match re {
        case Returned(active) =>
          stages := stages + [Stage(attempt, Reactivate, active, if active then None else Some("REACTIVATE_RETURNED_FALSE"))];
        case ReactivateThrew(err) =>
          stages := stages + [Stage(attempt, Reactivate, false, Some(if err.BridgeError? then err.code else "REACTIVATE_THREW"))];
      }
    }
    assert done == Between(o, w, attempt);
  }

  method RunAxOperationWithRecovery<T>(o: Options, w: World<T>, actionLabel: Action) returns (r: Result<T>, slept: seq<int>)
    ensures r == Expected(GenericStyle(actionLabel), o, w)
    ensures slept == Sleeps(Trace(o, w, 1))
  {
    var maxAttempts := MaxAttempts(o);
    var stages: seq<Stage>, attempt: nat, lastError := [], 0, OtherError;
    slept := [];
    while attempt < maxAttempts
      invariant 0 <= attempt < maxAttempts
      invariant LastAttempt(o, w, attempt + 1) == LastAttempt(o, w, 1)
      invariant stages + RenderAll(GenericStyle(actionLabel), Trace(o, w, attempt + 1)) == RenderAll(GenericStyle(actionLabel), Trace(o, w, 1))
      invariant slept + Sleeps(Trace(o, w, attempt + 1)) == Sleeps(Trace(o, w, 1))
      decreases maxAttempts - attempt
    {
      attempt := attempt + 1;
      TraceStep(GenericStyle(actionLabel), o, w, attempt, stages, slept);
      match w.ops(attempt) {
        case Ok(v) =>
          stages := stages + [Stage(attempt, actionLabel, true, None)];
          return Value(v, Report(attempt, true, stages, None)), slept;
        case Threw(err) =>
          var code := if err.BridgeError? then err.code else "UNKNOWN";
          stages := stages + [Stage(attempt, actionLabel, false, Some(code))];
          if !IsRecoverable(err) {
            return Thrown(code, Report(attempt, false, stages, Some(code))), slept;
          }
          lastError := err;
          if attempt >= maxAttempts { break; }
          stages, slept := RunAxOperationWithRecoveryGap(o, w, attempt, stages, slept, actionLabel);
      }
    }
    var finalCode := CodeOf(lastError);
    r := Thrown(finalCode, Report(attempt, false, stages, Some(finalCode)));
  }

  // ---- what every run keeps ----

  function Operations<T>(es: seq<Event<T>>): seq<nat> {
    if es == [] then [] else (if es[0].Operated? then [es[0].attempt] else []) + Operations(es[1..])
  }

  lemma {:induction false} OperationsAppend<T>(a: seq<Event<T>>, b: seq<Event<T>>)
    ensures Operations(a + b) == Operations(a) + Operations(b)
    decreases |a|
  {
    if a == [] {
      SeqFacts.Nil(b);
      SeqFacts.Nil(Operations(b));
    } else {
      SeqFacts.Tail(a, b);
      OperationsAppend(a[1..], b);
      var head: seq<nat> := if a[0].Operated? then [a[0].attempt] else [];
      SeqFacts.Assoc(head, Operations(a[1..]), Operations(b));
    }
  }

  function Positive(s: seq<int>): seq<int> {
    if s == [] then [] else (if s[0] > 0 then [s[0]] else []) + Positive(s[1..])
  }

  function Range(from: nat, to: nat): seq<nat>
    requires from <= to
  {
    seq(to - from, i => from + i)
  }

  /** The backoffs of the gaps `from`..`to`. */
  function Backoffs(o: Options, from: nat, to: nat): seq<int>
    requires from <= to
  {
    seq(to - from, i requires 0 <= i < to - from => ResolveBackoff(o.backoffMs, from + i))
  }

  lemma BetweenShape<T>(o: Options, w: World<T>, a: nat)
    requires a >= 1
    ensures Operations(Between(o, w, a)) == []
    ensures Sleeps(Between(o, w, a)) == Positive([ResolveBackoff(o.backoffMs, a - 1)])
  {
    var b: seq<Event<T>> := if ResolveBackoff(o.backoffMs, a - 1) > 0 then [Slept(a, ResolveBackoff(o.backoffMs, a - 1))] else [];
    var c: seq<Event<T>> := if GetOr(o.reactivateOnRetry, true) && Truthy(o.deviceId) then [Reactivated(a, w.reactivations(a))] else [];
    assert Between(o, w, a) == b + c;
    OperationsAppend(b, c);
    SleepsAppend(b, c);
    assert Operations(b) == [] && Operations(c) == [] && Sleeps(c) == [];
  }

  /** The first attempt in front of the rest, for the projections of a trace. */
  lemma TraceParts<T>(o: Options, w: World<T>, a: nat)
    requires a >= 1
    ensures Stops(o, w, a) ==> Operations(Trace(o, w, a)) == [a] && Sleeps(Trace(o, w, a)) == []
    ensures !Stops(o, w, a) ==>
      && Operations(Trace(o, w, a)) == [a] + Operations(Trace(o, w, a + 1))
      && Sleeps(Trace(o, w, a)) == Positive([ResolveBackoff(o.backoffMs, a - 1)]) + Sleeps(Trace(o, w, a + 1))
  {
    var now: seq<Event<T>> := [Operated(a, w.ops(a))];
    assert now[1..] == [] && Operations(now) == [a] && Sleeps(now) == [];
    SeqFacts.Nil(now);
    if !Stops(o, w, a) {
      var gap, rest := Between(o, w, a), Trace(o, w, a + 1);
      BetweenShape(o, w, a);
      OperationsAppend(now, gap + rest);
      OperationsAppend(gap, rest);
      SleepsAppend(now, gap + rest);
      SleepsAppend(gap, rest);
      SeqFacts.Nil(Operations(rest));
      SeqFacts.Nil(Sleeps(gap) + Sleeps(rest));
    }
  }

  lemma RangeCons(from: nat, to: nat)
    requires from < to
    ensures Range(from, to) == [from] + Range(from + 1, to)
  {}

  lemma BackoffsCons(o: Options, from: nat, to: nat)
    requires from < to
    ensures Positive(Backoffs(o, from, to)) == Positive([ResolveBackoff(o.backoffMs, from)]) + Positive(Backoffs(o, from + 1, to))
  {
    var bs := Backoffs(o, from, to);
    assert bs[1..] == Backoffs(o, from + 1, to);
  }

  lemma {:induction false} TraceEnds<T>(o: Options, w: World<T>, a: nat)
    requires 1 <= a <= MaxAttempts(o)
    ensures var es, n := Trace(o, w, a), LastAttempt(o, w, a);
      es != [] && es[|es| - 1] == Operated(n, w.ops(n))
    decreases MaxAttempts(o) - a
  {
    if !Stops(o, w, a) { TraceEnds(o, w, a + 1); }
  }

  lemma {:induction false} OperationsAre<T>(o: Options, w: World<T>, a: nat, n: nat)
    requires 1 <= a <= n <= MaxAttempts(o) && Stops(o, w, n)
    requires forall k :: a <= k < n ==> !Stops(o, w, k)
    ensures Operations(Trace(o, w, a)) == Range(a, n + 1)
    decreases n - a
  {
    TraceParts(o, w, a);
    RangeCons(a, n + 1);
    if a < n {
      OperationsAre(o, w, a + 1, n);
    } else {
      SeqFacts.Nil([a]);
    }
  }

  lemma {:induction false} SleepsAre<T>(o: Options, w: World<T>, a: nat, n: nat)
    requires 1 <= a <= n <= MaxAttempts(o) && Stops(o, w, n)
    requires forall k :: a <= k < n ==> !Stops(o, w, k)
    ensures Sleeps(Trace(o, w, a)) == Positive(Backoffs(o, a - 1, n - 1))
    decreases n - a
  {
    TraceParts(o, w, a);
    if a < n {
      SleepsAre(o, w, a + 1, n);
      BackoffsCons(o, a - 1, n - 1);
    }
  }

  predicate IsOperation(s: Style, st: Stage) { st.action == s.operation }

  /** Main result, for both loops: attempts are numbered 1, 2, ... without gaps and never exceed
      max(1, maxAttempts); `recovered` holds exactly when the last stage is a successful operation;
      the sleeps are the positive backoffs of the gaps, in order; every attempt but the last failed
      recoverably, and the loop gave up only on success, a fatal error or an exhausted budget. */
  lemma EveryRun<T>(s: Style, o: Options, w: World<T>)
    requires s.operation != Reactivate && s.operation != Sleep
    ensures var r := Expected(s, o, w);
      var n, st := r.report.attempts, r.report.stages;
      && 1 <= n <= MaxAttempts(o) && st != []
      && (r.report.recovered <==> r.Value?)
      && (r.report.recovered <==> IsOperation(s, st[|st| - 1]) && st[|st| - 1].ok)
      && Operations(Trace(o, w, 1)) == Range(1, n + 1)
      && Sleeps(Trace(o, w, 1)) == Positive(Backoffs(o, 0, n - 1))
      && (forall k :: 1 <= k < n ==> w.ops(k).Threw? && IsRecoverable(w.ops(k).error))
      && (r.Value? ==> w.ops(n) == Ok(r.value))
      && (r.Thrown? ==> w.ops(n).Threw? && (!IsRecoverable(w.ops(n).error) || n == MaxAttempts(o)))
  {
    var n := LastAttempt(o, w, 1);
    TraceEnds(o, w, 1);
    OperationsAre(o, w, 1, n);
    SleepsAre(o, w, 1, n);
    forall k | 1 <= k < n ensures w.ops(k).Threw? && IsRecoverable(w.ops(k).error) {
      assert !Stops(o, w, k);
    }
    assert Stops(o, w, n);
  }

  /** The two loops write the same stage, up to the action label and the code of a reactivation
      that threw something other than a bridge error. */
  ghost predicate SameStage(d: Stage, g: Stage, operation: Action) {
    && d.attempt == g.attempt && d.ok == g.ok
    && (d.action == g.action || (d.action == Dump && g.action == operation))
    && (d.errorCode == g.errorCode
        || (d.action == Reactivate && d.errorCode == Some("REACTIVATE_FAILED") && g.errorCode == Some("REACTIVATE_THREW")))
  }

  /** Main result: given the same outcomes, the dump loop and the generic loop make the same attempts
      (and, as one trace, the same sleeps and reactivations), return the same value, write the same stages,
      and throw the same code except exactly when the dump loop promotes it. */
  lemma LoopsAgree<T>(o: Options, w: World<T>, operation: Action)
    ensures var d, g := Expected(DUMP_STYLE, o, w), Expected(GenericStyle(operation), o, w);
      && d.report.attempts == g.report.attempts && d.report.recovered == g.report.recovered
      && |d.report.stages| == |g.report.stages|
      && (forall i :: 0 <= i < |d.report.stages| ==> SameStage(d.report.stages[i], g.report.stages[i], operation))
      && (d.Value? <==> g.Value?) && (d.Value? ==> d.value == g.value)
      && (d.Thrown? ==> d.code == if Promotes(DUMP_STYLE, g.code, o, d.report.stages) then FLUTTER_SEMANTICS_INACTIVE else g.code)
  {
    var es := Trace(o, w, 1);
    forall i | 0 <= i < |es| ensures SameStage(Render(DUMP_STYLE, es[i]), Render(GenericStyle(operation), es[i]), operation) {}
    assert "DEVICE_CONTENT_ROOT_EMPTY" in RECOVERABLE && "DEVICE_CONTENT_ROOT_EMPTY" !in NON_RECOVERABLE;
  }

  /** The pause before a retry is the schedule's entry for that gap, the last one reused; without a schedule, or with an
      empty one, it is 200, 500 and then 1200. */
  lemma BackoffExactly(schedule: seq<int>, gap: nat)
    ensures schedule != [] && gap < |schedule| ==> ResolveBackoff(Some(schedule), gap) == schedule[gap]
    ensures schedule != [] && gap >= |schedule| ==> ResolveBackoff(Some(schedule), gap) == schedule[|schedule| - 1]
    ensures ResolveBackoff(None, gap) == ResolveBackoff(Some([]), gap) == if gap == 0 then 200 else if gap == 1 then 500 else 1200
  {}

  // ---- what a run consists of ----

  predicate AsksReactivation(o: Options) {
    o.reactivateOnRetry != Some(false) && o.deviceId != None && o.deviceId != Some("")
  }

  lemma AttemptsExactly(o: Options)
    ensures o.maxAttempts == None ==> MaxAttempts(o) == 3
    ensures forall m :: o.maxAttempts == Some(m) ==> MaxAttempts(o) == Max(1, m)
  {}

  /** Exactly these events make up a run that ends with attempt `n`: each attempt's operation; and between two attempts
      the pause, if it is positive, and the reactivation, if one is asked for and the device is known. */
  ghost predicate BelongsTo<T>(o: Options, w: World<T>, a: nat, n: nat, e: Event<T>)
    requires a >= 1
  {
    match e
    case Operated(k, outcome) => a <= k <= n && outcome == w.ops(k)
    case Slept(k, ms) => a <= k < n && ms > 0 && ms == ResolveBackoff(o.backoffMs, k - 1)
    case Reactivated(k, r) => a <= k < n && AsksReactivation(o) && r == w.reactivations(k)
  }

  lemma BetweenHas<T>(o: Options, w: World<T>, a: nat, e: Event<T>)
    requires a >= 1
    ensures e in Between(o, w, a) <==>
      || (e == Slept(a, ResolveBackoff(o.backoffMs, a - 1)) && e.ms > 0)
      || (e == Reactivated(a, w.reactivations(a)) && AsksReactivation(o))
  {}

  /** The events of attempt `a` itself and of the gap behind it. */
  ghost predicate AtAttempt<T>(o: Options, w: World<T>, a: nat, e: Event<T>)
    requires a >= 1
  {
    || e == Operated(a, w.ops(a))
    || (e == Slept(a, ResolveBackoff(o.backoffMs, a - 1)) && e.ms > 0)
    || (e == Reactivated(a, w.reactivations(a)) && AsksReactivation(o))
  }

  lemma BelongsNow<T>(o: Options, w: World<T>, a: nat, n: nat, e: Event<T>)
    requires 1 <= a < n
    ensures BelongsTo(o, w, a, n, e) <==> AtAttempt(o, w, a, e) || BelongsTo(o, w, a + 1, n, e)
  {}

  lemma InParts<T>(x: T, a: seq<T>, b: seq<T>, e: T)
    ensures e in [x] + (a + b) <==> e == x || e in a || e in b
  {}

  lemma TraceEndsHere<T>(o: Options, w: World<T>, a: nat, es: seq<Event<T>>, e: Event<T>)
    requires a >= 1 && Stops(o, w, a) && es == Trace(o, w, a)
    ensures e in es <==> BelongsTo(o, w, a, a, e)
  {
    assert es == [Operated(a, w.ops(a))];
  }

  lemma TraceGoesOn<T>(o: Options, w: World<T>, a: nat, es: seq<Event<T>>, rest: seq<Event<T>>, e: Event<T>)
    requires a >= 1 && !Stops(o, w, a) && es == Trace(o, w, a) && rest == Trace(o, w, a + 1)
    ensures e in es <==> AtAttempt(o, w, a, e) || e in rest
  {
    BetweenHas(o, w, a, e);
    InParts(Operated(a, w.ops(a)), Between(o, w, a), rest, e);
  }

  lemma {:induction false} TraceHas<T>(o: Options, w: World<T>, a: nat, n: nat, es: seq<Event<T>>, e: Event<T>)
    requires 1 <= a <= n <= MaxAttempts(o) && Stops(o, w, n) && es == Trace(o, w, a)
    requires forall k :: a <= k < n ==> !Stops(o, w, k)
    ensures e in es <==> BelongsTo(o, w, a, n, e)
    decreases n - a
  {
    if a == n {
      TraceEndsHere(o, w, a, es, e);
    } else {
      var rest := Trace(o, w, a + 1);
      TraceHas(o, w, a + 1, n, rest, e);
      BelongsNow(o, w, a, n, e);
      TraceGoesOn(o, w, a, es, rest, e);
    }
  }

  /** How a stage reads: its attempt; the operation's own label, "sleep" or "reactivate"; whether it succeeded; and the code of
      what went wrong, which is "UNKNOWN" for an operation, and the loop's own code for a reactivation, that threw
      something other than a bridge error. */
  lemma StageReads<T>(s: Style, e: Event<T>)
    ensures var st := Render(s, e);
      && st.attempt == e.attempt && (st.ok <==> st.errorCode == None)
      && (e.Operated? ==>
           && st.action == s.operation && (st.ok <==> e.outcome.Ok?)
           && (e.outcome.Threw? && e.outcome.error.BridgeError? ==> st.errorCode == Some(e.outcome.error.code))
           && (e.outcome.Threw? && e.outcome.error.OtherError? ==> st.errorCode == Some("UNKNOWN")))
      && (e.Slept? ==> st.action == Sleep && st.ok)
      && (e.Reactivated? ==>
           && st.action == Reactivate && (st.ok <==> e.result == Returned(true))
           && (e.result == Returned(false) ==> st.errorCode == Some("REACTIVATE_RETURNED_FALSE"))
           && (e.result.ReactivateThrew? && e.result.error.BridgeError? ==> st.errorCode == Some(e.result.error.code))
           && (e.result.ReactivateThrew? && e.result.error.OtherError? ==> st.errorCode == Some(s.thrownCode)))
  {}

  predicate SaysFalse(r: ReactivateOutcome) {
    r == Returned(false) || r == ReactivateThrew(BridgeError("REACTIVATE_RETURNED_FALSE"))
  }

  /** Some reactivation between the attempts returned false, or threw that very code. */
  ghost predicate StayedInactive<T>(o: Options, w: World<T>, n: nat) {
    AsksReactivation(o) && exists k :: 1 <= k < n && SaysFalse(w.reactivations(k))
  }

  lemma ReturnedFalseExactly<T>(s: Style, o: Options, w: World<T>, n: nat)
    requires s.operation != Reactivate && s.thrownCode != "REACTIVATE_RETURNED_FALSE"
    requires 1 <= n <= MaxAttempts(o) && Stops(o, w, n) && forall k :: 1 <= k < n ==> !Stops(o, w, k)
    ensures ReturnedFalse(RenderAll(s, Trace(o, w, 1))) <==> StayedInactive(o, w, n)
  {
    var es := Trace(o, w, 1);
    var stages := RenderAll(s, es);
    if ReturnedFalse(stages) {
      var i :| 0 <= i < |stages| && stages[i].action == Reactivate && !stages[i].ok
        && stages[i].errorCode == Some("REACTIVATE_RETURNED_FALSE");
      StageReads(s, es[i]);
      assert es[i] in es && stages[i] == Render(s, es[i]);
      TraceHas(o, w, 1, n, es, es[i]);
    }
    if StayedInactive(o, w, n) {
      var k :| 1 <= k < n && SaysFalse(w.reactivations(k));
      var e: Event<T> := Reactivated(k, w.reactivations(k));
      TraceHas(o, w, 1, n, es, e);
      var i :| 0 <= i < |es| && es[i] == e;
      StageReads(s, e);
      assert stages[i] == Render(s, e);
    }
  }

  /** What is thrown, in terms of the outcomes alone: the code of the last attempt's error, except that the dump loop promotes
      an empty content root to inactive Flutter semantics exactly if a bundle is named and some
      reactivation left them inactive. */
  lemma ThrownExactly<T>(s: Style, o: Options, w: World<T>)
    requires s.operation != Reactivate && s.thrownCode != "REACTIVATE_RETURNED_FALSE" && Expected(s, o, w).Thrown?
    ensures var r, n := Expected(s, o, w), Expected(s, o, w).report.attempts;
      && w.ops(n).Threw? && r.report.lastErrorCode == Some(r.code)
      && var last := if w.ops(n).error.BridgeError? then w.ops(n).error.code else "UNKNOWN";
      r.code == if s.promotes && last == "DEVICE_CONTENT_ROOT_EMPTY" && o.bundleId != None && o.bundleId != Some("")
                   && StayedInactive(o, w, n)
                then "FLUTTER_SEMANTICS_INACTIVE" else last
  {
    ReturnedFalseExactly(s, o, w, LastAttempt(o, w, 1));
    assert "DEVICE_CONTENT_ROOT_EMPTY" in RECOVERABLE && "DEVICE_CONTENT_ROOT_EMPTY" !in NON_RECOVERABLE;
  }

  /** Retried are exactly these four codes of bridge errors. */
  lemma RecoverableExactly(e: Error)
    ensures IsRecoverable(e) <==>
      e.BridgeError? && e.code in {"DEVICE_CONTENT_ROOT_EMPTY", "AX_TIMEOUT", "BRIDGE_EXEC_FAILED", "AX_ERROR"}
  {}

  /** When an event happens: by attempts, and within one attempt first the operation, then the pause, then the reactivation. */
  function When<T>(e: Event<T>): nat {
    3 * e.attempt + if e.Operated? then 0 else if e.Slept? then 1 else 2
  }

  ghost predicate Chronological<T>(es: seq<Event<T>>) {
    forall i, j :: 0 <= i < j < |es| ==> When(es[i]) < When(es[j])
  }

  lemma ChronologicalAppend<T>(a: seq<Event<T>>, b: seq<Event<T>>, t: nat)
    requires Chronological(a) && Chronological(b)
    requires forall i :: 0 <= i < |a| ==> When(a[i]) < t
    requires forall i :: 0 <= i < |b| ==> When(b[i]) >= t
    ensures Chronological(a + b)
  {}

  lemma BetweenChronological<T>(o: Options, w: World<T>, a: nat)
    requires a >= 1
    ensures var es := [Operated(a, w.ops(a))] + Between(o, w, a);
      Chronological(es) && forall i :: 0 <= i < |es| ==> 3 * a <= When(es[i]) < 3 * a + 3
  {}

  /** Every run is in order: attempt by attempt, and each attempt's pause before its reactivation. */
  lemma {:induction false} TraceInOrder<T>(o: Options, w: World<T>, a: nat)
    requires a >= 1
    ensures Chronological(Trace(o, w, a)) && forall i :: 0 <= i < |Trace(o, w, a)| ==> When(Trace(o, w, a)[i]) >= 3 * a
    decreases MaxAttempts(o) - a
  {
    if !Stops(o, w, a) {
      var first, rest := [Operated(a, w.ops(a))] + Between(o, w, a), Trace(o, w, a + 1);
      TraceInOrder(o, w, a + 1);
      BetweenChronological(o, w, a);
      ChronologicalAppend(first, rest, 3 * a + 3);
      assert Trace(o, w, a) == first + rest;
    }
  }
}
