/** What the log of released waiters says about the run that produced it. */
module StepBarrierRuns {
  import opened StepBarrierSpec
  import opened StepBarrierProofs

  lemma {:induction false} RunSnoc(s: Barrier, ops: seq<Op>, op: Op)
    ensures Run(s, ops + [op]) == Step(Run(s, ops), op)
    decreases |ops|
  {
    if ops == [] {
      assert (ops + [op])[1..] == [];
      assert Run(Step(s, op), []) == Step(s, op);
    } else {
      assert (ops + [op])[1..] == ops[1..] + [op];
      RunSnoc(Step(s, ops[0]), ops[1..], op);
    }
  }

  // ---- which operation released a waiter, and what it told it ----

  /** The waiter was told the time that it waited itself. */
  predicate ToldOwnTime(x: Release, now: int) {
    x.result.waitTime == now - x.waiter.since
  }

  /** `r` names the step and lists who had arrived at it, and which expected devices had not. */
  ghost predicate Lists(r: Result, step: string, e: Entry) {
    && r.stepName == step
    && r.arrivedDevices == e.arrived
    && forall d :: d in r.missingDevices <==> d in e.expected && d !in e.arrived
  }

  /** `op`, in state `s`, released the waiter of `x`, stored at `step`. The reported time is the waiter's
      own exactly if it began to wait just now, or, on a timeout, together with the timer. */
  ghost predicate ReleasedBy(s: Barrier, op: Op, step: string, x: Release) {
    && step in s.barriers && x.waiter in s.barriers[step].waiters
    && (if op.Arrive? then step in Step(s, op).barriers && Lists(x.result, step, Step(s, op).barriers[step])
        else Lists(x.result, step, s.barriers[step]))
    && match op {
         case Arrive(st, _, _, now) =>
           && st == step && x.result.allArrived && AllArrived(Step(s, op).barriers[step])
           && (ToldOwnTime(x, now) <==> x.waiter.since == now)
         case TimerFires(t, now) =>
           && t in s.timers && s.timers[t].step == step && !x.result.allArrived
           && (ToldOwnTime(x, now) <==> x.waiter.since == s.timers[t].startTime)
         case ClearStep(st, now) =>
           st == step && !x.result.allArrived && (ToldOwnTime(x, now) <==> x.waiter.since == now)
         case ClearEvery(order, now) =>
           step in order && !x.result.allArrived && (ToldOwnTime(x, now) <==> x.waiter.since == now)
       }
  }

  ghost predicate Caused(s: Barrier, op: Op, x: Release) {
    exists step :: ReleasedBy(s, op, step, x)
  }

  /** `op` only adds to the log, and adds only waiters that it released. */
  ghost predicate AddsReleases(s: Barrier, op: Op) {
    var log := Step(s, op).released;
    s.released <= log && forall i :: |s.released| <= i < |log| ==> Caused(s, op, log[i])
  }

  /** Who is expected and who has arrived; waiters and timer aside. */
  ghost predicate SameEntry(s: Barrier, s': Barrier, step: string) {
    && (step in s.barriers <==> step in s'.barriers)
    && (step in s.barriers ==>
          s.barriers[step].arrived == s'.barriers[step].arrived && s.barriers[step].expected == s'.barriers[step].expected)
  }

  ghost predicate WellNamed(s: Barrier) {
    forall k :: k in s.barriers ==> s.barriers[k].stepName == k
  }

  lemma WellNamedWhenValid(s: Barrier)
    requires Valid(s)
    ensures WellNamed(s)
  {
    forall k | k in s.barriers ensures s.barriers[k].stepName == k {
      assert EntryValid(s.barriers[k], k, s.timers);
    }
  }

  lemma ArriveReleases(s: Barrier, step: string, device: string, all: seq<string>, now: int)
    requires WellNamed(s)
    ensures AddsReleases(s, Arrive(step, device, all, now))
  {
    var op, s1 := Arrive(step, device, all, now), EnsureEntry(s, step, all);
    if device !in s1.barriers[step].arrived {
      var s2 := MarkArrived(s1, step, device);
      var r, w := BuildResult(s2.barriers[step], now, true, now), s2.barriers[step].waiters;
      if AllArrived(s2.barriers[step]) {
        ReleaseWaitersAppends(s.released, w, r);
        MissingSaysWho(s2.barriers[step].expected, s2.barriers[step].arrived);
        assert SameEntry(s2, Step(s, op), step) && Lists(r, step, Step(s, op).barriers[step]);
        var log := Step(s, op).released;
        forall i | |s.released| <= i < |log| ensures Caused(s, op, log[i]) {
          assert log[i] == Release(w[i - |s.released|], r);
          assert ReleasedBy(s, op, step, log[i]);
        }
      }
    }
  }

  lemma TimeoutReleases(s: Barrier, timer: nat, now: int)
    requires WellNamed(s)
    ensures AddsReleases(s, TimerFires(timer, now))
  {
    var op := TimerFires(timer, now);
    if timer in s.timers && s.timers[timer].step in s.barriers {
      var t := s.timers[timer];
      var r, w := BuildResult(s.barriers[t.step], t.startTime, false, now), s.barriers[t.step].waiters;
      ReleaseWaitersAppends(s.released, w, r);
      MissingSaysWho(s.barriers[t.step].expected, s.barriers[t.step].arrived);
      var log := Step(s, op).released;
      forall i | |s.released| <= i < |log| ensures Caused(s, op, log[i]) {
        assert log[i] == Release(w[i - |s.released|], r);
        assert ReleasedBy(s, op, t.step, log[i]);
      }
    }
  }

  lemma ClearAdds(s: Barrier, step: string, now: int)
    requires WellNamed(s)
    ensures var log := Clear(s, step, now).released;
      && s.released <= log
      && forall i :: |s.released| <= i < |log| ==> ReleasedBy(s, ClearStep(step, now), step, log[i])
  {
    if step in s.barriers {
      var r, w := BuildResult(s.barriers[step], now, false, now), s.barriers[step].waiters;
      ReleaseWaitersAppends(s.released, w, r);
      MissingSaysWho(s.barriers[step].expected, s.barriers[step].arrived);
      var log := Clear(s, step, now).released;
      forall i | |s.released| <= i < |log| ensures ReleasedBy(s, ClearStep(step, now), step, log[i]) {
        assert log[i] == Release(w[i - |s.released|], r);
      }
    }
  }

  lemma {:induction false} ClearAllReleases(s: Barrier, order: seq<string>, now: int)
    requires WellNamed(s)
    ensures AddsReleases(s, ClearEvery(order, now))
    decreases |order|
  {
    if order != [] {
      var first, rest := order[0], order[1..];
      var s1 := Clear(s, first, now);
      ClearAdds(s, first, now);
      ClearAllReleases(s1, rest, now);
      var op, log := ClearEvery(order, now), ClearAll(s1, rest, now).released;
      forall i | |s.released| <= i < |log| ensures Caused(s, op, log[i]) {
        if i < |s1.released| {
          assert log[i] == s1.released[i];
          assert ReleasedBy(s, op, first, log[i]);
        } else {
          var step :| ReleasedBy(s1, ClearEvery(rest, now), step, log[i]);
          assert ReleasedBy(s, op, step, log[i]);
        }
      }
    }
  }

  lemma StepReleases(s: Barrier, op: Op)
    requires WellNamed(s)
    ensures AddsReleases(s, op)
  {
    match op
    case Arrive(step, device, all, now) => ArriveReleases(s, step, device, all, now);
    case TimerFires(t, now) => TimeoutReleases(s, t, now);
    case ClearStep(step, now) =>
      ClearAdds(s, step, now);
      var log := Step(s, op).released;
      forall i | |s.released| <= i < |log| ensures Caused(s, op, log[i]) {
        assert ReleasedBy(s, op, step, log[i]);
      }
    case ClearEvery(order, now) => ClearAllReleases(s, order, now);
  }

  // ---- what an entry knows of the run ----

  predicate Clears(op: Op, step: string) {
    (op.ClearStep? && op.step == step) || (op.ClearEvery? && step in op.order)
  }

  /** The part of a run since the step was last cleared. */
  function Since(ops: seq<Op>, step: string): seq<Op> {
    if ops == [] then []
    else
      var n := |ops| - 1;
      if Clears(ops[n], step) then [] else Since(ops[..n], step) + [ops[n]]
  }

  predicate IsArrival(op: Op, step: string) {
    op.Arrive? && op.step == step
  }

  ghost predicate ArrivesIn(ops: seq<Op>, step: string, device: string) {
    exists i :: 0 <= i < |ops| && IsArrival(ops[i], step) && ops[i].device == device
  }

  /** The devices that the first call for the step named. */
  function Named(ops: seq<Op>, step: string): seq<string> {
    if ops == [] then []
    else
      var n := |ops| - 1;
      if IsArrival(ops[n], step) && (forall i :: 0 <= i < n ==> !IsArrival(ops[i], step)) then ops[n].all
      else Named(ops[..n], step)
  }

  /** The entry of `step` is what the calls since its last clearing, `e`, make of it. */
  ghost predicate Tells(s: Barrier, e: seq<Op>, step: string) {
    && (step in s.barriers <==> exists i :: 0 <= i < |e| && IsArrival(e[i], step))
    && (step in s.barriers ==>
          && (forall d :: d in s.barriers[step].arrived <==> ArrivesIn(e, step, d))
          && (forall d :: d in s.barriers[step].expected <==> d in Named(e, step)))
  }

  lemma ArrivesSnoc(e: seq<Op>, op: Op, step: string)
    ensures forall d :: ArrivesIn(e + [op], step, d) <==> ArrivesIn(e, step, d) || (IsArrival(op, step) && op.device == d)
    ensures (exists i :: 0 <= i < |e + [op]| && IsArrival((e + [op])[i], step))
      <==> (exists i :: 0 <= i < |e| && IsArrival(e[i], step)) || IsArrival(op, step)
  {
    var f := e + [op];
    assert f[|e|] == op;
    forall d ensures ArrivesIn(f, step, d) <==> ArrivesIn(e, step, d) || (IsArrival(op, step) && op.device == d) {
      if i :| 0 <= i < |e| && IsArrival(e[i], step) && e[i].device == d {
        assert f[i] == e[i];
      }
    }
    if i :| 0 <= i < |e| && IsArrival(e[i], step) {
      assert f[i] == e[i];
    }
  }

  lemma NamedSnoc(e: seq<Op>, op: Op, step: string)
    ensures Named(e + [op], step) ==
      if IsArrival(op, step) && (forall i :: 0 <= i < |e| ==> !IsArrival(e[i], step)) then op.all else Named(e, step)
  {
    var f := e + [op];
    assert f[..|e|] == e;
    assert forall i :: 0 <= i < |e| ==> f[i] == e[i];
  }

  lemma ArrivalTells(s: Barrier, e: seq<Op>, op: Op, step: string)
    requires Tells(s, e, step) && IsArrival(op, step)
    ensures Tells(Step(s, op), e + [op], step)
  {
    ArrivesSnoc(e, op, step);
    NamedSnoc(e, op, step);
    DedupKeeps(op.all);
    if i :| 0 <= i < |e| && IsArrival(e[i], step) {
      assert step in s.barriers;
    } else {
      assert forall d :: !ArrivesIn(e, step, d);
    }
  }

  lemma {:induction false} ClearAllOthers(s: Barrier, order: seq<string>, now: int, step: string)
    ensures step in order ==> step !in ClearAll(s, order, now).barriers
    ensures step !in order || step !in s.barriers ==> SameEntry(s, ClearAll(s, order, now), step)
    decreases |order|
  {
    if order != [] {
      ClearAllOthers(Clear(s, order[0], now), order[1..], now, step);
    }
  }

  lemma OthersKeepEntry(s: Barrier, op: Op, step: string)
    requires !IsArrival(op, step)
    ensures if Clears(op, step) then step !in Step(s, op).barriers else SameEntry(s, Step(s, op), step)
  {
    if op.ClearEvery? {
      ClearAllOthers(s, op.order, op.now, step);
    }
  }

  lemma TellsSnoc(s: Barrier, e: seq<Op>, op: Op, step: string)
    requires Tells(s, e, step)
    ensures Tells(Step(s, op), if Clears(op, step) then [] else e + [op], step)
  {
    if IsArrival(op, step) {
      ArrivalTells(s, e, op, step);
    } else {
      OthersKeepEntry(s, op, step);
      ArrivesSnoc(e, op, step);
      NamedSnoc(e, op, step);
    }
  }

  /** At any moment of any run, the entry of a step expects the devices that the first call since the last
      clearing named, and lists as arrived those that have called since. */
  lemma {:induction false} EntryTells(ops: seq<Op>, step: string)
    ensures Tells(Run(INITIAL, ops), Since(ops, step), step)
    decreases |ops|
  {
    if ops != [] {
      var n := |ops| - 1;
      EntryTells(ops[..n], step);
      TellsSnoc(Run(INITIAL, ops[..n]), Since(ops[..n], step), ops[n], step);
      RunSnoc(INITIAL, ops[..n], ops[n]);
      assert ops == ops[..n] + [ops[n]];
    }
  }

  /** Every device that the step expects has called. */
  ghost predicate Complete(ops: seq<Op>, step: string) {
    forall d :: d in Named(ops, step) ==> ArrivesIn(ops, step, d)
  }

  lemma TellsComplete(s: Barrier, e: seq<Op>, step: string)
    requires Tells(s, e, step) && step in s.barriers
    ensures AllArrived(s.barriers[step]) <==> Complete(e, step)
  {
    var b := s.barriers[step];
    if Complete(e, step) {
      forall i | 0 <= i < |b.expected| ensures b.expected[i] in b.arrived {
        assert b.expected[i] in Named(e, step);
      }
    }
  }

  lemma AnswerLists(s: Barrier, step: string, device: string, all: seq<string>, now: int)
    requires WellNamed(s)
    ensures var (s', answer) := Wait(s, step, device, all, now);
      && step in s'.barriers
      && (answer.Immediate? ==> Lists(answer.result, step, s'.barriers[step]) && answer.result.waitTime == 0)
      && (answer.Immediate? <==> (step in s.barriers && device in s.barriers[step].arrived) || AllArrived(s'.barriers[step]))
  {
    var s1 := EnsureEntry(s, step, all);
    MissingSaysWho(s1.barriers[step].expected, s1.barriers[step].arrived);
    MissingSaysWho(s1.barriers[step].expected, s1.barriers[step].arrived + [device]);
  }

  /** The calls of `step` up to and including `op`, since it was last cleared before. */
  function Window(ops: seq<Op>, step: string, op: Op): seq<Op> {
    Since(ops, step) + [op]
  }

  /** `r` says which devices have called for the step, and which of the expected ones have not. */
  ghost predicate TellsCalls(r: Result, calls: seq<Op>, step: string) {
    && r.stepName == step
    && (forall d :: d in r.arrivedDevices <==> ArrivesIn(calls, step, d))
    && (forall d :: d in r.missingDevices <==> d in Named(calls, step) && !ArrivesIn(calls, step, d))
  }

  /** The `k`-th operation of the run released the waiter of `x`, told it its own time exactly under the condition
      of its kind, told it who had called by then and who had not, and told it that all have arrived exactly
      if every device that the step's first call named had called. */
  ghost predicate Explained(ops: seq<Op>, k: nat, step: string, x: Release) {
    && k < |ops|
    && ReleasedBy(Run(INITIAL, ops[..k]), ops[k], step, x)
    && TellsCalls(x.result, Window(ops[..k], step, ops[k]), step)
    && (x.result.allArrived <==> Complete(Window(ops[..k], step, ops[k]), step))
  }

  lemma ListsTells(r: Result, s: Barrier, e: seq<Op>, step: string)
    requires step in s.barriers && Tells(s, e, step) && Lists(r, step, s.barriers[step])
    ensures TellsCalls(r, e, step)
  {}

  lemma OtherCallTells(r: Result, e: seq<Op>, op: Op, step: string)
    requires TellsCalls(r, e, step) && !IsArrival(op, step)
    ensures TellsCalls(r, e + [op], step) && (Complete(e + [op], step) <==> Complete(e, step))
  {
    ArrivesSnoc(e, op, step);
    NamedSnoc(e, op, step);
  }

  lemma ArrivalExplained(s: Barrier, e: seq<Op>, op: Op, step: string, x: Release)
    requires Tells(s, e, step) && op.Arrive? && ReleasedBy(s, op, step, x)
    ensures TellsCalls(x.result, e + [op], step) && Complete(e + [op], step)
  {
    ArrivalTells(s, e, op, step);
    ListsTells(x.result, Step(s, op), e + [op], step);
    TellsComplete(Step(s, op), e + [op], step);
  }

  lemma OtherExplained(s: Barrier, e: seq<Op>, op: Op, step: string, x: Release)
    requires EntriesValid(s) && Tells(s, e, step) && !op.Arrive? && ReleasedBy(s, op, step, x)
    ensures TellsCalls(x.result, e + [op], step) && !Complete(e + [op], step)
  {
    assert EntryValid(s.barriers[step], step, s.timers);
    ListsTells(x.result, s, e, step);
    TellsComplete(s, e, step);
    OtherCallTells(x.result, e, op, step);
  }

  lemma ReleaseExplained(ops: seq<Op>, k: nat, step: string, x: Release)
    requires k < |ops| && ReleasedBy(Run(INITIAL, ops[..k]), ops[k], step, x)
    ensures Explained(ops, k, step, x)
  {
    var s, e, op := Run(INITIAL, ops[..k]), Since(ops[..k], step), ops[k];
    InitialValid();
    RunKeepsValid(INITIAL, ops[..k]);
    EntryTells(ops[..k], step);
    if op.Arrive? {
      ArrivalExplained(s, e, op, step, x);
    } else {
      OtherExplained(s, e, op, step, x);
    }
  }

  /** What a call with the calls `e` behind it is told, or which waiter is stored for it. */
  ghost predicate AnswerFits(s': Barrier, answer: Answer, e: seq<Op>, op: Op)
    requires op.Arrive?
  {
    && (answer.Immediate? <==> ArrivesIn(e, op.step, op.device) || Complete(e + [op], op.step))
    && (answer.Immediate? ==> TellsCalls(answer.result, e + [op], op.step) && answer.result.waitTime == 0)
    && (answer.Stored? ==>
         && op.step in s'.barriers && s'.barriers[op.step].waiters != []
         && var ws := s'.barriers[op.step].waiters; ws[|ws| - 1] == Waiter(op.device, answer.ticket, op.now))
  }

  lemma AnswerFitsFrom(s: Barrier, e: seq<Op>, op: Op)
    requires WellNamed(s) && op.Arrive? && Tells(s, e, op.step)
    ensures var (s', answer) := Wait(s, op.step, op.device, op.all, op.now); AnswerFits(s', answer, e, op)
  {
    var (s', answer) := Wait(s, op.step, op.device, op.all, op.now);
    ArrivalTells(s, e, op, op.step);
    AnswerLists(s, op.step, op.device, op.all, op.now);
    TellsComplete(s', e + [op], op.step);
    if answer.Immediate? {
      ListsTells(answer.result, s', e + [op], op.step);
    }
    if op.step !in s.barriers {
      assert forall d :: !ArrivesIn(e, op.step, d);
    }
  }

  /** Every answer, in every run: it is given at once exactly if the device had called before or this call
      completes the step; it then names who has called, this call included, and who has not, and the
      time is 0. Otherwise a waiter for this device is stored, waiting from now on. */
  lemma AnswersExplained(ops: seq<Op>, step: string, device: string, all: seq<string>, now: int)
    ensures var (s', answer) := Wait(Run(INITIAL, ops), step, device, all, now);
      AnswerFits(s', answer, Since(ops, step), Arrive(step, device, all, now))
  {
    InitialValid();
    RunKeepsValid(INITIAL, ops);
    WellNamedWhenValid(Run(INITIAL, ops));
    EntryTells(ops, step);
    AnswerFitsFrom(Run(INITIAL, ops), Since(ops, step), Arrive(step, device, all, now));
  }

  lemma ExplainedEarlier(ops: seq<Op>, op: Op, k: nat, step: string, x: Release)
    requires Explained(ops, k, step, x)
    ensures Explained(ops + [op], k, step, x)
  {
    assert (ops + [op])[..k] == ops[..k] && (ops + [op])[k] == ops[k];
  }

  /** Main result: over every run, each resolver call is explained by one operation of the run. */
  lemma {:induction false} ReleasesExplained(ops: seq<Op>, i: nat)
    requires i < |Run(INITIAL, ops).released|
    ensures exists k: nat, step :: Explained(ops, k, step, Run(INITIAL, ops).released[i])
    decreases |ops|
  {
    if ops != [] {
      var n := |ops| - 1;
      var s := Run(INITIAL, ops[..n]);
      assert ops == ops[..n] + [ops[n]];
      RunSnoc(INITIAL, ops[..n], ops[n]);
      InitialValid();
      RunKeepsValid(INITIAL, ops[..n]);
      WellNamedWhenValid(s);
      StepReleases(s, ops[n]);
      var x := Run(INITIAL, ops).released[i];
      if i < |s.released| {
        ReleasesExplained(ops[..n], i);
        var k: nat, step :| Explained(ops[..n], k, step, x);
        ExplainedEarlier(ops[..n], ops[n], k, step, x);
      } else {
        var step :| ReleasedBy(s, ops[n], step, x);
        ReleaseExplained(ops, n, step, x);
      }
    }
  }

  /** A waiter that has waited five units when its step is cleared is told that it waited none. */
  lemma ClearedTooShort()
    ensures var log := Run(INITIAL, [Arrive("step", "a", ["a", "b"], 0), ClearStep("step", 5)]).released;
      |log| == 1 && log[0].waiter == Waiter("a", 0, 0) && log[0].result.waitTime == 0
  {
    var all, op, clear := ["a", "b"], Arrive("step", "a", ["a", "b"], 0), ClearStep("step", 5);
    DedupKeeps(all);
    var s := Step(INITIAL, op);
    assert [op, clear] == [op] + [clear] && [op] == [] + [op];
    RunSnoc(INITIAL, [op], clear);
    RunSnoc(INITIAL, [], op);
    var e := MarkArrived(EnsureEntry(INITIAL, "step", all), "step", "a").barriers["step"];
    assert e.arrived == ["a"];
    assert "b" in all && "b" in e.expected && "b" !in e.arrived;
    assert !AllArrived(e);
    var w := s.barriers["step"].waiters;
    assert w == [Waiter("a", 0, 0)];
    ReleaseWaitersAppends([], w, BuildResult(s.barriers["step"], 5, false, 5));
  }

  // ---- in which order devices are listed ----

  /** The devices of the calls for a step, in order. */
  function Callers(ops: seq<Op>, step: string): seq<string> {
    if ops == [] then []
    else
      var n := |ops| - 1;
      Callers(ops[..n], step) + if IsArrival(ops[n], step) then [ops[n].device] else []
  }

  lemma CallersSnoc(e: seq<Op>, op: Op, step: string)
    ensures Callers(e + [op], step) == Callers(e, step) + if IsArrival(op, step) then [op.device] else []
  {
    assert (e + [op])[..|e|] == e;
  }

  /** The entry lists, each once and in order, the devices that have called, and those that the first call named. */
  ghost predicate TellsOrder(s: Barrier, e: seq<Op>, step: string) {
    step in s.barriers ==>
      s.barriers[step].arrived == Dedup(Callers(e, step)) && s.barriers[step].expected == Dedup(Named(e, step))
  }

  lemma NoCallers(e: seq<Op>, step: string)
    requires forall i :: 0 <= i < |e| ==> !IsArrival(e[i], step)
    ensures Callers(e, step) == []
  {
    if e != [] {
      NoCallers(e[..|e| - 1], step);
    }
  }

  /** What an arrival makes of the entry's lists. */
  lemma ArrivalLists(s: Barrier, op: Op)
    requires op.Arrive?
    ensures var s1, s' := EnsureEntry(s, op.step, op.all), Step(s, op);
      && op.step in s'.barriers && s'.barriers[op.step].expected == s1.barriers[op.step].expected
      && s'.barriers[op.step].arrived == s1.barriers[op.step].arrived
           + if op.device in s1.barriers[op.step].arrived then [] else [op.device]
  {}

  lemma ArrivalOrder(s: Barrier, e: seq<Op>, op: Op, step: string)
    requires Tells(s, e, step) && TellsOrder(s, e, step) && IsArrival(op, step)
    ensures TellsOrder(Step(s, op), e + [op], step)
  {
    ArrivalLists(s, op);
    CallersSnoc(e, op, step);
    NamedSnoc(e, op, step);
    DedupSnoc(Callers(e, step), op.device);
    DedupKeeps(Callers(e, step));
    if step in s.barriers {
      var i :| 0 <= i < |e| && IsArrival(e[i], step);
    } else {
      NoCallers(e, step);
    }
  }

  lemma OtherOrder(s: Barrier, e: seq<Op>, op: Op, step: string)
    requires TellsOrder(s, e, step) && !IsArrival(op, step) && !Clears(op, step)
    ensures TellsOrder(Step(s, op), e + [op], step)
  {
    assert Callers(e, step) + [] == Callers(e, step);
    CallersSnoc(e, op, step);
    NamedSnoc(e, op, step);
    OthersKeepEntry(s, op, step);
  }

  /** At any moment of any run, an entry lists the devices that have called since the last clearing in the order of their
      first calls, and expects those that the first of these calls named, each once. */
  lemma {:induction false} EntryInOrder(ops: seq<Op>, step: string)
    ensures TellsOrder(Run(INITIAL, ops), Since(ops, step), step)
    decreases |ops|
  {
    if ops != [] {
      var n := |ops| - 1;
      var s, e, op := Run(INITIAL, ops[..n]), Since(ops[..n], step), ops[n];
      EntryInOrder(ops[..n], step);
      EntryTells(ops[..n], step);
      RunSnoc(INITIAL, ops[..n], op);
      assert ops == ops[..n] + [op];
      if IsArrival(op, step) {
        ArrivalOrder(s, e, op, step);
      } else if Clears(op, step) {
        OthersKeepEntry(s, op, step);
      } else {
        OtherOrder(s, e, op, step);
      }
    }
  }
}
