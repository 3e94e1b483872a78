/** Every run of the barrier keeps `Valid`, and what follows from it. */
module StepBarrierProofs {
  import opened Basics
  import opened StepBarrierSpec

  // ---- what releasing does to the log ----

  function Releases(waiters: seq<Waiter>, r: Result): seq<Release> {
    seq(|waiters|, i requires 0 <= i < |waiters| => Release(waiters[i], r))
  }

  lemma {:induction false} ReleaseWaitersAppends(log: seq<Release>, waiters: seq<Waiter>, r: Result)
    ensures ReleaseWaiters(log, waiters, r) == log + Releases(waiters, r)
    decreases |waiters|
  {
    if waiters == [] {
      assert log + Releases(waiters, r) == log;
    } else {
      var log' := log + [Release(waiters[0], r)];
      ReleaseWaitersAppends(log', waiters[1..], r);
      assert log' + Releases(waiters[1..], r) == log + Releases(waiters, r);
    }
  }

  ghost predicate IsStoredAt(s: Barrier, step: string, ticket: nat) {
    exists j :: Holds(s, step, j, ticket)
  }

  lemma ReleasedAfter(s: Barrier, step: string, r: Result, n: nat)
    requires step in s.barriers
    ensures IsReleased(ReleaseEntry(s, step, r), n) <==> IsReleased(s, n) || IsStoredAt(s, step, n)
  {
    var s', w := ReleaseEntry(s, step, r), s.barriers[step].waiters;
    ReleaseWaitersAppends(s.released, w, r);
    var log := s.released + Releases(w, r);
    if IsReleased(s', n) {
      var i :| 0 <= i < |log| && log[i].waiter.ticket == n;
      if i < |s.released| {
        assert s.released[i].waiter.ticket == n;
      } else {
        assert Holds(s, step, i - |s.released|, n);
      }
    }
    if i :| 0 <= i < |s.released| && s.released[i].waiter.ticket == n {
      assert log[i].waiter.ticket == n;
    }
    if j :| Holds(s, step, j, n) {
      assert log[|s.released| + j].waiter.ticket == n;
    }
  }

  lemma StoredAfter(s: Barrier, step: string, r: Result, n: nat)
    requires step in s.barriers
    ensures forall k, j :: Holds(ReleaseEntry(s, step, r), k, j, n) <==> Holds(s, k, j, n) && k != step
  {}

  lemma ReleaseKeepsTickets(s: Barrier, step: string, r: Result)
    requires step in s.barriers && TicketsValid(s)
    ensures TicketsValid(ReleaseEntry(s, step, r))
    ensures forall n: nat ::
      && (IsReleased(ReleaseEntry(s, step, r), n) <==> IsReleased(s, n) || IsStoredAt(s, step, n))
      && (IsStored(ReleaseEntry(s, step, r), n) <==> IsStored(s, n) && !IsStoredAt(s, step, n))
  {
    var s', w := ReleaseEntry(s, step, r), s.barriers[step].waiters;
    forall n: nat
      ensures IsStored(s', n) || IsReleased(s', n) <==> n < s'.nextTicket
      ensures !(IsStored(s', n) && IsReleased(s', n))
      ensures IsReleased(s', n) <==> IsReleased(s, n) || IsStoredAt(s, step, n)
      ensures IsStored(s', n) <==> IsStored(s, n) && !IsStoredAt(s, step, n)
    {
      ReleasedAfter(s, step, r, n);
      StoredAfter(s, step, r, n);
      assert IsStored(s, n) <==> IsStored(s', n) || IsStoredAt(s, step, n);
    }
    forall n: nat, k, j, k', j' | Holds(s', k, j, n) && Holds(s', k', j', n) ensures k == k' && j == j' {
      StoredAfter(s, step, r, n);
    }
    ReleaseWaitersAppends(s.released, w, r);
    var log := s.released + Releases(w, r);
    forall i, j | 0 <= i < j < |log| ensures log[i].waiter.ticket != log[j].waiter.ticket {
      if j >= |s.released| {
        var m := j - |s.released|;
        assert Holds(s, step, m, log[j].waiter.ticket);
        if i < |s.released| {
          assert IsReleased(s, log[i].waiter.ticket) && IsStored(s, log[j].waiter.ticket);
        } else {
          assert Holds(s, step, i - |s.released|, log[i].waiter.ticket);
        }
      }
    }
  }

  /** Dropping an entry without waiters, or changing an entry's other fields, moves no ticket. */
  lemma SameTickets(s: Barrier, s': Barrier)
    requires TicketsValid(s) && s'.nextTicket == s.nextTicket && s'.released == s.released
    requires forall k, j, n :: Holds(s', k, j, n) <==> Holds(s, k, j, n)
    ensures TicketsValid(s')
  {
    forall n: nat
      ensures IsStored(s', n) <==> IsStored(s, n)
      ensures IsReleased(s', n) <==> IsReleased(s, n)
    {}
  }

  lemma StoreKeepsTickets(s: Barrier, step: string, device: string, now: int)
    requires step in s.barriers && TicketsValid(s)
    ensures TicketsValid(StoreWaiter(s, step, device, now))
  {
    var s', last := StoreWaiter(s, step, device, now), |s.barriers[step].waiters|;
    assert forall k, j, n: nat :: Holds(s', k, j, n) <==> Holds(s, k, j, n) || (k == step && j == last && n == s.nextTicket);
    assert Holds(s', step, last, s.nextTicket);
    forall n: nat
      ensures IsStored(s', n) <==> IsStored(s, n) || n == s.nextTicket
      ensures IsReleased(s', n) <==> IsReleased(s, n)
    {
      if k, j :| Holds(s, k, j, n) { assert Holds(s', k, j, n); }
    }
    assert !IsStored(s, s.nextTicket) && !IsReleased(s, s.nextTicket);
    forall n: nat, k, j, k', j' | Holds(s', k, j, n) && Holds(s', k', j', n) ensures k == k' && j == j' {
      if n == s.nextTicket { assert !Holds(s, k, j, n) && !Holds(s, k', j', n); }
    }
  }

  // ---- entries and timers ----

  ghost predicate EntriesValid(s: Barrier) {
    forall k :: k in s.barriers ==> EntryValid(s.barriers[k], k, s.timers)
  }

  /** All entries but `step` are valid; `step`'s own timer is where it should be. */
  ghost predicate OthersValid(s: Barrier, step: string) {
    && step in s.barriers
    && (forall k :: k in s.barriers && k != step ==> EntryValid(s.barriers[k], k, s.timers))
    && s.barriers[step].stepName == step && Distinct(s.barriers[step].arrived)
    && (var id := s.barriers[step].timeoutId; id.Some? && id.value in s.timers ==> s.timers[id.value].step == step)
    && TimersOwned(s)
  }

  lemma ReleaseKeepsEntries(s: Barrier, step: string, r: Result)
    requires OthersValid(s, step)
    ensures EntriesValid(ReleaseEntry(s, step, r)) && TimersOwned(ReleaseEntry(s, step, r))
  {
    var s', id := ReleaseEntry(s, step, r), s.barriers[step].timeoutId;
    forall k | k in s'.barriers ensures EntryValid(s'.barriers[k], k, s'.timers) {
      if k != step {
        var e := s.barriers[k];
        assert EntryValid(e, k, s.timers);
      }
    }
  }

  lemma ReleaseKeepsTruth(s: Barrier, step: string, r: Result)
    requires step in s.barriers && ReleasesTruthful(s)
    requires r.allArrived ==> r.missingDevices == []
    ensures ReleasesTruthful(ReleaseEntry(s, step, r))
  {
    ReleaseWaitersAppends(s.released, s.barriers[step].waiters, r);
  }

  lemma {:induction false} MissingSaysWho(expected: seq<string>, arrived: seq<string>)
    ensures forall d :: d in Missing(expected, arrived) <==> d in expected && d !in arrived
  {
    if expected != [] {
      MissingSaysWho(expected[1..], arrived);
      assert expected == [expected[0]] + expected[1..];
    }
  }

  lemma AllArrivedMissing(e: Entry)
    ensures AllArrived(e) <==> Missing(e.expected, e.arrived) == []
  {
    MissingSaysWho(e.expected, e.arrived);
    var m := Missing(e.expected, e.arrived);
    assert m != [] ==> m[0] in m;
    if !AllArrived(e) {
      var i :| 0 <= i < |e.expected| && e.expected[i] !in e.arrived;
      assert e.expected[i] in m;
    }
  }

  lemma EnsureKeepsValid(s: Barrier, step: string, all: seq<string>)
    requires Valid(s)
    ensures Valid(EnsureEntry(s, step, all))
  {
    SameTickets(s, EnsureEntry(s, step, all));
  }

  lemma MarkKeepsOthers(s: Barrier, step: string, device: string)
    requires EntriesValid(s) && TimersOwned(s) && step in s.barriers && device !in s.barriers[step].arrived
    ensures OthersValid(MarkArrived(s, step, device), step)
  {
    assert EntryValid(s.barriers[step], step, s.timers);
  }

  lemma ArrivalReleasesKeepsValid(s: Barrier, step: string, device: string, now: int)
    requires Valid(s) && step in s.barriers && device !in s.barriers[step].arrived
    requires AllArrived(MarkArrived(s, step, device).barriers[step])
    ensures var s2 := MarkArrived(s, step, device);
      Valid(ReleaseEntry(s2, step, BuildResult(s2.barriers[step], now, true, now)))
  {
    var s2 := MarkArrived(s, step, device);
    var r := BuildResult(s2.barriers[step], now, true, now);
    SameTickets(s, s2);
    MarkKeepsOthers(s, step, device);
    AllArrivedMissing(s2.barriers[step]);
    ReleaseKeepsEntries(s2, step, r);
    ReleaseKeepsTickets(s2, step, r);
    ReleaseKeepsTruth(s2, step, r);
  }

  lemma StoreKeepsEntries(s: Barrier, step: string, device: string, now: int)
    requires EntriesValid(s) && TimersOwned(s) && step in s.barriers && device !in s.barriers[step].arrived
    requires !AllArrived(MarkArrived(s, step, device).barriers[step])
    ensures var s' := StoreWaiter(MarkArrived(s, step, device), step, device, now);
      EntriesValid(s') && TimersOwned(s')
  {
    var s' := StoreWaiter(MarkArrived(s, step, device), step, device, now);
    assert EntryValid(s.barriers[step], step, s.timers);
    forall k | k in s'.barriers ensures EntryValid(s'.barriers[k], k, s'.timers) {
      if k != step {
        assert EntryValid(s.barriers[k], k, s.timers);
      }
    }
  }

  lemma ArrivalWaitsKeepsValid(s: Barrier, step: string, device: string, now: int)
    requires Valid(s) && step in s.barriers && device !in s.barriers[step].arrived
    requires !AllArrived(MarkArrived(s, step, device).barriers[step])
    ensures Valid(StoreWaiter(MarkArrived(s, step, device), step, device, now))
  {
    SameTickets(s, MarkArrived(s, step, device));
    StoreKeepsTickets(MarkArrived(s, step, device), step, device, now);
    StoreKeepsEntries(s, step, device, now);
  }

  lemma WaitKeepsValid(s: Barrier, step: string, device: string, all: seq<string>, now: int)
    requires Valid(s)
    ensures Valid(Wait(s, step, device, all, now).0)
  {
    var s1 := EnsureEntry(s, step, all);
    EnsureKeepsValid(s, step, all);
    if device !in s1.barriers[step].arrived {
      if AllArrived(MarkArrived(s1, step, device).barriers[step]) {
        ArrivalReleasesKeepsValid(s1, step, device, now);
      } else {
        ArrivalWaitsKeepsValid(s1, step, device, now);
      }
    }
  }

  lemma TimeoutKeepsValid(s: Barrier, timer: nat, now: int)
    requires Valid(s)
    ensures Valid(Timeout(s, timer, now))
  {
    if timer in s.timers {
      var t := s.timers[timer];
      var s1 := s.(timers := s.timers - {timer});
      var r := BuildResult(s.barriers[t.step], t.startTime, false, now);
      SameTickets(s, s1);
      forall k | k in s1.barriers && k != t.step ensures EntryValid(s1.barriers[k], k, s1.timers) {
        assert EntryValid(s.barriers[k], k, s.timers);
      }
      assert EntryValid(s.barriers[t.step], t.step, s.timers);
      ReleaseKeepsEntries(s1, t.step, r);
      ReleaseKeepsTickets(s1, t.step, r);
      ReleaseKeepsTruth(s1, t.step, r);
    }
  }

  lemma ClearKeepsValid(s: Barrier, step: string, now: int)
    requires Valid(s)
    ensures Valid(Clear(s, step, now))
  {
    if step in s.barriers {
      var r := BuildResult(s.barriers[step], now, false, now);
      var s1 := ReleaseEntry(s, step, r);
      assert EntryValid(s.barriers[step], step, s.timers);
      ReleaseKeepsEntries(s, step, r);
      ReleaseKeepsTickets(s, step, r);
      ReleaseKeepsTruth(s, step, r);
      SameTickets(s1, Clear(s, step, now));
    }
  }

  lemma {:induction false} ClearAllKeepsValid(s: Barrier, order: seq<string>, now: int)
    requires Valid(s)
    ensures Valid(ClearAll(s, order, now))
    decreases |order|
  {
    if order != [] {
      ClearKeepsValid(s, order[0], now);
      ClearAllKeepsValid(Clear(s, order[0], now), order[1..], now);
    }
  }

  lemma StepKeepsValid(s: Barrier, op: Op)
    requires Valid(s)
    ensures Valid(Step(s, op))
  {
    match op
    case Arrive(step, device, all, now) => WaitKeepsValid(s, step, device, all, now);
    case TimerFires(t, now) => TimeoutKeepsValid(s, t, now);
    case ClearStep(step, now) => ClearKeepsValid(s, step, now);
    case ClearEvery(order, now) => ClearAllKeepsValid(s, order, now);
  }

  /** What the invariant means for callers. */
  ghost predicate Promises(s: Barrier) {
    && (forall n: nat :: n < s.nextTicket ==> IsStored(s, n) != IsReleased(s, n))
    && (forall k :: k in s.barriers ==>
          (s.barriers[k].waiters != [] <==> exists t :: t in s.timers && s.timers[t].step == k))
    && (forall t, u :: t in s.timers && u in s.timers && s.timers[t].step == s.timers[u].step ==> t == u)
    && (forall i :: 0 <= i < |s.released| && s.released[i].result.allArrived ==> s.released[i].result.missingDevices == [])
  }

  lemma ValidPromises(s: Barrier)
    requires Valid(s)
    ensures Promises(s)
  {
    forall k | k in s.barriers
      ensures s.barriers[k].waiters != [] <==> exists t :: t in s.timers && s.timers[t].step == k
    {
      assert EntryValid(s.barriers[k], k, s.timers);
    }
  }

  /** Main result: over every run, each stored waiter is resolved at most once and none is lost,
      an entry has waiters exactly while its one timer is armed, and a waiter released with
      `allArrived` true really found nobody missing. */
  lemma {:induction false} RunKeepsValid(s: Barrier, ops: seq<Op>)
    requires Valid(s)
    ensures Valid(Run(s, ops)) && Promises(Run(s, ops))
    decreases |ops|
  {
    if ops == [] {
      ValidPromises(s);
    } else {
      StepKeepsValid(s, ops[0]);
      RunKeepsValid(Step(s, ops[0]), ops[1..]);
    }
  }

  lemma InitialValid()
    ensures Valid(INITIAL)
  {}

  /** No waiter can be lost: in every reachable state, a ticket that is not released yet sits in an
      entry whose timer is armed, and that timer releases it. */
  lemma TimerReleasesWaiter(ops: seq<Op>, ticket: nat, now: int)
    requires ticket < Run(INITIAL, ops).nextTicket && !IsReleased(Run(INITIAL, ops), ticket)
    ensures var s := Run(INITIAL, ops);
      exists step, j :: Holds(s, step, j, ticket) && s.barriers[step].timeoutId.Some?
        && s.barriers[step].timeoutId.value in s.timers
        && IsReleased(Timeout(s, s.barriers[step].timeoutId.value, now), ticket)
  {
    var s := Run(INITIAL, ops);
    InitialValid();
    RunKeepsValid(INITIAL, ops);
    var step, j :| Holds(s, step, j, ticket);
    assert EntryValid(s.barriers[step], step, s.timers);
    var id := s.barriers[step].timeoutId.value;
    var s1 := s.(timers := s.timers - {id});
    assert Holds(s1, step, j, ticket);
    ReleasedAfter(s1, step, BuildResult(s.barriers[step], s.timers[id].startTime, false, now), ticket);
  }

  /** The last expected arrival releases every waiter of its step, at once and with `allArrived`. */
  lemma LastArrivalReleases(s: Barrier, step: string, device: string, all: seq<string>, now: int, ticket: nat, j: int)
    requires Valid(s) && Holds(s, step, j, ticket) && device !in s.barriers[step].arrived
    requires AllArrived(MarkArrived(s, step, device).barriers[step])
    ensures var s' := Wait(s, step, device, all, now).0;
      && IsReleased(s', ticket) && !IsStored(s', ticket)
      && s'.barriers[step].waiters == [] && s'.barriers[step].timeoutId.None?
  {
    var s2 := MarkArrived(s, step, device);
    var r := BuildResult(s2.barriers[step], now, true, now);
    assert Holds(s2, step, j, ticket);
    ReleasedAfter(s2, step, r, ticket);
    WaitKeepsValid(s, step, device, all, now);
  }

  ghost predicate Truthful(r: Result) {
    r.allArrived <==> r.missingDevices == []
  }

  /** An immediate answer always says that all have arrived. It is true except exactly when the
      device had arrived before and somebody is still missing (a second call before release, or
      one after a timeout). */
  lemma ImmediateAnswerTruthfulExactly(s: Barrier, step: string, device: string, all: seq<string>, now: int)
    requires Valid(s) && Wait(s, step, device, all, now).1.Immediate?
    ensures Wait(s, step, device, all, now).1.result.allArrived
    ensures Truthful(Wait(s, step, device, all, now).1.result)
      <==> !(step in s.barriers && device in s.barriers[step].arrived && !AllArrived(s.barriers[step]))
  {
    var s1 := EnsureEntry(s, step, all);
    AllArrivedMissing(s1.barriers[step]);
    AllArrivedMissing(MarkArrived(s1, step, device).barriers[step]);
  }

  /** Such answers are reachable: a device that repeats its call while the other is missing. */
  lemma RepeatedCallMisled()
    ensures var s := Run(INITIAL, [Arrive("step", "a", ["a", "b"], 0)]);
      var w := Wait(s, "step", "a", ["a", "b"], 5);
      w.1.Immediate? && w.1.result.allArrived && w.1.result.missingDevices == ["b"]
  {
    var all, op := ["a", "b"], Arrive("step", "a", ["a", "b"], 0);
    assert all[..1] == ["a"] && all[..1][..0] == [];
    assert Dedup(all[..1]) == ["a"] && Dedup(all) == all;
    assert [op][1..] == [];
    var s := Step(INITIAL, op);
    assert Run(INITIAL, [op]) == Run(s, []) == s;
    var e := Entry("step", all, ["a"], [], None);
    assert MarkArrived(EnsureEntry(INITIAL, "step", all), "step", "a").barriers["step"] == e;
    assert "b" != "a" && e.expected[1] == "b";
    assert !AllArrived(e);
    assert all[1..] == ["b"] && all[1..][1..] == [];
    assert Missing(["b"], ["a"]) == ["b"] && Missing(all, ["a"]) == ["b"];
    var t := s.barriers["step"];
    assert t.expected == all && t.arrived == ["a"];
  }

  // ---- order ----

  lemma {:induction false} DedupKeeps(ids: seq<string>)
    ensures forall d :: d in Dedup(ids) <==> d in ids
    ensures Distinct(Dedup(ids))
  {
    if ids != [] {
      var n := |ids| - 1;
      DedupKeeps(ids[..n]);
      assert ids == ids[..n] + [ids[n]];
    }
  }

  /** A set keeps each element once, in the order of first insertion: adding one that is there changes nothing, adding a
      new one puts it last. */
  lemma DedupSnoc(ids: seq<string>, d: string)
    ensures Dedup(ids + [d]) == if d in ids then Dedup(ids) else Dedup(ids) + [d]
  {
    DedupKeeps(ids);
    assert (ids + [d])[..|ids|] == ids;
  }

  /** The missing devices stand in the order of the expected ones. */
  lemma {:induction false} MissingInOrder(a: seq<string>, b: seq<string>, arrived: seq<string>)
    ensures Missing(a + b, arrived) == Missing(a, arrived) + Missing(b, arrived)
    decreases |a|
  {
    if a == [] {
      assert a + b == b;
    } else {
      assert (a + b)[1..] == a[1..] + b;
      MissingInOrder(a[1..], b, arrived);
    }
  }
}
