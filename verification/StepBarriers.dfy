/** The barrier object. Its methods take the current time and give the steps of `StepBarrierSpec`. */
module StepBarriers {
  import opened Basics
  import opened StepBarrierSpec
  import opened StepBarrierProofs

  datatype Status = Status(stepName: string, expectedCount: nat, arrivedCount: nat,
                           arrivedDevices: seq<string>, missingDevices: seq<string>)

  class StepBarrier {
    var barriers: map<string, Entry>
    var timers: map<nat, Timer>
    var nextTimer: nat
    var nextTicket: nat
    var released: seq<Release>

    static function Keep(m: map<string, Entry>, ks: set<string>): map<string, Entry> {
      map k | k in m && k in ks :: m[k]
    }

    ghost function State(): Barrier
      reads this
    {
      Barrier(barriers, timers, nextTimer, nextTicket, released)
    }

    constructor ()
      ensures State() == INITIAL
    {
      barriers, timers, nextTimer, nextTicket, released := map[], map[], 0, 0, [];
    }

    /** Calls every resolver of `waiters` with `r`. */
    method ResolveAll(waiters: seq<Waiter>, r: Result)
      modifies this`released
      ensures released == ReleaseWaiters(old(released), waiters, r)
    {
      assert waiters[0..] == waiters;
      for i := 0 to |waiters|
        invariant ReleaseWaiters(released, waiters[i..], r) == ReleaseWaiters(old(released), waiters, r)
      {
        assert waiters[i..][1..] == waiters[i + 1..];
        released := released + [Release(waiters[i], r)];
      }
    }

    method Wait(step: string, device: string, all: seq<string>, now: int) returns (answer: Answer)
      modifies this
      ensures (State(), answer) == StepBarrierSpec.Wait(old(State()), step, device, all, now)
    {
      if step !in barriers {
        barriers := barriers[step := Entry(step, Dedup(all), [], [], None)];
      }
      var entry := barriers[step];
      if device in entry.arrived {
        return Immediate(BuildResult(entry, now, true, now));
      }
      entry := entry.(arrived := entry.arrived + [device]);
      if AllArrived(entry) {
        if entry.timeoutId.Some? {
          timers := timers - {entry.timeoutId.value};
        }
        var result := BuildResult(entry, now, true, now);
        ResolveAll(entry.waiters, result);
        entry := entry.(waiters := [], timeoutId := None);
        barriers := barriers[step := entry];
        ghost var s2 := MarkArrived(EnsureEntry(old(State()), step, all), step, device);
        assert barriers == ReleaseEntry(s2, step, result).barriers;
        return Immediate(result);
      }
      entry := entry.(waiters := entry.waiters + [Waiter(device, nextTicket, now)]);
      answer := Stored(nextTicket);
      nextTicket := nextTicket + 1;
      if entry.timeoutId == None {
        entry := entry.(timeoutId := Some(nextTimer));
        timers := timers[nextTimer := Timer(step, now)];
        nextTimer := nextTimer + 1;
      }
      barriers := barriers[step := entry];
      ghost var s2 := MarkArrived(EnsureEntry(old(State()), step, all), step, device);
      assert barriers == StoreWaiter(s2, step, device, now).barriers;
    }

    /** The timeout callback; it runs only while its timer is armed. */
    method HandleTimeout(timer: nat, now: int)
      requires Valid(State())
      modifies this
      ensures State() == Timeout(old(State()), timer, now)
    {
      if timer !in timers { return; }
      var t := timers[timer];
      var entry := barriers[t.step];
      assert entry.timeoutId == Some(timer);
      timers := timers - {timer};
      var result := BuildResult(entry, t.startTime, false, now);
      ResolveAll(entry.waiters, result);
      barriers := barriers[t.step := entry.(waiters := [], timeoutId := None)];
    }

    method Clear(step: string, now: int)
      modifies this
      ensures State() == StepBarrierSpec.Clear(old(State()), step, now)
    {
      if step in barriers {
        var entry := barriers[step];
        if entry.timeoutId.Some? {
          timers := timers - {entry.timeoutId.value};
        }
        ResolveAll(entry.waiters, BuildResult(entry, now, false, now));
        barriers := barriers - {step};
      }
    }

    /** The entries are visited in some order, each once; afterwards the table is empty. */
    method ClearAll(now: int) returns (ghost order: seq<string>)
      modifies this
      ensures State() == StepBarrierSpec.ClearAll(old(State()), order, now)
      ensures barriers == map[] && Distinct(order)
      ensures forall k :: k in order <==> k in old(barriers)
    {
      var left := barriers.Keys;
      order := [];
      while left != {}
        invariant barriers == old(barriers) && left <= barriers.Keys
        invariant Distinct(order) && forall k :: k in order <==> k in barriers && k !in left
        invariant State().(barriers := Keep(barriers, left)) == StepBarrierSpec.ClearAll(old(State()), order, now)
        decreases left
      {
        var k :| k in left;
        var entry := barriers[k];
        ghost var before := State().(barriers := Keep(barriers, left));
        if entry.timeoutId.Some? {
          timers := timers - {entry.timeoutId.value};
        }
        ResolveAll(entry.waiters, BuildResult(entry, now, false, now));
        left := left - {k};
        ClearAllAppend(old(State()), order, k, now);
        ghost var after := StepBarrierSpec.Clear(before, k, now);
        assert Keep(barriers, left) == after.barriers;
        order := order + [k];
      }
      assert Keep(barriers, left) == map[];
      barriers := map[];
    }

    static lemma {:induction false} ClearAllAppend(s: Barrier, order: seq<string>, k: string, now: int)
      ensures StepBarrierSpec.ClearAll(s, order + [k], now) == StepBarrierSpec.Clear(StepBarrierSpec.ClearAll(s, order, now), k, now)
      decreases |order|
    {
      if order == [] {
        assert (order + [k])[1..] == [];
      } else {
        assert (order + [k])[1..] == order[1..] + [k];
        ClearAllAppend(StepBarrierSpec.Clear(s, order[0], now), order[1..], k, now);
      }
    }

    /** Null exactly when there is no such barrier; otherwise who has arrived and, of the expected
        devices, who has not. */
    method GetStatus(step: string) returns (r: Option<Status>)
      ensures r.None? <==> step !in barriers
      ensures r.Some? ==> var e := barriers[step];
        && r.value.stepName == e.stepName && r.value.arrivedDevices == e.arrived
        && r.value.expectedCount == |e.expected| && r.value.arrivedCount == |e.arrived|
        && forall d :: d in r.value.missingDevices <==> d in e.expected && d !in e.arrived
    {
      if step !in barriers { return None; }
      var e := barriers[step];
      MissingSaysWho(e.expected, e.arrived);
      return Some(Status(e.stepName, |e.expected|, |e.arrived|, e.arrived, Missing(e.expected, e.arrived)));
    }
  }
}
