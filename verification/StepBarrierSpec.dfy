/** The step barrier as a transition system: arrivals, timeouts and clearing. */
module StepBarrierSpec {
  import opened Basics

  datatype Result = Result(stepName: string, allArrived: bool,
                           arrivedDevices: seq<string>, missingDevices: seq<string>, waitTime: int)

  /** A stored resolver: the device, the number of its `wait` call, and when that call began. */
  datatype Waiter = Waiter(device: string, ticket: nat, since: int)

  datatype Entry = Entry(stepName: string, expected: seq<string>, arrived: seq<string>, waiters: seq<Waiter>, timeoutId: Option<nat>)

  datatype Timer = Timer(step: string, startTime: int)

  datatype Release = Release(waiter: Waiter, result: Result)

  /** `timers` are the armed timers; `released` logs each resolver call. */
  datatype Barrier = Barrier(barriers: map<string, Entry>, timers: map<nat, Timer>, nextTimer: nat, nextTicket: nat,
                             released: seq<Release>)

  const INITIAL := Barrier(map[], map[], 0, 0, [])

  /** `new Set(ids)`, in insertion order. */
  function Dedup(ids: seq<string>): seq<string> {
    if ids == [] then []
    else
      var t := Dedup(ids[..|ids| - 1]);
      var d := ids[|ids| - 1];
      if d in t then t else t + [d]
  }

  function Missing(expected: seq<string>, arrived: seq<string>): seq<string> {
    if expected == [] then []
    else (if expected[0] in arrived then [] else [expected[0]]) + Missing(expected[1..], arrived)
  }

  predicate AllArrived(e: Entry) {
    forall i :: 0 <= i < |e.expected| ==> e.expected[i] in e.arrived
  }

  function BuildResult(e: Entry, startTime: int, allArrived: bool, now: int): Result {
    Result(e.stepName, allArrived, e.arrived, Missing(e.expected, e.arrived), now - startTime)
  }

  function ReleaseWaiters(log: seq<Release>, waiters: seq<Waiter>, r: Result): seq<Release>
    decreases |waiters|
  {
    if waiters == [] then log else ReleaseWaiters(log + [Release(waiters[0], r)], waiters[1..], r)
  }

  function Disarm(timers: map<nat, Timer>, id: Option<nat>): map<nat, Timer> {
    if id.Some? then timers - {id.value} else timers
  }

  /** Resolves the stored waiters of the entry for `step` with `r` and stops its timer. */
  function ReleaseEntry(s: Barrier, step: string, r: Result): Barrier
    requires step in s.barriers
  {
    var e := s.barriers[step];
    s.(barriers := s.barriers[step := e.(waiters := [], timeoutId := None)],
       timers := Disarm(s.timers, e.timeoutId),
       released := ReleaseWaiters(s.released, e.waiters, r))
  }

  function EnsureEntry(s: Barrier, step: string, all: seq<string>): Barrier {
    if step in s.barriers then s
    else s.(barriers := s.barriers[step := Entry(step, Dedup(all), [], [], None)])
  }

  function MarkArrived(s: Barrier, step: string, device: string): Barrier
    requires step in s.barriers
  {
    var e := s.barriers[step];
    s.(barriers := s.barriers[step := e.(arrived := e.arrived + [device])])
  }

  function StoreWaiter(s: Barrier, step: string, device: string, now: int): Barrier
    requires step in s.barriers
  {
    var e := s.barriers[step];
    var w := e.waiters + [Waiter(device, s.nextTicket, now)];
    if e.timeoutId.Some? then
      s.(barriers := s.barriers[step := e.(waiters := w)], nextTicket := s.nextTicket + 1)
    else
      s.(barriers := s.barriers[step := e.(waiters := w, timeoutId := Some(s.nextTimer))],
         timers := s.timers[s.nextTimer := Timer(step, now)],
         nextTimer := s.nextTimer + 1, nextTicket := s.nextTicket + 1)
  }

  /** What a `wait` call gets back: an immediate result, or a ticket for a stored waiter. */
  datatype Answer = Immediate(result: Result) | Stored(ticket: nat)

  function Wait(s: Barrier, step: string, device: string, all: seq<string>, now: int): (Barrier, Answer) {
    var s1 := EnsureEntry(s, step, all);
    if device in s1.barriers[step].arrived then
      (s1, Immediate(BuildResult(s1.barriers[step], now, true, now)))
    else
      var s2 := MarkArrived(s1, step, device);
      var e := s2.barriers[step];
      if AllArrived(e) then
        var r := BuildResult(e, now, true, now);
        (ReleaseEntry(s2, step, r), Immediate(r))
      else
        (StoreWaiter(s2, step, device, now), Stored(s2.nextTicket))
  }

  function Timeout(s: Barrier, timer: nat, now: int): Barrier {
    if timer in s.timers && s.timers[timer].step in s.barriers then
      var t := s.timers[timer];
      ReleaseEntry(s.(timers := s.timers - {timer}), t.step, BuildResult(s.barriers[t.step], t.startTime, false, now))
    else s
  }

  function Clear(s: Barrier, step: string, now: int): Barrier {
    if step in s.barriers then
      var s' := ReleaseEntry(s, step, BuildResult(s.barriers[step], now, false, now));
      s'.(barriers := s'.barriers - {step})
    else s
  }

  /** `clearAll`, visiting the entries in the given order. */
  function ClearAll(s: Barrier, order: seq<string>, now: int): Barrier
    decreases |order|
  {
    if order == [] then s else ClearAll(Clear(s, order[0], now), order[1..], now)
  }

  datatype Op =
    | Arrive(step: string, device: string, all: seq<string>, now: int)
    | TimerFires(timer: nat, now: int)
    | ClearStep(step: string, now: int)
    | ClearEvery(order: seq<string>, now: int)

  function Step(s: Barrier, op: Op): Barrier {
    match op
    case Arrive(step, device, all, now) => Wait(s, step, device, all, now).0
    case TimerFires(t, now) => Timeout(s, t, now)
    case ClearStep(step, now) => Clear(s, step, now)
    case ClearEvery(order, now) => ClearAll(s, order, now)
  }

  function Run(s: Barrier, ops: seq<Op>): Barrier
    decreases |ops|
  {
    if ops == [] then s else Run(Step(s, ops[0]), ops[1..])
  }

  // ---- the invariant of every run ----

  /** Waiters are stored exactly while the entry's timer is armed, only for devices that have
      arrived, once each, and only while some expected device is missing. */
  ghost predicate EntryValid(e: Entry, step: string, timers: map<nat, Timer>) {
    && e.stepName == step
    && (e.waiters != [] <==> e.timeoutId.Some?)
    && (e.waiters != [] ==> !AllArrived(e))
    && (e.timeoutId.Some? ==> e.timeoutId.value in timers && timers[e.timeoutId.value].step == step)
    && (forall j :: 0 <= j < |e.waiters| ==> e.waiters[j].device in e.arrived)
    && (forall i, j :: 0 <= i < j < |e.waiters| ==> e.waiters[i].device != e.waiters[j].device)
    && Distinct(e.arrived)
  }

  /** Every armed timer is the timer of an entry. */
  ghost predicate TimersOwned(s: Barrier) {
    forall t :: t in s.timers ==>
      && t < s.nextTimer
      && s.timers[t].step in s.barriers && s.barriers[s.timers[t].step].timeoutId == Some(t)
  }

  ghost predicate Holds(s: Barrier, step: string, j: int, ticket: nat) {
    step in s.barriers && 0 <= j < |s.barriers[step].waiters| && s.barriers[step].waiters[j].ticket == ticket
  }

  ghost predicate IsStored(s: Barrier, ticket: nat) {
    exists step, j :: Holds(s, step, j, ticket)
  }

  ghost predicate IsReleased(s: Barrier, ticket: nat) {
    exists i :: 0 <= i < |s.released| && s.released[i].waiter.ticket == ticket
  }

  /** Every ticket handed out is stored in one place or released once, never both. */
  ghost predicate TicketsValid(s: Barrier) {
    && (forall n: nat :: IsStored(s, n) || IsReleased(s, n) <==> n < s.nextTicket)
    && (forall n: nat :: !(IsStored(s, n) && IsReleased(s, n)))
    && (forall n: nat, step, j, step', j' :: Holds(s, step, j, n) && Holds(s, step', j', n) ==> step == step' && j == j')
    && (forall i, j :: 0 <= i < j < |s.released| ==> s.released[i].waiter.ticket != s.released[j].waiter.ticket)
  }

  /** A stored waiter told that all have arrived was told the truth. */
  ghost predicate ReleasesTruthful(s: Barrier) {
    forall i :: 0 <= i < |s.released| && s.released[i].result.allArrived ==> s.released[i].result.missingDevices == []
  }

  ghost predicate Valid(s: Barrier) {
    && (forall k :: k in s.barriers ==> EntryValid(s.barriers[k], k, s.timers))
    && TimersOwned(s) && TicketsValid(s) && ReleasesTruthful(s)
  }
}
