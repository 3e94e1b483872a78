/** The Dart VM Service client as an interleaved step system: calls, replies, timeouts,
    socket events, disconnects and the steps of reconnect loops. */
module VmClientSpec {
  import opened Basics
  import Decimal

  datatype ErrorCode = Disconnected | RequestTimeout | RpcError | SendError

  /** How a request's promise is settled. */
  datatype Outcome = Resolved(result: string) | Rejected(code: ErrorCode)

  datatype Settlement = Settlement(id: string, outcome: Outcome)

  datatype Entry = Entry(id: string, name: string)

  datatype Ready = Opening | Open | Closed

  datatype Phase = Sleeping | Connecting

  /** One activation of `attemptReconnect`. `delays` lists its waits so far. */
  datatype Loop = Loop(attempt: nat, phase: Phase, connects: nat, delays: seq<int>)

  datatype Config = Config(maxAttempts: int, baseMs: real, capMs: real)

  /** `timers` holds the ids whose timeout is armed; `settled` is the log of settlements. */
  datatype Client = Client(
    ws: Option<nat>, sockets: seq<Ready>,
    requestId: nat, pending: seq<Entry>, timers: set<string>, settled: seq<Settlement>,
    wantOpen: bool, reconnecting: bool, hasOptions: bool, loops: seq<Loop>)

  const INITIAL := Client(None, [], 0, [], {}, [], false, false, false, [])

  datatype Message =
    | Malformed
    | Reply(id: string, result: string)
    | ErrorReply(id: string)
    | Notification

  datatype Op =
    | Call(name: string, breakerOpen: bool, sendThrows: bool)
    | Receive(msg: Message)
    | TimerFires(id: string)
    | ConnectStarts
    | SocketCreated
    | SocketOpens(socket: nat)
    | SocketCloses(socket: nat, random: real)
    | HeartbeatFails(random: real)
    | LoopWakes(loop: nat)
    | LoopConnected(loop: nat)
    | LoopConnectFails(loop: nat, random: real)
    | Disconnect

  // ---- requests ----

  predicate IsConnected(s: Client) {
    s.ws.Some? && s.ws.value < |s.sockets| && s.sockets[s.ws.value] == Open
  }

  predicate Has(pending: seq<Entry>, id: string) {
    exists i :: 0 <= i < |pending| && pending[i].id == id
  }

  function Without(pending: seq<Entry>, id: string): seq<Entry> {
    if pending == [] then []
    else if pending[0].id == id then Without(pending[1..], id)
    else [pending[0]] + Without(pending[1..], id)
  }

  predicate IsSettled(log: seq<Settlement>, id: string) {
    exists i :: 0 <= i < |log| && log[i].id == id
  }

  /** A promise keeps its first settlement. */
  function Settle(log: seq<Settlement>, id: string, o: Outcome): seq<Settlement> {
    if IsSettled(log, id) then log else log + [Settlement(id, o)]
  }

  function SettleAll(log: seq<Settlement>, pending: seq<Entry>, o: Outcome): seq<Settlement>
    decreases |pending|
  {
    if pending == [] then log else SettleAll(Settle(log, pending[0].id, o), pending[1..], o)
  }

  function Ids(pending: seq<Entry>): set<string> {
    set i | 0 <= i < |pending| :: pending[i].id
  }

  function Finish(s: Client, id: string, o: Outcome): Client {
    s.(pending := Without(s.pending, id), timers := s.timers - {id}, settled := Settle(s.settled, id, o))
  }

  function RejectAll(s: Client): Client {
    s.(pending := [], timers := s.timers - Ids(s.pending), settled := SettleAll(s.settled, s.pending, Rejected(Disconnected)))
  }

  function NextId(s: Client): string { Decimal.Print(s.requestId + 1) }

  function Issue(s: Client, name: string, sendThrows: bool): Client {
    var id := NextId(s);
    s.(requestId := s.requestId + 1,
       pending := s.pending + [Entry(id, name)],
       timers := s.timers + {id},
       settled := if sendThrows then Settle(s.settled, id, Rejected(SendError)) else s.settled)
  }

  // ---- reconnecting ----

  function Pow2(n: nat): nat { if n == 0 then 1 else 2 * Pow2(n - 1) }

  function Backoff(cfg: Config, attempt: nat): real
    requires attempt >= 1
  {
    var b := cfg.baseMs * Pow2(attempt - 1) as real;
    if b < cfg.capMs then b else cfg.capMs
  }

  function Jittered(backoff: real, random: real): real {
    backoff + backoff * 0.2 * (2.0 * random - 1.0)
  }

  function Delay(backoff: real, random: real): int {
    var d := Round(Jittered(backoff, random));
    if d < 0 then 0 else d
  }

  /** `attemptReconnect` up to its first wait. */
  function StartLoop(s: Client, cfg: Config, random: real): Client {
    if s.reconnecting || !s.wantOpen || !s.hasOptions || cfg.maxAttempts < 1 then s
    else s.(reconnecting := true, loops := s.loops + [Loop(1, Sleeping, 0, [Delay(Backoff(cfg, 1), random)])])
  }

  function EndLoop(s: Client, i: nat): Client
    requires i < |s.loops|
  {
    s.(reconnecting := false, loops := s.loops[..i] + s.loops[i + 1..])
  }

  /** `ws.close()` leaves the open state; the `close` event follows as a step of its own. */
  function CloseSocket(sockets: seq<Ready>, w: nat): seq<Ready> {
    if w < |sockets| then sockets[w := Closed] else sockets
  }

  function Step(s: Client, cfg: Config, op: Op): Client {
    match op
    case Call(name, breakerOpen, sendThrows) =>
      if !IsConnected(s) || breakerOpen then s else Issue(s, name, sendThrows)
    case Receive(Reply(id, v)) => if Has(s.pending, id) then Finish(s, id, Resolved(v)) else s
    case Receive(ErrorReply(id)) => if Has(s.pending, id) then Finish(s, id, Rejected(RpcError)) else s
    case Receive(_) => s
    case TimerFires(id) => if id in s.timers then Finish(s, id, Rejected(RequestTimeout)) else s
    case ConnectStarts => s.(hasOptions := true, wantOpen := true)
    case SocketCreated => s.(sockets := s.sockets + [Opening], ws := Some(|s.sockets|))
    case SocketOpens(w) => if w < |s.sockets| && s.sockets[w] == Opening then s.(sockets := s.sockets[w := Open]) else s
    case SocketCloses(w, random) =>
      if w < |s.sockets| then StartLoop(RejectAll(s.(sockets := s.sockets[w := Closed])), cfg, random) else s
    case HeartbeatFails(random) => StartLoop(s, cfg, random)
    case LoopWakes(i) =>
      if i < |s.loops| && s.loops[i].phase == Sleeping then
        if !s.wantOpen then EndLoop(s, i)
        else
          var l := s.loops[i];
          s.(hasOptions := true, loops := s.loops[i := l.(phase := Connecting, connects := l.connects + 1)])
      else s
    case LoopConnected(i) =>
      if i < |s.loops| && s.loops[i].phase == Connecting then EndLoop(s, i) else s
    case LoopConnectFails(i, random) =>
      if i < |s.loops| && s.loops[i].phase == Connecting then
        var l := s.loops[i];
        if l.attempt + 1 <= cfg.maxAttempts then
          s.(loops := s.loops[i := Loop(l.attempt + 1, Sleeping, l.connects, l.delays + [Delay(Backoff(cfg, l.attempt + 1), random)])])
        else EndLoop(s, i)
      else s
    case Disconnect =>
      var s' := s.(wantOpen := false, reconnecting := false);
      if s.ws.Some? then RejectAll(s').(ws := None, sockets := CloseSocket(s.sockets, s.ws.value)) else s'
  }

  function Run(s: Client, cfg: Config, ops: seq<Op>): Client
    decreases |ops|
  {
    if ops == [] then s else Run(Step(s, cfg, ops[0]), cfg, ops[1..])
  }
}
