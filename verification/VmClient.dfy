/** The client object. Every method and handler updates the fields as the source does, and its
    effect is the step of `VmClientSpec` it names. */
module VmClient {
  import opened Basics
  import opened VmClientSpec
  import Decimal

  class FlutterVMClient {
    var ws: Option<nat>
    var sockets: seq<Ready>
    var requestId: nat
    var pending: seq<Entry>
    var timers: set<string>
    var settled: seq<Settlement>
    var wantOpen: bool
    var reconnecting: bool
    var hasOptions: bool
    var loops: seq<Loop>
    const cfg: Config

    ghost function State(): Client
      reads this
    {
      Client(ws, sockets, requestId, pending, timers, settled, wantOpen, reconnecting, hasOptions, loops)
    }

    constructor (cfg: Config)
      ensures State() == INITIAL && this.cfg == cfg
    {
      ws, sockets, requestId := None, [], 0;
      pending, timers, settled := [], {}, [];
      wantOpen, reconnecting, hasOptions, loops := false, false, false, [];
      this.cfg := cfg;
    }

    method IsOpen() returns (b: bool)
      ensures b == IsConnected(State())
    {
      b := ws.Some? && ws.value < |sockets| && sockets[ws.value] == Open;
    }

    /** `callMethod`; `breakerOpen` and `sendThrows` are what the breaker and the socket answer. */
    method CallMethod(name: string, breakerOpen: bool, sendThrows: bool) returns (id: Option<string>)
      modifies this
      ensures State() == Step(old(State()), cfg, Call(name, breakerOpen, sendThrows))
      ensures id == if IsConnected(old(State())) && !breakerOpen then Some(NextId(old(State()))) else None
    {
      var connected := IsOpen();
      if !connected || breakerOpen { return None; }
      requestId := requestId + 1;
      var newId := Decimal.Print(requestId);
      timers := timers + {newId};
      pending := pending + [Entry(newId, name)];
      if sendThrows {
        settled := Settle(settled, newId, Rejected(SendError));
      }
      return Some(newId);
    }

    /** `handleMessage`. */
    method HandleMessage(msg: Message)
      modifies this
      ensures State() == Step(old(State()), cfg, Receive(msg))
    {
      if (msg.Reply? || msg.ErrorReply?) && Has(pending, msg.id) {
        timers := timers - {msg.id};
        pending := Without(pending, msg.id);
        if msg.ErrorReply? {
          settled := Settle(settled, msg.id, Rejected(RpcError));
        } else {
          settled := Settle(settled, msg.id, Resolved(msg.result));
        }
      }
    }

    /** The timeout callback; it runs only while its timer is armed. */
    method OnTimeout(id: string)
      modifies this
      ensures State() == Step(old(State()), cfg, TimerFires(id))
    {
      if id in timers {
        timers := timers - {id};
        pending := Without(pending, id);
        settled := Settle(settled, id, Rejected(RequestTimeout));
      }
    }

    /** The loop over the pending map that `disconnect` and the close handler share. */
    method RejectAllPending()
      modifies this`pending, this`timers, this`settled
      ensures State() == RejectAll(old(State()))
    {
      while |pending| > 0
        invariant SettleAll(settled, pending, Rejected(Disconnected)) == SettleAll(old(settled), old(pending), Rejected(Disconnected))
        invariant timers - Ids(pending) == old(timers) - Ids(old(pending))
        decreases |pending|
      {
        var entry := pending[0];
        IdsStep(timers, pending);
        timers := timers - {entry.id};
        settled := Settle(settled, entry.id, Rejected(Disconnected));
        pending := pending[1..];
      }
      assert Ids(pending) == {};
    }

    static lemma IdsStep(timers: set<string>, pending: seq<Entry>)
      requires pending != []
      ensures timers - {pending[0].id} - Ids(pending[1..]) == timers - Ids(pending)
    {
      forall x ensures x in Ids(pending) <==> x == pending[0].id || x in Ids(pending[1..]) {
        if x in Ids(pending) && x != pending[0].id {
          var i :| 0 <= i < |pending| && pending[i].id == x;
          assert pending[1..][i - 1].id == x;
        }
      }
    }

    /** `attemptReconnect` up to its first wait. */
    method AttemptReconnect(random: real)
      modifies this`reconnecting, this`loops
      ensures State() == StartLoop(old(State()), cfg, random)
    {
      if reconnecting { return; }
      if !wantOpen { return; }
      if !hasOptions { return; }
      reconnecting := true;
      if 1 <= cfg.maxAttempts {
        loops := loops + [Loop(1, Sleeping, 0, [Delay(Backoff(cfg, 1), random)])];
      } else {
        reconnecting := false;
      }
    }

    method OnClose(socket: nat, random: real)
      modifies this
      ensures State() == Step(old(State()), cfg, SocketCloses(socket, random))
    {
      if socket < |sockets| {
        sockets := sockets[socket := Closed];
        RejectAllPending();
        if wantOpen && !reconnecting && hasOptions {
          AttemptReconnect(random);
        }
      }
    }

    method OnHeartbeatFailure(random: real)
      modifies this
      ensures State() == Step(old(State()), cfg, HeartbeatFails(random))
    {
      if wantOpen && !reconnecting && hasOptions {
        AttemptReconnect(random);
      }
    }

    /** The synchronous start of `connect`. */
    method ConnectBegin()
      modifies this
      ensures State() == Step(old(State()), cfg, ConnectStarts)
    {
      hasOptions := true;
      wantOpen := true;
    }

    method CreateSocket()
      modifies this
      ensures State() == Step(old(State()), cfg, SocketCreated)
    {
      ws := Some(|sockets|);
      sockets := sockets + [Opening];
    }

    /** Reconnect loop `i` comes back from its wait. */
    method WakeLoop(i: nat)
      requires i < |loops| && loops[i].phase == Sleeping
      modifies this
      ensures State() == Step(old(State()), cfg, LoopWakes(i))
    {
      if !wantOpen {
        reconnecting := false;
        loops := loops[..i] + loops[i + 1..];
        return;
      }
      var l := loops[i];
      ConnectBegin();
      loops := loops[i := l.(phase := Connecting, connects := l.connects + 1)];
    }

    /** The connect made by loop `i` succeeds or throws. */
    method LoopConnectReturns(i: nat, ok: bool, random: real)
      requires i < |loops| && loops[i].phase == Connecting
      modifies this
      ensures State() == Step(old(State()), cfg, if ok then LoopConnected(i) else LoopConnectFails(i, random))
    {
      var l := loops[i];
      if !ok {
        var attempt := l.attempt + 1;
        if attempt <= cfg.maxAttempts {
          loops := loops[i := Loop(attempt, Sleeping, l.connects, l.delays + [Delay(Backoff(cfg, attempt), random)])];
          return;
        }
      }
      reconnecting := false;
      loops := loops[..i] + loops[i + 1..];
    }

    method DisconnectNow()
      modifies this
      ensures State() == Step(old(State()), cfg, Disconnect)
    {
      wantOpen := false;
      reconnecting := false;
      if ws.Some? {
        RejectAllPending();
        sockets := CloseSocket(sockets, ws.value);
        ws := None;
      }
    }
  }
}
