/** What the state of the VM client says about the run that led to it: whether a connection is wanted,
    whether there is one, and so when calls go out. */
module VmClientRuns {
  import opened Basics
  import opened VmClientSpec
  import opened VmClientRequests

  // ---- what is wanted ----

  lemma RunSnoc(s: Client, cfg: Config, ops: seq<Op>)
    requires ops != []
    ensures Run(s, cfg, ops) == Step(Run(s, cfg, ops[..|ops| - 1]), cfg, ops[|ops| - 1])
  {
    var n := |ops| - 1;
    RunSplit(s, cfg, ops, n);
  }

  ghost predicate Wanted(ops: seq<Op>) {
    exists i :: 0 <= i < |ops| && ops[i].ConnectStarts? && forall j :: i < j < |ops| ==> !ops[j].Disconnect?
  }

  ghost predicate EverConnected(ops: seq<Op>) {
    exists i :: 0 <= i < |ops| && ops[i].ConnectStarts?
  }

  lemma WantedSnoc(ops: seq<Op>)
    requires ops != []
    ensures var front, last := ops[..|ops| - 1], ops[|ops| - 1];
      && (Wanted(ops) <==> last.ConnectStarts? || (Wanted(front) && !last.Disconnect?))
      && (EverConnected(ops) <==> last.ConnectStarts? || EverConnected(front))
  {
    var n := |ops| - 1;
    var front, last := ops[..n], ops[n];
    if Wanted(front) && !last.Disconnect? {
      var i :| 0 <= i < |front| && front[i].ConnectStarts? && forall j :: i < j < |front| ==> !front[j].Disconnect?;
      assert ops[i].ConnectStarts? && forall j :: i < j < |ops| ==> j == n || ops[j] == front[j];
    }
    if i :| 0 <= i < |front| && front[i].ConnectStarts? {
      assert ops[i].ConnectStarts?;
    }
    if Wanted(ops) && !last.ConnectStarts? {
      var i :| 0 <= i < |ops| && ops[i].ConnectStarts? && forall j :: i < j < |ops| ==> !ops[j].Disconnect?;
      assert front[i].ConnectStarts? && forall j :: i < j < |front| ==> front[j] == ops[j];
    }
    if i :| 0 <= i < n && ops[i].ConnectStarts? {
      assert front[i].ConnectStarts?;
    }
  }

  lemma WantedStep(s: Client, cfg: Config, op: Op)
    requires s.loops != [] ==> s.hasOptions
    ensures var s' := Step(s, cfg, op);
      && (s'.wantOpen <==> op.ConnectStarts? || (s.wantOpen && !op.Disconnect?))
      && (s'.hasOptions <==> op.ConnectStarts? || s.hasOptions)
      && (s'.loops != [] ==> s'.hasOptions)
  {}

  /** In every run, a connection is wanted exactly if `connect` has been called and `disconnect` has not been called
      since, and the options are known exactly if `connect` has ever been called. */
  lemma {:induction false} WantedExactly(cfg: Config, ops: seq<Op>)
    ensures var s := Run(INITIAL, cfg, ops);
      && (s.wantOpen <==> Wanted(ops)) && (s.hasOptions <==> EverConnected(ops))
      && (s.loops != [] ==> s.hasOptions)
    decreases |ops|
  {
    if ops != [] {
      var n := |ops| - 1;
      WantedExactly(cfg, ops[..n]);
      WantedStep(Run(INITIAL, cfg, ops[..n]), cfg, ops[n]);
      RunSnoc(INITIAL, cfg, ops);
      WantedSnoc(ops);
    }
  }

  // ---- when calls go out ----

  /** `ops[i]` created the socket that is the current one at the end. */
  predicate IsCurrent(ops: seq<Op>, i: int) {
    0 <= i < |ops| && ops[i].SocketCreated? && forall k :: i < k < |ops| ==> !ops[k].SocketCreated? && !ops[k].Disconnect?
  }

  function SocketOf(cfg: Config, ops: seq<Op>, i: int): nat
    requires 0 <= i <= |ops|
  {
    |Run(INITIAL, cfg, ops[..i]).sockets|
  }

  predicate OpenedSince(ops: seq<Op>, i: int, w: nat) {
    exists k :: 0 <= i < k < |ops| && ops[k] == SocketOpens(w)
  }

  predicate ClosedSince(ops: seq<Op>, i: int, w: nat) {
    exists k :: 0 <= i < k < |ops| && ops[k].SocketCloses? && ops[k].socket == w
  }

  function ReadyOf(ops: seq<Op>, i: int, w: nat): Ready {
    if ClosedSince(ops, i, w) then Closed else if OpenedSince(ops, i, w) then Open else Opening
  }

  ghost predicate SocketIs(s: Client, cfg: Config, ops: seq<Op>, i: int) {
    && IsCurrent(ops, i) && s.ws == Some(SocketOf(cfg, ops, i))
    && s.ws.value < |s.sockets| && s.sockets[s.ws.value] == ReadyOf(ops, i, s.ws.value)
  }

  ghost predicate SocketTold(s: Client, cfg: Config, ops: seq<Op>) {
    if s.ws.None? then forall i :: !IsCurrent(ops, i) else exists i :: SocketIs(s, cfg, ops, i)
  }

  lemma SinceSnoc(ops: seq<Op>, i: int, w: nat)
    requires ops != [] && 0 <= i < |ops| - 1
    ensures var front, last := ops[..|ops| - 1], ops[|ops| - 1];
      && (OpenedSince(ops, i, w) <==> OpenedSince(front, i, w) || last == SocketOpens(w))
      && (ClosedSince(ops, i, w) <==> ClosedSince(front, i, w) || (last.SocketCloses? && last.socket == w))
      && (IsCurrent(ops, i) <==> IsCurrent(front, i) && !last.SocketCreated? && !last.Disconnect?)
  {
    var n := |ops| - 1;
    var front := ops[..n];
    assert forall k :: 0 <= k < n ==> ops[k] == front[k];
    if k :| i < k < |front| && front[k] == SocketOpens(w) { assert ops[k] == SocketOpens(w); }
    if k :| i < k < |front| && front[k].SocketCloses? && front[k].socket == w { assert ops[k].SocketCloses?; }
  }

  lemma OtherOpsKeepSockets(s: Client, cfg: Config, op: Op)
    requires !op.SocketCreated? && !op.Disconnect?
    ensures var s' := Step(s, cfg, op);
      && s'.ws == s.ws && |s'.sockets| == |s.sockets|
      && forall w :: 0 <= w < |s.sockets| ==>
        s'.sockets[w] == if op.SocketCloses? && op.socket == w then Closed
                         else if op == SocketOpens(w) && s.sockets[w] == Opening then Open else s.sockets[w]
  {}

  lemma CreatedTold(s: Client, cfg: Config, ops: seq<Op>)
    requires ops != [] && ops[|ops| - 1].SocketCreated? && s == Run(INITIAL, cfg, ops[..|ops| - 1])
    ensures SocketIs(Step(s, cfg, SocketCreated), cfg, ops, |ops| - 1)
  {}

  lemma NoneTold(s: Client, cfg: Config, ops: seq<Op>)
    requires ops != [] && !ops[|ops| - 1].SocketCreated?
    requires ops[|ops| - 1].Disconnect? || (s.ws.None? && SocketTold(s, cfg, ops[..|ops| - 1]))
    ensures Step(s, cfg, ops[|ops| - 1]).ws.None? && forall i :: !IsCurrent(ops, i)
  {
    var n := |ops| - 1;
    if !ops[n].Disconnect? { OtherOpsKeepSockets(s, cfg, ops[n]); }
    forall i ensures !IsCurrent(ops, i) {
      if 0 <= i < n { SinceSnoc(ops, i, 0); }
    }
  }

  lemma KeptTold(s: Client, cfg: Config, ops: seq<Op>, i: int)
    requires ops != [] && !ops[|ops| - 1].SocketCreated? && !ops[|ops| - 1].Disconnect?
    requires SocketIs(s, cfg, ops[..|ops| - 1], i)
    ensures SocketIs(Step(s, cfg, ops[|ops| - 1]), cfg, ops, i)
  {
    SinceSnoc(ops, i, s.ws.value);
    assert ops[..|ops| - 1][..i] == ops[..i];
    OtherOpsKeepSockets(s, cfg, ops[|ops| - 1]);
  }

  lemma {:induction false} SocketFollows(cfg: Config, ops: seq<Op>)
    ensures SocketTold(Run(INITIAL, cfg, ops), cfg, ops)
    decreases |ops|
  {
    if ops != [] {
      var n := |ops| - 1;
      var s := Run(INITIAL, cfg, ops[..n]);
      SocketFollows(cfg, ops[..n]);
      RunSnoc(INITIAL, cfg, ops);
      if ops[n].SocketCreated? {
        CreatedTold(s, cfg, ops);
      } else if ops[n].Disconnect? || s.ws.None? {
        NoneTold(s, cfg, ops);
      } else {
        var i :| SocketIs(s, cfg, ops[..n], i);
        KeptTold(s, cfg, ops, i);
      }
    }
  }

  lemma CurrentUnique(ops: seq<Op>, i: int, j: int)
    requires IsCurrent(ops, i) && IsCurrent(ops, j)
    ensures i == j
  {}

  /** In every run, the client is connected exactly if the socket created last, after any disconnect, has opened
      and has not closed. */
  lemma ConnectedExactly(cfg: Config, ops: seq<Op>)
    ensures IsConnected(Run(INITIAL, cfg, ops)) <==>
      exists i :: IsCurrent(ops, i) && OpenedSince(ops, i, SocketOf(cfg, ops, i)) && !ClosedSince(ops, i, SocketOf(cfg, ops, i))
  {
    var s := Run(INITIAL, cfg, ops);
    SocketFollows(cfg, ops);
    if s.ws.Some? {
      var i :| SocketIs(s, cfg, ops, i);
      forall j | IsCurrent(ops, j) ensures j == i {
        CurrentUnique(ops, i, j);
      }
    }
  }

  /** A call goes out exactly when the client is connected and the breaker is closed: then a new request is pending,
      timed and counted. Otherwise nothing changes. */
  lemma CallGoesOutExactly(s: Client, cfg: Config, name: string, breakerOpen: bool, sendThrows: bool)
    ensures var s' := Step(s, cfg, Call(name, breakerOpen, sendThrows));
      if IsConnected(s) && !breakerOpen then
        && s'.requestId == s.requestId + 1 && NextId(s) in s'.timers
        && s'.pending == s.pending + [Entry(NextId(s), name)]
      else s' == s
  {}

  /** A disconnect closes the current socket and forgets it. */
  lemma DisconnectCloses(s: Client, cfg: Config)
    requires s.ws.Some? && s.ws.value < |s.sockets|
    ensures var s' := Step(s, cfg, Disconnect);
      s'.ws.None? && s'.sockets == s.sockets[s.ws.value := Closed] && !IsConnected(s')
  {}
}
