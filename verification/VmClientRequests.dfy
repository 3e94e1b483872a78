/** Request/response multiplexing: what holds of the pending table in every run. */
module VmClientRequests {
  import opened Basics
  import opened VmClientSpec
  import Decimal

  ghost predicate Issued(s: Client, id: string) {
    exists n :: 0 < n <= s.requestId && id == Decimal.Print(n)
  }

  ghost predicate DistinctPending(pending: seq<Entry>) {
    forall i, j :: 0 <= i < j < |pending| ==> pending[i].id != pending[j].id
  }

  ghost predicate DistinctSettled(log: seq<Settlement>) {
    forall i, j :: 0 <= i < j < |log| ==> log[i].id != log[j].id
  }

  /** The table's invariant: pending requests are exactly those with an armed timer, every request
      issued so far is pending or settled, none is settled twice, and without a socket nothing is pending. */
  ghost predicate Valid(s: Client) {
    && DistinctPending(s.pending) && DistinctSettled(s.settled)
    && s.timers == Ids(s.pending)
    && (forall id :: Has(s.pending, id) || IsSettled(s.settled, id) <==> Issued(s, id))
    && (s.ws.None? ==> s.pending == [])
  }

  /** No request is both pending and settled. */
  ghost predicate Exclusive(s: Client) {
    forall id :: !(Has(s.pending, id) && IsSettled(s.settled, id))
  }

  lemma HasCons(e: Entry, t: seq<Entry>)
    ensures forall x :: Has([e] + t, x) <==> x == e.id || Has(t, x)
    ensures Ids([e] + t) == {e.id} + Ids(t)
  {
    var s := [e] + t;
    assert s[0] == e && forall i :: 0 <= i < |t| ==> s[i + 1] == t[i];
  }

  lemma {:induction false} WithoutRemoves(pending: seq<Entry>, id: string)
    requires DistinctPending(pending)
    ensures var r := Without(pending, id);
      && DistinctPending(r)
      && (forall x :: Has(r, x) <==> Has(pending, x) && x != id)
      && Ids(r) == Ids(pending) - {id}
  {
    if pending != [] {
      var p, t := pending[0], pending[1..];
      WithoutRemoves(t, id);
      var r := Without(pending, id);
      assert pending == [p] + t;
      HasCons(p, t);
      HasCons(p, Without(t, id));
      assert !Has(t, p.id);
    }
  }

  lemma HasAppend(t: seq<Entry>, e: Entry)
    ensures forall x :: Has(t + [e], x) <==> Has(t, x) || x == e.id
    ensures Ids(t + [e]) == Ids(t) + {e.id}
  {
    var s := t + [e];
    assert s[|t|] == e && forall i :: 0 <= i < |t| ==> s[i] == t[i];
  }

  lemma SettleAdds(log: seq<Settlement>, id: string, o: Outcome)
    requires DistinctSettled(log)
    ensures var r := Settle(log, id, o);
      && DistinctSettled(r) && log <= r
      && (forall x :: IsSettled(r, x) <==> IsSettled(log, x) || x == id)
  {
    var r := log + [Settlement(id, o)];
    assert r[|log|].id == id && forall i :: 0 <= i < |log| ==> r[i] == log[i];
  }

  lemma {:induction false} SettleAllAdds(log: seq<Settlement>, pending: seq<Entry>, o: Outcome)
    requires DistinctSettled(log)
    ensures var r := SettleAll(log, pending, o);
      && DistinctSettled(r) && log <= r
      && (forall x :: IsSettled(r, x) <==> IsSettled(log, x) || Has(pending, x))
    decreases |pending|
  {
    if pending != [] {
      var log' := Settle(log, pending[0].id, o);
      SettleAdds(log, pending[0].id, o);
      SettleAllAdds(log', pending[1..], o);
      HasCons(pending[0], pending[1..]);
      assert pending == [pending[0]] + pending[1..];
    }
  }

  lemma NextIdFresh(s: Client)
    ensures !Issued(s, NextId(s))
  {
    if n :| 0 < n <= s.requestId && NextId(s) == Decimal.Print(n) {
      Decimal.PrintInjective(n, s.requestId + 1);
    }
  }

  lemma IssueKeepsValid(s: Client, name: string, sendThrows: bool)
    requires Valid(s) && s.ws.Some?
    ensures Valid(Issue(s, name, sendThrows))
    ensures Exclusive(s) && !sendThrows ==> Exclusive(Issue(s, name, sendThrows))
  {
    var id, s' := NextId(s), Issue(s, name, sendThrows);
    NextIdFresh(s);
    HasAppend(s.pending, Entry(id, name));
    SettleAdds(s.settled, id, Rejected(SendError));
    assert !Has(s.pending, id) && !IsSettled(s.settled, id);
    forall x ensures Issued(s', x) <==> Issued(s, x) || x == id {
      if Issued(s, x) {
        var n :| 0 < n <= s.requestId && x == Decimal.Print(n);
        assert 0 < n <= s'.requestId;
      }
      if x == id { assert 0 < s.requestId + 1 <= s'.requestId; }
    }
  }

  lemma FinishKeepsValid(s: Client, id: string, o: Outcome)
    requires Valid(s) && Has(s.pending, id)
    ensures Valid(Finish(s, id, o)) && !Has(Finish(s, id, o).pending, id)
    ensures Exclusive(s) ==> Exclusive(Finish(s, id, o))
  {
    var s' := Finish(s, id, o);
    WithoutRemoves(s.pending, id);
    SettleAdds(s.settled, id, o);
    assert s'.pending == [] || s.ws.Some?;
    forall x ensures Issued(s', x) <==> Issued(s, x) {
      assert s'.requestId == s.requestId;
    }
  }

  lemma RejectAllKeepsValid(s: Client)
    requires Valid(s)
    ensures Valid(RejectAll(s)) && Exclusive(RejectAll(s))
  {
    var s' := RejectAll(s);
    SettleAllAdds(s.settled, s.pending, Rejected(Disconnected));
    assert Ids(s'.pending) == {};
    forall x ensures Issued(s', x) <==> Issued(s, x) {
      assert s'.requestId == s.requestId;
    }
  }

  /** Changing only sockets and reconnect bookkeeping keeps the table. */
  lemma SameTable(s: Client, s': Client)
    requires Valid(s)
    requires s'.requestId == s.requestId && s'.pending == s.pending && s'.timers == s.timers && s'.settled == s.settled
    requires s'.ws.None? ==> s.ws.None? || s.pending == []
    ensures Valid(s') && (Exclusive(s) ==> Exclusive(s'))
  {
    forall x ensures Issued(s', x) <==> Issued(s, x) {}
  }

  predicate SendThrows(op: Op) {
    op.Call? && op.sendThrows
  }

  lemma CloseKeepsValid(s: Client, cfg: Config, w: nat, random: real)
    requires Valid(s)
    ensures Valid(Step(s, cfg, SocketCloses(w, random)))
    ensures Exclusive(s) ==> Exclusive(Step(s, cfg, SocketCloses(w, random)))
  {
    if w < |s.sockets| {
      var s1 := s.(sockets := s.sockets[w := Closed]);
      SameTable(s, s1);
      RejectAllKeepsValid(s1);
      SameTable(RejectAll(s1), Step(s, cfg, SocketCloses(w, random)));
    }
  }

  lemma DisconnectKeepsValid(s: Client, cfg: Config)
    requires Valid(s)
    ensures Valid(Step(s, cfg, Op.Disconnect))
    ensures Exclusive(s) ==> Exclusive(Step(s, cfg, Op.Disconnect))
  {
    var s1 := s.(wantOpen := false, reconnecting := false);
    SameTable(s, s1);
    if s.ws.Some? {
      RejectAllKeepsValid(s1);
      SameTable(RejectAll(s1), Step(s, cfg, Op.Disconnect));
    }
  }

  lemma StepKeepsValid(s: Client, cfg: Config, op: Op)
    requires Valid(s)
    ensures Valid(Step(s, cfg, op))
    ensures Exclusive(s) && !SendThrows(op) ==> Exclusive(Step(s, cfg, op))
  {
    match op {
      case Call(name, breakerOpen, sendThrows) =>
        if IsConnected(s) && !breakerOpen { IssueKeepsValid(s, name, sendThrows); }
      case Receive(msg) =>
        if (msg.Reply? || msg.ErrorReply?) && Has(s.pending, msg.id) {
          FinishKeepsValid(s, msg.id, if msg.Reply? then Resolved(msg.result) else Rejected(RpcError));
        }
      case TimerFires(id) =>
        if id in s.timers { FinishKeepsValid(s, id, Rejected(RequestTimeout)); }
      case SocketCloses(w, random) =>
        CloseKeepsValid(s, cfg, w, random);
      case Disconnect =>
        DisconnectKeepsValid(s, cfg);
      case _ =>
        SameTable(s, Step(s, cfg, op));
    }
  }

  /** Main result, over every interleaving from the start: the table invariant holds; and unless a
      send throws, a request is pending or settled but never both. */
  lemma {:induction false} RunKeepsValid(s: Client, cfg: Config, ops: seq<Op>)
    requires Valid(s)
    ensures Valid(Run(s, cfg, ops))
    ensures Exclusive(s) && (forall i :: 0 <= i < |ops| ==> !SendThrows(ops[i])) ==> Exclusive(Run(s, cfg, ops))
    decreases |ops|
  {
    if ops != [] {
      StepKeepsValid(s, cfg, ops[0]);
      RunKeepsValid(Step(s, cfg, ops[0]), cfg, ops[1..]);
    }
  }

  lemma InitialValid()
    ensures Valid(INITIAL) && Exclusive(INITIAL)
  {
    assert Ids(INITIAL.pending) == {};
  }

  /** An exclusive table stays exclusive over a call except exactly when the request is really
      sent and `send` throws: the promise is then rejected but its entry stays. */
  lemma ThrowingSendLeavesEntry(s: Client, cfg: Config, name: string, breakerOpen: bool, sendThrows: bool)
    requires Valid(s) && Exclusive(s)
    ensures Exclusive(Step(s, cfg, Call(name, breakerOpen, sendThrows)))
      <==> !(IsConnected(s) && !breakerOpen && sendThrows)
  {
    if IsConnected(s) && !breakerOpen {
      IssueKeepsValid(s, name, sendThrows);
      HasAppend(s.pending, Entry(NextId(s), name));
      SettleAdds(s.settled, NextId(s), Rejected(SendError));
    }
  }

  /** After a socket's close event and after `disconnect`, no request is left pending and no
      request timer is armed, whatever happened before. */
  lemma NothingPendingAfterClose(cfg: Config, ops: seq<Op>, socket: nat, random: real)
    ensures var s := Run(INITIAL, cfg, ops);
      && (socket < |s.sockets| ==> var t := Step(s, cfg, SocketCloses(socket, random)); t.pending == [] && t.timers == {})
      && (var t := Step(s, cfg, Op.Disconnect); t.pending == [] && t.timers == {})
  {
    var s := Run(INITIAL, cfg, ops);
    InitialValid();
    RunKeepsValid(INITIAL, cfg, ops);
    assert s.pending == [] ==> Ids(s.pending) == {};
  }

  /** No request can hang: while it is unsettled its own timer is armed, and that timer settles it. */
  lemma UnsettledHasTimer(cfg: Config, ops: seq<Op>, id: string)
    ensures var s := Run(INITIAL, cfg, ops);
      Issued(s, id) && !IsSettled(s.settled, id) ==>
        && id in s.timers
        && IsSettled(Step(s, cfg, TimerFires(id)).settled, id)
        && id !in Step(s, cfg, TimerFires(id)).timers
  {
    var s := Run(INITIAL, cfg, ops);
    InitialValid();
    RunKeepsValid(INITIAL, cfg, ops);
    if Issued(s, id) && !IsSettled(s.settled, id) {
      assert Has(s.pending, id);
      SettleAdds(s.settled, id, Rejected(RequestTimeout));
    }
  }

  lemma {:induction false} SettleAllGrows(log: seq<Settlement>, pending: seq<Entry>, o: Outcome)
    ensures log <= SettleAll(log, pending, o)
    decreases |pending|
  {
    if pending != [] {
      SettleAllGrows(Settle(log, pending[0].id, o), pending[1..], o);
    }
  }

  lemma StepLogGrows(s: Client, cfg: Config, op: Op)
    ensures s.settled <= Step(s, cfg, op).settled
  {
    SettleAllGrows(s.settled, s.pending, Rejected(Disconnected));
  }

  /** Settlements are never changed or withdrawn. */
  lemma {:induction false} LogOnlyGrows(s: Client, cfg: Config, ops: seq<Op>)
    ensures s.settled <= Run(s, cfg, ops).settled
    decreases |ops|
  {
    if ops != [] {
      StepLogGrows(s, cfg, ops[0]);
      LogOnlyGrows(Step(s, cfg, ops[0]), cfg, ops[1..]);
    }
  }

  /** What alone can bring about a settlement: its own reply, error reply or timer, a close event or
      a disconnect while the request is pending, or a send of the request that throws. */
  ghost predicate Causes(s: Client, op: Op, x: Settlement) {
    match x.outcome
    case Resolved(v) => op == Receive(Reply(x.id, v)) && Has(s.pending, x.id)
    case Rejected(RpcError) => op == Receive(ErrorReply(x.id)) && Has(s.pending, x.id)
    case Rejected(RequestTimeout) => op == TimerFires(x.id) && x.id in s.timers
    case Rejected(Disconnected) =>
      ((op.SocketCloses? && op.socket < |s.sockets|) || (op.Disconnect? && s.ws.Some?)) && Has(s.pending, x.id)
    case Rejected(SendError) =>
      op.Call? && op.sendThrows && IsConnected(s) && !op.breakerOpen && x.id == NextId(s)
  }

  lemma {:induction false} RejectAllSettles(log: seq<Settlement>, pending: seq<Entry>, o: Outcome, x: Settlement)
    requires x in SettleAll(log, pending, o) && x !in log
    ensures x.outcome == o && Has(pending, x.id)
    decreases |pending|
  {
    var log' := Settle(log, pending[0].id, o);
    HasCons(pending[0], pending[1..]);
    assert pending == [pending[0]] + pending[1..];
    if x !in log' {
      RejectAllSettles(log', pending[1..], o, x);
    }
  }

  /** One step settles a request only as its cause. */
  lemma StepSettles(s: Client, cfg: Config, op: Op, x: Settlement)
    requires x in Step(s, cfg, op).settled && x !in s.settled
    ensures Causes(s, op, x)
  {
    if op.SocketCloses? || op.Disconnect? {
      if x in SettleAll(s.settled, s.pending, Rejected(Disconnected)) {
        RejectAllSettles(s.settled, s.pending, Rejected(Disconnected), x);
      }
    }
  }

  lemma CausedWhenIssued(s: Client, op: Op, x: Settlement)
    requires Valid(s) && Causes(s, op, x)
    ensures x.outcome != Rejected(SendError) ==> Issued(s, x.id)
    ensures x.outcome == Rejected(SendError) ==> !Issued(s, x.id)
  {
    NextIdFresh(s);
    assert x.id in s.timers ==> Has(s.pending, x.id);
  }

  /** Over a whole run: every settlement was brought about by its own cause, after the request had been
      issued, or, for a send that throws, in the very call that issues it. In particular a request
      is resolved only by a reply that carries its id. */
  lemma {:induction false} SettledOnlyByCause(s: Client, cfg: Config, ops: seq<Op>, x: Settlement)
    requires Valid(s)
    requires x in Run(s, cfg, ops).settled && x !in s.settled
    ensures exists i :: 0 <= i < |ops| && Causes(Run(s, cfg, ops[..i]), ops[i], x)
                    && (x.outcome != Rejected(SendError) <==> Issued(Run(s, cfg, ops[..i]), x.id))
    decreases |ops|
  {
    var s' := Step(s, cfg, ops[0]);
    StepKeepsValid(s, cfg, ops[0]);
    if x in s'.settled {
      StepSettles(s, cfg, ops[0], x);
      CausedWhenIssued(s, ops[0], x);
      assert Run(s, cfg, ops[..0]) == s;
    } else {
      SettledOnlyByCause(s', cfg, ops[1..], x);
      var i :| 0 <= i < |ops[1..]| && Causes(Run(s', cfg, ops[1..][..i]), ops[1..][i], x)
        && (x.outcome != Rejected(SendError) <==> Issued(Run(s', cfg, ops[1..][..i]), x.id));
      assert ops[..i + 1][1..] == ops[1..][..i];
      assert Causes(Run(s, cfg, ops[..i + 1]), ops[i + 1], x);
    }
  }

  // ---- every cause takes effect ----

  lemma {:induction false} SettleAllSettles(log: seq<Settlement>, pending: seq<Entry>, o: Outcome, id: string)
    requires Has(pending, id) && !IsSettled(log, id)
    ensures Settlement(id, o) in SettleAll(log, pending, o)
    decreases |pending|
  {
    var first := pending[0].id;
    var log' := Settle(log, first, o);
    if first == id {
      SettleAllGrows(log', pending[1..], o);
      assert log'[|log'| - 1] == Settlement(id, o);
    } else {
      HasCons(pending[0], pending[1..]);
      assert pending == [pending[0]] + pending[1..];
      assert !IsSettled(log', id);
      SettleAllSettles(log', pending[1..], o, id);
    }
  }

  lemma FinishSettles(s: Client, id: string, o: Outcome)
    requires Valid(s) && Has(s.pending, id) && !IsSettled(s.settled, id)
    ensures var s' := Finish(s, id, o);
      Settlement(id, o) in s'.settled && !Has(s'.pending, id) && id !in s'.timers
  {
    WithoutRemoves(s.pending, id);
    assert Finish(s, id, o).settled == s.settled + [Settlement(id, o)];
  }

  lemma RejectAllSettlesEach(s: Client, id: string)
    requires Valid(s) && Has(s.pending, id) && !IsSettled(s.settled, id)
    ensures var s' := RejectAll(s);
      Settlement(id, Rejected(Disconnected)) in s'.settled && !Has(s'.pending, id) && id !in s'.timers
  {
    SettleAllSettles(s.settled, s.pending, Rejected(Disconnected), id);
    assert id in Ids(s.pending);
  }

  /** The converse of `StepSettles`: a cause settles its request as long as that is unsettled; and unless it is a
      throwing send, the request is then neither pending nor timed any more. */
  lemma CauseSettles(s: Client, cfg: Config, op: Op, x: Settlement)
    requires Valid(s) && Causes(s, op, x) && !IsSettled(s.settled, x.id)
    ensures var s' := Step(s, cfg, op);
      && x in s'.settled
      && (x.outcome != Rejected(SendError) ==> !Has(s'.pending, x.id) && x.id !in s'.timers)
  {
    match x.outcome {
      case Rejected(SendError) =>
        assert Step(s, cfg, op).settled == s.settled + [x];
      case Rejected(Disconnected) =>
        if op.SocketCloses? {
          var s1 := s.(sockets := s.sockets[op.socket := Closed]);
          SameTable(s, s1);
          RejectAllSettlesEach(s1, x.id);
        } else {
          var s1 := s.(wantOpen := false, reconnecting := false);
          SameTable(s, s1);
          RejectAllSettlesEach(s1, x.id);
        }
      case _ =>
        assert x.id in s.timers ==> Has(s.pending, x.id);
        FinishSettles(s, x.id, x.outcome);
    }
  }

  /** The `i`-th operation of the run brought about the settlement of a request not settled before. */
  ghost predicate FirstCause(s: Client, cfg: Config, ops: seq<Op>, i: nat, x: Settlement) {
    && i < |ops| && Causes(Run(s, cfg, ops[..i]), ops[i], x)
    && !IsSettled(Run(s, cfg, ops[..i]).settled, x.id)
  }

  lemma {:induction false} RunConcat(s: Client, cfg: Config, a: seq<Op>, b: seq<Op>)
    ensures Run(s, cfg, a + b) == Run(Run(s, cfg, a), cfg, b)
    decreases |a|
  {
    if a == [] {
      assert a + b == b;
    } else {
      assert (a + b)[1..] == a[1..] + b;
      RunConcat(Step(s, cfg, a[0]), cfg, a[1..], b);
    }
  }

  lemma RunSplit(s: Client, cfg: Config, ops: seq<Op>, i: nat)
    requires i < |ops|
    ensures Run(s, cfg, ops) == Run(Step(Run(s, cfg, ops[..i]), cfg, ops[i]), cfg, ops[i + 1..])
  {
    assert ops == ops[..i] + ops[i..] && ops[i..] == [ops[i]] + ops[i + 1..];
    RunConcat(s, cfg, ops[..i], ops[i..]);
    assert ops[i..][1..] == ops[i + 1..];
  }

  lemma FirstCauseSettles(s: Client, cfg: Config, ops: seq<Op>, i: nat, x: Settlement)
    requires Valid(s) && FirstCause(s, cfg, ops, i, x)
    ensures x in Run(s, cfg, ops).settled
  {
    var s1 := Run(s, cfg, ops[..i]);
    RunKeepsValid(s, cfg, ops[..i]);
    CauseSettles(s1, cfg, ops[i], x);
    RunSplit(s, cfg, ops, i);
    LogOnlyGrows(Step(s1, cfg, ops[i]), cfg, ops[i + 1..]);
  }

  /** A request settled by the first operation keeps that settlement. */
  lemma SettledNow(s: Client, cfg: Config, ops: seq<Op>, x: Settlement)
    requires Valid(s) && ops != [] && x in Run(s, cfg, ops).settled
    requires IsSettled(Step(s, cfg, ops[0]).settled, x.id)
    ensures x in Step(s, cfg, ops[0]).settled
  {
    var log, log' := Step(s, cfg, ops[0]).settled, Run(s, cfg, ops).settled;
    LogOnlyGrows(Step(s, cfg, ops[0]), cfg, ops[1..]);
    RunKeepsValid(s, cfg, ops);
    var i :| 0 <= i < |log| && log[i].id == x.id;
    var j :| 0 <= j < |log'| && log'[j] == x;
    assert log'[i] == log[i];
  }

  lemma {:induction false} SettledHasFirstCause(s: Client, cfg: Config, ops: seq<Op>, x: Settlement)
    requires Valid(s) && x in Run(s, cfg, ops).settled && !IsSettled(s.settled, x.id)
    ensures exists i: nat :: FirstCause(s, cfg, ops, i, x)
    decreases |ops|
  {
    assert x !in s.settled;
    if ops != [] {
      var s' := Step(s, cfg, ops[0]);
      StepKeepsValid(s, cfg, ops[0]);
      if !IsSettled(s'.settled, x.id) {
        SettledHasFirstCause(s', cfg, ops[1..], x);
        var i: nat :| FirstCause(s', cfg, ops[1..], i, x);
        assert ops[..i + 1][1..] == ops[1..][..i];
        assert FirstCause(s, cfg, ops, i + 1, x);
      } else {
        SettledNow(s, cfg, ops, x);
        StepSettles(s, cfg, ops[0], x);
        assert Run(s, cfg, ops[..0]) == s;
        assert FirstCause(s, cfg, ops, 0, x);
      }
    }
  }

  /** Main result, over every run from the start: a request is settled, and how, exactly by the first of its causes. */
  lemma SettledByFirstCauseExactly(cfg: Config, ops: seq<Op>, x: Settlement)
    ensures x in Run(INITIAL, cfg, ops).settled <==> exists i: nat :: FirstCause(INITIAL, cfg, ops, i, x)
  {
    InitialValid();
    if x in Run(INITIAL, cfg, ops).settled {
      SettledHasFirstCause(INITIAL, cfg, ops, x);
    }
    if i: nat :| FirstCause(INITIAL, cfg, ops, i, x) {
      FirstCauseSettles(INITIAL, cfg, ops, i, x);
    }
  }

  /** Pending requests are rejected in the order in which they were issued. */
  lemma {:induction false} RejectsInOrder(log: seq<Settlement>, pending: seq<Entry>, o: Outcome)
    requires DistinctPending(pending) && forall i :: 0 <= i < |pending| ==> !IsSettled(log, pending[i].id)
    ensures var r := SettleAll(log, pending, o);
      |r| == |log| + |pending| && log <= r && forall i :: 0 <= i < |pending| ==> r[|log| + i] == Settlement(pending[i].id, o)
    decreases |pending|
  {
    if pending != [] {
      var log', rest := Settle(log, pending[0].id, o), pending[1..];
      assert log' == log + [Settlement(pending[0].id, o)];
      forall i | 0 <= i < |rest| ensures !IsSettled(log', rest[i].id) {
        assert rest[i] == pending[i + 1];
      }
      RejectsInOrder(log', rest, o);
      var r := SettleAll(log, pending, o);
      forall i | 0 <= i < |pending| ensures r[|log| + i] == Settlement(pending[i].id, o) {
        if i > 0 { assert rest[i - 1] == pending[i]; }
      }
    }
  }
}
