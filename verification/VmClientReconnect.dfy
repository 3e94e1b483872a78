/** The reconnect loop: how many can be live, how often they connect, how long they wait. */
module VmClientReconnect {
  import opened Basics
  import opened VmClientSpec

  ghost predicate AtMostOneLoop(s: Client) {
    |s.loops| <= 1 && (s.reconnecting <==> |s.loops| == 1)
  }

  /** No `disconnect` of the run happens while a loop is live. */
  ghost predicate NoDisconnectWhileLive(s: Client, cfg: Config, ops: seq<Op>)
    decreases |ops|
  {
    ops == [] || (!(ops[0].Disconnect? && s.loops != []) && NoDisconnectWhileLive(Step(s, cfg, ops[0]), cfg, ops[1..]))
  }

  lemma {:induction false} SingleLoop(s: Client, cfg: Config, ops: seq<Op>)
    requires AtMostOneLoop(s) && NoDisconnectWhileLive(s, cfg, ops)
    ensures AtMostOneLoop(Run(s, cfg, ops))
    decreases |ops|
  {
    if ops != [] {
      SingleLoop(Step(s, cfg, ops[0]), cfg, ops[1..]);
    }
  }

  function LoseNewSocket(s: Client, random: real): seq<Op> {
    [ConnectStarts, SocketCreated, SocketCloses(|s.sockets|, random)]
  }

  lemma RunOne(s: Client, cfg: Config, op: Op, ops: seq<Op>)
    ensures Run(s, cfg, [op] + ops) == Run(Step(s, cfg, op), cfg, ops)
  {
    assert ([op] + ops)[1..] == ops;
  }

  lemma RunThree(s: Client, cfg: Config, a: Op, b: Op, c: Op)
    ensures Run(s, cfg, [a, b, c]) == Step(Step(Step(s, cfg, a), cfg, b), cfg, c)
  {
    RunOne(s, cfg, a, [b, c]);
    RunOne(Step(s, cfg, a), cfg, b, [c]);
    RunOne(Step(Step(s, cfg, a), cfg, b), cfg, c, []);
    assert [a] + [b, c] == [a, b, c] && [b] + [c] == [b, c] && [c] + [] == [c];
  }

  /** Whenever a disconnect finds a loop live, the client can go on to have one more loop than
      before: connecting again and losing the new socket starts a second one. */
  lemma DisconnectAdmitsAnotherLoop(s: Client, cfg: Config, random: real)
    requires cfg.maxAttempts >= 1
    ensures |Run(s, cfg, [Disconnect] + LoseNewSocket(s, random)).loops| == |s.loops| + 1
  {
    var s1 := Step(s, cfg, Disconnect);
    assert |s1.sockets| == |s.sockets| && s1.loops == s.loops && !s1.reconnecting;
    RunOne(s, cfg, Disconnect, LoseNewSocket(s, random));
    RunThree(s1, cfg, ConnectStarts, SocketCreated, SocketCloses(|s.sockets|, random));
    var s2 := Step(s1, cfg, ConnectStarts);
    var s3 := Step(s2, cfg, SocketCreated);
    assert |s3.sockets| == |s.sockets| + 1 && s3.loops == s.loops && !s3.reconnecting && s3.wantOpen && s3.hasOptions;
  }

  lemma {:induction false} NeverDisconnects(s: Client, cfg: Config, ops: seq<Op>)
    requires forall i :: 0 <= i < |ops| ==> !ops[i].Disconnect?
    ensures NoDisconnectWhileLive(s, cfg, ops)
    decreases |ops|
  {
    if ops != [] { NeverDisconnects(Step(s, cfg, ops[0]), cfg, ops[1..]); }
  }

  /** So a disconnect is harmless to the single-loop property exactly when no loop is live. */
  lemma DisconnectSafeExactlyWhenIdle(s: Client, cfg: Config)
    requires AtMostOneLoop(s) && cfg.maxAttempts >= 1
    ensures (forall ops {:trigger Run(s, cfg, [Disconnect] + ops)} ::
               NoDisconnectWhileLive(Step(s, cfg, Disconnect), cfg, ops) ==> |Run(s, cfg, [Disconnect] + ops).loops| <= 1)
      <==> s.loops == []
  {
    var s1 := Step(s, cfg, Disconnect);
    forall ops ensures Run(s, cfg, [Disconnect] + ops) == Run(s1, cfg, ops) {
      assert ([Disconnect] + ops)[1..] == ops;
    }
    if s.loops == [] {
      forall ops | NoDisconnectWhileLive(s1, cfg, ops) ensures |Run(s, cfg, [Disconnect] + ops).loops| <= 1 {
        SingleLoop(s1, cfg, ops);
      }
    } else {
      NeverDisconnects(s1, cfg, LoseNewSocket(s, 0.5));
      DisconnectAdmitsAnotherLoop(s, cfg, 0.5);
    }
  }

  // ---- attempts and waits ----

  predicate RandomInRange(op: Op) {
    match op
    case SocketCloses(_, r) => 0.0 <= r < 1.0
    case HeartbeatFails(r) => 0.0 <= r < 1.0
    case LoopConnectFails(_, r) => 0.0 <= r < 1.0
    case _ => true
  }

  predicate IsNearest(d: int, j: real) {
    d as real - 0.5 <= j < d as real + 0.5
  }

  /** `d` is a whole number of milliseconds nearest to something within 20% of `backoff`. */
  ghost predicate FairDelay(backoff: real, d: int) {
    exists j: real :: IsNearest(d, j) && 0.8 * backoff <= j <= 1.2 * backoff
  }

  lemma RoundIsNearest(x: real)
    requires x >= 0.0
    ensures IsNearest(Round(x), x) && Round(x) >= 0
  {}

  lemma JitterBounds(b: real, random: real)
    requires b >= 0.0 && 0.0 <= random < 1.0
    ensures 0.8 * b <= b + b * 0.2 * (2.0 * random - 1.0) <= 1.2 * b
  {
    var f := 2.0 * random - 1.0;
    assert b * 0.2 * (f + 1.0) >= 0.0;
    assert b * 0.2 * (1.0 - f) >= 0.0;
    assert b * 0.2 * (f + 1.0) == b * 0.2 * f + b * 0.2;
    assert b * 0.2 * (1.0 - f) == b * 0.2 - b * 0.2 * f;
  }

  lemma DelayIsFair(backoff: real, random: real)
    requires backoff >= 0.0 && 0.0 <= random < 1.0
    ensures FairDelay(backoff, Delay(backoff, random))
  {
    JitterBounds(backoff, random);
    RoundIsNearest(Jittered(backoff, random));
  }

  lemma BackoffNonNegative(cfg: Config, attempt: nat)
    requires attempt >= 1 && cfg.baseMs >= 0.0 && cfg.capMs >= 0.0
    ensures Backoff(cfg, attempt) >= 0.0
  {
    var p := Pow2(attempt - 1) as real;
    assert p >= 0.0;
    assert cfg.baseMs * p >= 0.0;
  }

  /** A loop in attempt k has waited k times, each wait fair for its attempt, and has connected
      k-1 or k times, with k at most the configured maximum. */
  ghost predicate LoopValid(l: Loop, cfg: Config) {
    && 1 <= l.attempt <= cfg.maxAttempts && |l.delays| == l.attempt
    && l.connects == (if l.phase == Sleeping then l.attempt - 1 else l.attempt)
    && forall k :: 0 <= k < |l.delays| ==> FairDelay(Backoff(cfg, k + 1), l.delays[k])
  }

  ghost predicate LoopsValid(s: Client, cfg: Config) {
    && (forall i :: 0 <= i < |s.loops| ==> LoopValid(s.loops[i], cfg))
    && (s.reconnecting ==> s.loops != [])
  }

  lemma StartKeepsLoops(s: Client, cfg: Config, random: real)
    requires LoopsValid(s, cfg) && cfg.baseMs >= 0.0 && cfg.capMs >= 0.0 && 0.0 <= random < 1.0
    ensures LoopsValid(StartLoop(s, cfg, random), cfg)
  {
    if cfg.maxAttempts >= 1 {
      var d := Delay(Backoff(cfg, 1), random);
      BackoffNonNegative(cfg, 1);
      DelayIsFair(Backoff(cfg, 1), random);
      assert LoopValid(Loop(1, Sleeping, 0, [d]), cfg);
    }
  }

  lemma FailKeepsLoop(l: Loop, cfg: Config, random: real)
    requires LoopValid(l, cfg) && l.phase == Connecting && l.attempt + 1 <= cfg.maxAttempts
    requires cfg.baseMs >= 0.0 && cfg.capMs >= 0.0 && 0.0 <= random < 1.0
    ensures LoopValid(Loop(l.attempt + 1, Sleeping, l.connects, l.delays + [Delay(Backoff(cfg, l.attempt + 1), random)]), cfg)
  {
    BackoffNonNegative(cfg, l.attempt + 1);
    DelayIsFair(Backoff(cfg, l.attempt + 1), random);
  }

  lemma EndKeepsLoops(s: Client, cfg: Config, i: nat)
    requires LoopsValid(s, cfg) && i < |s.loops|
    ensures LoopsValid(EndLoop(s, i), cfg)
  {}

  lemma StepKeepsLoops(s: Client, cfg: Config, op: Op)
    requires LoopsValid(s, cfg) && cfg.baseMs >= 0.0 && cfg.capMs >= 0.0 && RandomInRange(op)
    ensures LoopsValid(Step(s, cfg, op), cfg)
  {
    match op {
      case SocketCloses(w, r) =>
        if w < |s.sockets| { StartKeepsLoops(RejectAll(s.(sockets := s.sockets[w := Closed])), cfg, r); }
      case HeartbeatFails(r) =>
        StartKeepsLoops(s, cfg, r);
      case LoopWakes(i) =>
        if i < |s.loops| { EndKeepsLoops(s, cfg, i); }
      case LoopConnected(i) =>
        if i < |s.loops| { EndKeepsLoops(s, cfg, i); }
      case LoopConnectFails(i, r) =>
        if i < |s.loops| && s.loops[i].phase == Connecting {
          if s.loops[i].attempt + 1 <= cfg.maxAttempts {
            FailKeepsLoop(s.loops[i], cfg, r);
          } else {
            EndKeepsLoops(s, cfg, i);
          }
        }
      case _ =>
    }
  }

  /** Main result, over every run, disconnects included: no loop connects more often than the
      configured maximum, and its k-th wait is within 20% of min(base * 2^(k-1), cap), before rounding. */
  lemma {:induction false} RunKeepsLoops(s: Client, cfg: Config, ops: seq<Op>)
    requires LoopsValid(s, cfg) && cfg.baseMs >= 0.0 && cfg.capMs >= 0.0
    requires forall i :: 0 <= i < |ops| ==> RandomInRange(ops[i])
    ensures LoopsValid(Run(s, cfg, ops), cfg)
    ensures forall l :: l in Run(s, cfg, ops).loops ==> l.connects <= cfg.maxAttempts
    decreases |ops|
  {
    if ops != [] {
      StepKeepsLoops(s, cfg, ops[0]);
      RunKeepsLoops(Step(s, cfg, ops[0]), cfg, ops[1..]);
    }
  }

  /** Backoffs double until they reach the cap and then stay there. */
  lemma BackoffGrows(cfg: Config, attempt: nat)
    requires attempt >= 1 && cfg.baseMs >= 0.0
    ensures Backoff(cfg, attempt) <= Backoff(cfg, attempt + 1) <= cfg.capMs
    ensures Backoff(cfg, attempt + 1) < cfg.capMs ==> Backoff(cfg, attempt + 1) == 2.0 * Backoff(cfg, attempt)
  {
    var p := Pow2(attempt - 1) as real;
    assert Pow2(attempt) as real == 2.0 * p && p >= 0.0;
    assert cfg.baseMs * (2.0 * p) == 2.0 * (cfg.baseMs * p);
    assert cfg.baseMs * p >= 0.0;
  }

  // ---- when loops start and end ----

  /** The loop that an operation is about, and the reasons for it to end. */
  ghost predicate EndsLoop(s: Client, cfg: Config, op: Op) {
    match op
    case LoopWakes(i) => i < |s.loops| && s.loops[i].phase == Sleeping && !s.wantOpen
    case LoopConnected(i) => i < |s.loops| && s.loops[i].phase == Connecting
    case LoopConnectFails(i, _) =>
      i < |s.loops| && s.loops[i].phase == Connecting && s.loops[i].connects == cfg.maxAttempts
    case _ => false
  }

  /** The reason for a loop to start. */
  ghost predicate StartsLoop(s: Client, cfg: Config, op: Op) {
    && ((op.SocketCloses? && op.socket < |s.sockets|) || op.HeartbeatFails?)
    && s.wantOpen && s.hasOptions && !s.reconnecting && cfg.maxAttempts >= 1
  }

  /** A loop ends exactly when it finds itself unwanted, has connected, or has failed in the last of its
      allowed connects; it never gives up earlier. */
  lemma LoopEndsExactly(s: Client, cfg: Config, op: Op)
    requires LoopsValid(s, cfg)
    ensures |Step(s, cfg, op).loops| < |s.loops| <==> EndsLoop(s, cfg, op)
    ensures EndsLoop(s, cfg, op) ==>
      Step(s, cfg, op).loops == s.loops[..op.loop] + s.loops[op.loop + 1..] && !Step(s, cfg, op).reconnecting
  {
    if op.LoopConnectFails? && op.loop < |s.loops| {
      assert LoopValid(s.loops[op.loop], cfg);
    }
  }

  /** A loop starts exactly on losing a socket or the heartbeat while a connection is wanted, options are known
      and no loop is running; it starts asleep, before its first connect. */
  lemma LoopStartsExactly(s: Client, cfg: Config, op: Op)
    ensures |Step(s, cfg, op).loops| > |s.loops| <==> StartsLoop(s, cfg, op)
    ensures StartsLoop(s, cfg, op) ==>
      var s' := Step(s, cfg, op);
      && s'.reconnecting && |s'.loops| == |s.loops| + 1 && s'.loops[..|s.loops|] == s.loops
      && s'.loops[|s.loops|] == Loop(1, Sleeping, 0, [Delay(Backoff(cfg, 1), op.random)])
  {}

  /** A sleeping loop that is still wanted connects; a connect that fails before the last one is followed by
      a new wait. */
  lemma LoopGoesOn(s: Client, cfg: Config, i: nat, random: real)
    requires LoopsValid(s, cfg) && i < |s.loops|
    ensures s.loops[i].phase == Sleeping && s.wantOpen ==>
      var l := Step(s, cfg, LoopWakes(i)).loops;
      l == s.loops[i := Loop(s.loops[i].attempt, Connecting, s.loops[i].connects + 1, s.loops[i].delays)]
    ensures s.loops[i].phase == Connecting && s.loops[i].connects < cfg.maxAttempts ==>
      var l := Step(s, cfg, LoopConnectFails(i, random)).loops;
      && |l| == |s.loops| && l[i].phase == Sleeping && l[i].connects == s.loops[i].connects
      && l[i].attempt == s.loops[i].attempt + 1
      && l[i].delays == s.loops[i].delays + [Delay(Backoff(cfg, l[i].attempt), random)]
  {
    assert LoopValid(s.loops[i], cfg);
  }

  /** The first backoff is the base, unless the cap is lower. */
  lemma BackoffStarts(cfg: Config)
    ensures Backoff(cfg, 1) == if cfg.baseMs < cfg.capMs then cfg.baseMs else cfg.capMs
  {}

  /** The random number spreads the wait evenly over the whole window, from 80% to 120% of the backoff. */
  lemma JitterSpans(backoff: real, random: real)
    ensures Jittered(backoff, 0.0) == 0.8 * backoff && Jittered(backoff, 1.0) == 1.2 * backoff
    ensures Jittered(backoff, random) == 0.8 * backoff + 0.4 * backoff * random
  {
    assert backoff * 0.2 * (2.0 * random - 1.0) == 0.4 * backoff * random - 0.2 * backoff;
  }

  /** The wait is the whole number of milliseconds nearest to that. */
  lemma DelayIsNearest(backoff: real, random: real)
    requires backoff >= 0.0 && 0.0 <= random < 1.0
    ensures IsNearest(Delay(backoff, random), Jittered(backoff, random))
  {
    JitterBounds(backoff, random);
    RoundIsNearest(Jittered(backoff, random));
  }
}
