/** The connection state machine of RedisCache, as pure functions over the
    guarded state. Each function here specifies one member of the class in
    module Cache; the transport (hiredis) and the clock are parameters:
    `nowMs` is what the Timer reads, `connectOk` whether the connect call
    succeeded, and the reply is what the command returned. */
module Policy {
  import opened Replies

  /** One call into hiredis' connect: when it was made and whether it succeeded. */
  datatype Attempt = Attempt(atMs: int, succeeded: bool)

  /** The fields guarded by the mutex: `connected` stands for `redis_ != nullptr`.
      `connectLog` records every connection attempt; it is bookkeeping for the
      proofs and has no counterpart in the object. */
  datatype State = State(
    connected: bool,
    nextReconnectAtMs: int,
    isStartedUp: bool,
    connectLog: seq<Attempt>)

  /** The result of an internal step that reports success as a bool. */
  datatype Outcome = Outcome(state: State, ok: bool)

  /** The result of executing a command: the reply, if it was accepted. */
  datatype Response = Response(state: State, reply: Option<Reply>)

  function Last(log: seq<Attempt>): Attempt
    requires log != []
  {
    log[|log| - 1]
  }

  /** A (re)connection attempt is allowed: the cache is started up and the
      back-off window of the last failed attempt has passed. */
  predicate MayConnect(s: State, nowMs: int)
  {
    s.isStartedUp && s.nextReconnectAtMs <= nowMs
  }

  /** IsHealthy / IsHealthyLockHeld: started up and holding a connection. */
  predicate IsHealthy(s: State)
  {
    s.isStartedUp && s.connected
  }

  /** The state right after construction at time `nowMs`: not started up, no
      connection, and no back-off window in force. */
  function Init(nowMs: int): (s: State)
    ensures !IsHealthy(s) && !s.isStartedUp && !s.connected
    ensures s.connectLog == []
    ensures !MayConnect(s, nowMs) && MayConnect(s.(isStartedUp := true), nowMs)
  {
    State(false, nowMs, false, [])
  }

  /** FreeRedisContext: drops the handle and changes nothing else. */
  function FreeRedisContext(s: State): (r: State)
    ensures !r.connected && !IsHealthy(r)
    ensures r.isStartedUp == s.isStartedUp && r.nextReconnectAtMs == s.nextReconnectAtMs
    ensures r.connectLog == s.connectLog
  {
    s.(connected := false)
  }

  /** Reconnect: tries to connect only when allowed; a failed attempt opens a
      back-off window of `delayMs` from the time of the attempt, a successful
      one leaves the window where it was. */
  function Reconnect(s: State, delayMs: int, nowMs: int, connectOk: bool): (r: Outcome)
    ensures r.state.isStartedUp == s.isStartedUp
    ensures MayConnect(s, nowMs) ==>
      && r.state.connectLog == s.connectLog + [Attempt(nowMs, connectOk)]
      && r.ok == connectOk
      && r.state.connected == connectOk
    ensures MayConnect(s, nowMs) && !connectOk ==> r.state.nextReconnectAtMs == nowMs + delayMs
    ensures MayConnect(s, nowMs) && connectOk ==> r.state.nextReconnectAtMs == s.nextReconnectAtMs
    ensures !MayConnect(s, nowMs) ==> r.state == s && !r.ok
  {
    if !s.isStartedUp || nowMs < s.nextReconnectAtMs then
      Outcome(s, false)
    else if connectOk then
      Outcome(s.(connected := true, connectLog := s.connectLog + [Attempt(nowMs, true)]), true)
    else
      var freed := FreeRedisContext(s);
      Outcome(freed.(nextReconnectAtMs := nowMs + delayMs,
                     connectLog := s.connectLog + [Attempt(nowMs, false)]), false)
  }

  /** What every operation does first: keep a healthy connection, otherwise
      try Reconnect. Succeeds exactly when the state afterwards is healthy. */
  function EnsureConnected(s: State, delayMs: int, nowMs: int, connectOk: bool): (r: Outcome)
    ensures r.ok <==> IsHealthy(r.state)
    ensures r.state.isStartedUp == s.isStartedUp
    ensures IsHealthy(s) ==> r.state == s
    ensures !IsHealthy(s) && MayConnect(s, nowMs) ==>
      r.state == Reconnect(s, delayMs, nowMs, connectOk).state
    ensures !IsHealthy(s) && !MayConnect(s, nowMs) ==> r.state == s
  {
    if IsHealthy(s) then Outcome(s, true) else Reconnect(s, delayMs, nowMs, connectOk)
  }

  /** StartUp: enables the cache and tries to connect. */
  function StartUp(s: State, delayMs: int, nowMs: int, connectOk: bool): (r: State)
    ensures r.isStartedUp
    ensures IsHealthy(s) ==> r == s
    ensures !s.connected && s.nextReconnectAtMs <= nowMs ==>
      r.connectLog == s.connectLog + [Attempt(nowMs, connectOk)] && IsHealthy(r) == connectOk
    ensures !s.connected && s.nextReconnectAtMs <= nowMs ==>
      r.nextReconnectAtMs == if connectOk then s.nextReconnectAtMs else nowMs + delayMs
    ensures nowMs < s.nextReconnectAtMs && !IsHealthy(s) ==>
      r.connectLog == s.connectLog && r.connected == s.connected
  {
    EnsureConnected(s.(isStartedUp := true), delayMs, nowMs, connectOk).state
  }

  /** Executing one command (RedisCommand followed by ValidateRedisReply): a
      reply is passed on only if it arrived over a healthy connection and has
      one of the command's valid types; a missing or invalid reply frees the
      handle without touching the back-off window, so that the next operation
      reconnects without delay. */
  function Execute(s: State, delayMs: int, nowMs: int, connectOk: bool,
                   cmd: Command, reply: Option<Reply>): (r: Response)
    ensures r.reply.Some? ==>
      r.reply == reply && TypeOf(r.reply.value) in ValidTypes(cmd) && IsHealthy(r.state)
    ensures r.reply.None? ==> !IsHealthy(r.state)
    ensures r.state.isStartedUp == s.isStartedUp
    ensures IsHealthy(s) ==>
      && (r.reply.Some? <==> IsValidReply(reply, ValidTypes(cmd)))
      && r.state.connectLog == s.connectLog
      && r.state.nextReconnectAtMs == s.nextReconnectAtMs
    ensures IsHealthy(s) && !IsValidReply(reply, ValidTypes(cmd)) ==> r.state == FreeRedisContext(s)
    ensures !IsHealthy(s) && MayConnect(s, nowMs) ==>
      r.state.connectLog == s.connectLog + [Attempt(nowMs, connectOk)]
    ensures !IsHealthy(s) && MayConnect(s, nowMs) && connectOk ==>
      && (r.reply.Some? <==> IsValidReply(reply, ValidTypes(cmd)))
      && r.state.nextReconnectAtMs == s.nextReconnectAtMs
    ensures !IsHealthy(s) && MayConnect(s, nowMs) && !connectOk ==>
      !r.state.connected && r.state.nextReconnectAtMs == nowMs + delayMs && r.reply.None?
    ensures !IsHealthy(s) && !MayConnect(s, nowMs) ==> r.state == s && r.reply.None?
  {
    var e := EnsureConnected(s, delayMs, nowMs, connectOk);
    if !e.ok then Response(e.state, None)
    else if IsValidReply(reply, ValidTypes(cmd)) then Response(e.state, reply)
    else Response(FreeRedisContext(e.state), None)
  }

  /** ShutDown: disables the cache and frees the handle; the back-off window
      and the attempt history stay as they were. */
  function ShutDown(s: State): (r: State)
    ensures !r.isStartedUp && !r.connected && !IsHealthy(r)
    ensures r.nextReconnectAtMs == s.nextReconnectAtMs && r.connectLog == s.connectLog
  {
    FreeRedisContext(s).(isStartedUp := false)
  }

  /** After a failed attempt, the next attempt comes no sooner than `delayMs` later. */
  predicate BackoffRespected(log: seq<Attempt>, delayMs: int)
  {
    forall i :: 0 <= i < |log| - 1 && !log[i].succeeded ==> log[i].atMs + delayMs <= log[i + 1].atMs
  }

  /** What holds of every state the object can reach: a handle exists only if
      the cache is started up and the latest attempt succeeded (and it was
      made once the window had passed); after a failed attempt the window
      ends `delayMs` after it; and attempts respect the back-off. */
  predicate Invariant(s: State, delayMs: int)
    ensures Invariant(s, delayMs) ==> (s.connected <==> IsHealthy(s))
    ensures Invariant(s, delayMs) && s.connectLog != [] && !Last(s.connectLog).succeeded ==>
      !IsHealthy(s) && !MayConnect(s, Last(s.connectLog).atMs + delayMs - 1)
  {
    && (s.connected ==>
          && s.isStartedUp
          && s.connectLog != []
          && Last(s.connectLog).succeeded
          && s.nextReconnectAtMs <= Last(s.connectLog).atMs)
    && (s.connectLog != [] && !Last(s.connectLog).succeeded ==>
          s.nextReconnectAtMs == Last(s.connectLog).atMs + delayMs)
    && BackoffRespected(s.connectLog, delayMs)
  }

  /** Appending an attempt made once the window had passed keeps the back-off. */
  lemma BackoffExtended(s: State, delayMs: int, a: Attempt)
    requires Invariant(s, delayMs)
    requires s.nextReconnectAtMs <= a.atMs
    ensures BackoffRespected(s.connectLog + [a], delayMs)
  {
    var log := s.connectLog + [a];
    forall i | 0 <= i < |log| - 1 && !log[i].succeeded
      ensures log[i].atMs + delayMs <= log[i + 1].atMs
    {
      if i == |s.connectLog| - 1 {
        assert log[i] == Last(s.connectLog) && log[i + 1] == a;
      } else {
        assert log[i] == s.connectLog[i] && log[i + 1] == s.connectLog[i + 1];
      }
    }
  }

  lemma InitEstablishesInvariant(nowMs: int, delayMs: int)
    ensures Invariant(Init(nowMs), delayMs)
  {
  }

  lemma ReconnectPreservesInvariant(s: State, delayMs: int, nowMs: int, connectOk: bool)
    requires Invariant(s, delayMs)
    ensures Invariant(Reconnect(s, delayMs, nowMs, connectOk).state, delayMs)
  {
    if MayConnect(s, nowMs) {
      BackoffExtended(s, delayMs, Attempt(nowMs, connectOk));
    }
  }

  lemma StartUpPreservesInvariant(s: State, delayMs: int, nowMs: int, connectOk: bool)
    requires Invariant(s, delayMs)
    ensures Invariant(StartUp(s, delayMs, nowMs, connectOk), delayMs)
  {
    ReconnectPreservesInvariant(s.(isStartedUp := true), delayMs, nowMs, connectOk);
  }

  lemma ExecutePreservesInvariant(s: State, delayMs: int, nowMs: int, connectOk: bool,
                                  cmd: Command, reply: Option<Reply>)
    requires Invariant(s, delayMs)
    ensures Invariant(Execute(s, delayMs, nowMs, connectOk, cmd, reply).state, delayMs)
  {
    ReconnectPreservesInvariant(s, delayMs, nowMs, connectOk);
  }
}
