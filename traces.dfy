/** Sequences of public operations on one RedisCache, run one after another
    (the mutex makes each of them atomic), and what the reconnection policy
    guarantees over such a run. */
module Traces {
  import opened Replies
  import opened Policy

  /** A public operation with the environment's answers: the time the Timer
      reads, whether connecting would succeed, and the reply to the command.
      Get, Put, Delete and FlushAll differ only in the command they send.
      IsHealthy is not an operation here: it is a function and changes nothing. */
  datatype Op =
    | StartUpOp(nowMs: int, connectOk: bool)
    | CommandOp(cmd: Command, nowMs: int, connectOk: bool, reply: Option<Reply>)
    | ShutDownOp

  function Apply(s: State, delayMs: int, op: Op): (r: State)
    ensures |r.connectLog| <= |s.connectLog| + 1
    ensures s.connectLog <= r.connectLog
  {
    match op
    case StartUpOp(t, ok) => StartUp(s, delayMs, t, ok)
    case CommandOp(cmd, t, ok, reply) => Execute(s, delayMs, t, ok, cmd, reply).state
    case ShutDownOp => ShutDown(s)
  }

  function Run(s: State, delayMs: int, ops: seq<Op>): State
    decreases |ops|
  {
    if ops == [] then s else Run(Apply(s, delayMs, ops[0]), delayMs, ops[1..])
  }

  /** The operation reads the clock strictly before `t` (ShutDown does not read it). */
  predicate Before(op: Op, t: int)
  {
    match op
    case StartUpOp(nowMs, _) => nowMs < t
    case CommandOp(_, nowMs, _, _) => nowMs < t
    case ShutDownOp => true
  }

  predicate NoStartUp(ops: seq<Op>)
  {
    forall i :: 0 <= i < |ops| ==> !ops[i].StartUpOp?
  }

  lemma ApplyPreservesInvariant(s: State, delayMs: int, op: Op)
    requires Invariant(s, delayMs)
    ensures Invariant(Apply(s, delayMs, op), delayMs)
  {
    match op
    case StartUpOp(t, ok) => StartUpPreservesInvariant(s, delayMs, t, ok);
    case CommandOp(cmd, t, ok, reply) => ExecutePreservesInvariant(s, delayMs, t, ok, cmd, reply);
    case ShutDownOp =>
  }

  /** The invariant holds after any run, so in particular every connection
      attempt that follows a failed one comes at least `delayMs` later. */
  lemma {:induction false} RunPreservesInvariant(s: State, delayMs: int, ops: seq<Op>)
    requires Invariant(s, delayMs)
    ensures Invariant(Run(s, delayMs, ops), delayMs)
    decreases |ops|
  {
    if ops != [] {
      ApplyPreservesInvariant(s, delayMs, ops[0]);
      RunPreservesInvariant(Apply(s, delayMs, ops[0]), delayMs, ops[1..]);
    }
  }

  /** From construction on, whatever the operations and the environment's
      answers, connection attempts after a failure are spaced by the delay. */
  lemma ReachableRespectsBackoff(constructedAtMs: int, delayMs: int, ops: seq<Op>)
    ensures BackoffRespected(Run(Init(constructedAtMs), delayMs, ops).connectLog, delayMs)
    ensures Invariant(Run(Init(constructedAtMs), delayMs, ops), delayMs)
  {
    InitEstablishesInvariant(constructedAtMs, delayMs);
    RunPreservesInvariant(Init(constructedAtMs), delayMs, ops);
  }

  /** While the cache is not started up, no Get/Put/Delete/FlushAll or
      ShutDown connects, and the cache stays unhealthy. */
  lemma {:induction false} NoConnectWhileStopped(s: State, delayMs: int, ops: seq<Op>)
    requires !s.isStartedUp
    requires NoStartUp(ops)
    ensures Run(s, delayMs, ops).connectLog == s.connectLog
    ensures !Run(s, delayMs, ops).isStartedUp && !IsHealthy(Run(s, delayMs, ops))
    decreases |ops|
  {
    if ops != [] {
      assert !ops[0].StartUpOp?;
      assert NoStartUp(ops[1..]) by {
        forall i | 0 <= i < |ops[1..]| ensures !ops[1..][i].StartUpOp? {
          assert ops[1..][i] == ops[i + 1];
        }
      }
      NoConnectWhileStopped(Apply(s, delayMs, ops[0]), delayMs, ops[1..]);
    }
  }

  /** No connection is attempted before StartUp. */
  lemma NoConnectBeforeStartUp(constructedAtMs: int, delayMs: int, ops: seq<Op>)
    requires NoStartUp(ops)
    ensures Run(Init(constructedAtMs), delayMs, ops).connectLog == []
    ensures !IsHealthy(Run(Init(constructedAtMs), delayMs, ops))
  {
    NoConnectWhileStopped(Init(constructedAtMs), delayMs, ops);
  }

  /** No connection is attempted after ShutDown, unless the cache is started up again. */
  lemma NoConnectAfterShutDown(s: State, delayMs: int, ops: seq<Op>)
    requires NoStartUp(ops)
    ensures Run(ShutDown(s), delayMs, ops).connectLog == s.connectLog
    ensures !IsHealthy(Run(ShutDown(s), delayMs, ops))
  {
    NoConnectWhileStopped(ShutDown(s), delayMs, ops);
  }

  /** ShutDown a second time (as the destructor does after an explicit call) changes nothing. */
  lemma ShutDownIdempotent(s: State)
    ensures ShutDown(ShutDown(s)) == ShutDown(s)
  {
  }

  /** While disconnected, operations made before the end of the back-off window
      make no attempt and change neither the window nor the connection. */
  lemma {:induction false} BackoffWindowBlocks(s: State, delayMs: int, ops: seq<Op>)
    requires !s.connected
    requires forall i :: 0 <= i < |ops| ==> Before(ops[i], s.nextReconnectAtMs)
    ensures Run(s, delayMs, ops).connectLog == s.connectLog
    ensures Run(s, delayMs, ops).nextReconnectAtMs == s.nextReconnectAtMs
    ensures !Run(s, delayMs, ops).connected
    decreases |ops|
  {
    if ops != [] {
      assert Before(ops[0], s.nextReconnectAtMs);
      var s1 := Apply(s, delayMs, ops[0]);
      forall i | 0 <= i < |ops[1..]| ensures Before(ops[1..][i], s1.nextReconnectAtMs) {
        assert ops[1..][i] == ops[i + 1];
      }
      BackoffWindowBlocks(s1, delayMs, ops[1..]);
    }
  }

  /** After an operation whose connection attempt at time t failed, no
      operation before t + delay makes another attempt. */
  lemma FailedAttemptBlocksUntilDelay(s: State, delayMs: int, op: Op, ops: seq<Op>)
    requires Invariant(s, delayMs)
    requires var s1 := Apply(s, delayMs, op);
      |s1.connectLog| > |s.connectLog| && !Last(s1.connectLog).succeeded
    requires var t := Last(Apply(s, delayMs, op).connectLog).atMs;
      forall i :: 0 <= i < |ops| ==> Before(ops[i], t + delayMs)
    ensures Run(Apply(s, delayMs, op), delayMs, ops).connectLog == Apply(s, delayMs, op).connectLog
  {
    ApplyPreservesInvariant(s, delayMs, op);
    BackoffWindowBlocks(Apply(s, delayMs, op), delayMs, ops);
  }

  /** Once the window has passed, the next command on a started-up,
      disconnected cache makes exactly one connection attempt. */
  lemma OneAttemptOnceWindowPassed(s: State, delayMs: int, op: Op)
    requires s.isStartedUp && !s.connected
    requires op.CommandOp? && s.nextReconnectAtMs <= op.nowMs
    ensures Apply(s, delayMs, op).connectLog == s.connectLog + [Attempt(op.nowMs, op.connectOk)]
  {
  }

  /** A command that fails on a healthy connection (no reply, or a reply of
      the wrong type) frees the handle without moving the window, so the very
      next command reconnects at once, however little time has passed. */
  lemma ImmediateReconnectAfterError(s: State, delayMs: int, failing: Op, next: Op)
    requires Invariant(s, delayMs) && IsHealthy(s)
    requires failing.CommandOp? && !IsValidReply(failing.reply, ValidTypes(failing.cmd))
    requires next.CommandOp? && Last(s.connectLog).atMs <= next.nowMs
    ensures var s1 := Apply(s, delayMs, failing);
      && !IsHealthy(s1)
      && s1.connectLog == s.connectLog
      && s1.nextReconnectAtMs == s.nextReconnectAtMs
      && Apply(s1, delayMs, next).connectLog == s.connectLog + [Attempt(next.nowMs, next.connectOk)]
  {
  }
}
