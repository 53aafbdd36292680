/** The RedisCache object: its fields, updated in place by its methods, each
    method specified by the function of module Policy that it implements. */
module Cache {
  import opened Replies
  import Policy

  /** What a Get reports to its callback: kAvailable with the value, or kNotFound. */
  datatype KeyLookup = Found(value: seq<bv8>) | NotFound

  class RedisCache {
    const host: string
    const port: int
    const reconnectionDelayMs: int
    /** `redis_ != nullptr` */
    var connected: bool
    var nextReconnectAtMs: int
    var isStartedUp: bool
    /** Every connection attempt made so far (proof bookkeeping). */
    ghost var connectLog: seq<Policy.Attempt>

    ghost function Model(): Policy.State
      reads this
    {
      Policy.State(connected, nextReconnectAtMs, isStartedUp, connectLog)
    }

    ghost predicate Valid()
      reads this
    {
      Policy.Invariant(Model(), reconnectionDelayMs)
    }

    /** Constructed at time `nowMs`: disabled until StartUp, with no back-off window. */
    constructor (host: string, port: int, reconnectionDelayMs: int, nowMs: int)
      ensures this.host == host && this.port == port
      ensures this.reconnectionDelayMs == reconnectionDelayMs
      ensures Valid() && Model() == Policy.Init(nowMs)
    {
      this.host := host;
      this.port := port;
      this.reconnectionDelayMs := reconnectionDelayMs;
      connected := false;
      nextReconnectAtMs := nowMs;
      isStartedUp := false;
      connectLog := [];
      new;
      Policy.InitEstablishesInvariant(nowMs, reconnectionDelayMs);
    }

    static function FormatName(): (name: string)
      ensures name == "RedisCache"
    {
      "RedisCache"
    }

    function Name(): (name: string)
      ensures name == FormatName() && name == "RedisCache"
    {
      FormatName()
    }

    /** Every operation runs synchronously in the caller's thread. */
    function IsBlocking(): (blocking: bool)
      ensures blocking
    {
      true
    }

    function IsHealthyLockHeld(): (healthy: bool)
      reads this
      ensures healthy <==> Policy.IsHealthy(Model())
    {
      isStartedUp && connected
    }

    /** A reading of the state under the lock: it changes nothing and never connects. */
    function IsHealthy(): (healthy: bool)
      reads this
      ensures healthy ==> connected && isStartedUp
      ensures Valid() && !healthy ==> !connected
    {
      IsHealthyLockHeld()
    }

    method FreeRedisContext()
      modifies this
      ensures old(Valid()) ==> Valid()
      ensures Model() == Policy.FreeRedisContext(old(Model()))
    {
      connected := false;
    }

    method Reconnect(nowMs: int, connectOk: bool) returns (ok: bool)
      requires Valid()
      modifies this
      ensures Valid()
      ensures Policy.Outcome(Model(), ok) == Policy.Reconnect(old(Model()), reconnectionDelayMs, nowMs, connectOk)
    {
      Policy.ReconnectPreservesInvariant(Model(), reconnectionDelayMs, nowMs, connectOk);
      if !isStartedUp || nowMs < nextReconnectAtMs {
        return false;
      }
      connectLog := connectLog + [Policy.Attempt(nowMs, connectOk)];
      if !connectOk {
        FreeRedisContext();
        nextReconnectAtMs := nowMs + reconnectionDelayMs;
        return false;
      }
      connected := true;
      return true;
    }

    method StartUp(nowMs: int, connectOk: bool)
      requires Valid()
      modifies this
      ensures Valid()
      ensures Model() == Policy.StartUp(old(Model()), reconnectionDelayMs, nowMs, connectOk)
    {
      isStartedUp := true;
      if !IsHealthyLockHeld() {
        var _ := Reconnect(nowMs, connectOk);
      }
    }

    /** Rejects (and frees the handle on) a missing reply or one whose type
        is not among `validTypes`. */
    method ValidateRedisReply(reply: Option<Reply>, validTypes: set<ReplyType>) returns (valid: bool)
      modifies this
      ensures old(Valid()) ==> Valid()
      ensures valid == IsValidReply(reply, validTypes)
      ensures Model() == if valid then old(Model()) else Policy.FreeRedisContext(old(Model()))
    {
      valid := IsValidReply(reply, validTypes);
      if !valid {
        FreeRedisContext();
      }
    }

    /** The common path of Get, Put, Delete and FlushAll: make sure of a
        connection, send `cmd` (whose reply is `transportReply`) and validate
        the reply. */
    method ExecuteCommand(nowMs: int, connectOk: bool, cmd: Command, transportReply: Option<Reply>)
      returns (reply: Option<Reply>)
      requires Valid()
      modifies this
      ensures Valid()
      ensures Policy.Response(Model(), reply)
        == Policy.Execute(old(Model()), reconnectionDelayMs, nowMs, connectOk, cmd, transportReply)
    {
      if !IsHealthyLockHeld() {
        var ok := Reconnect(nowMs, connectOk);
        if !ok {
          return None;
        }
      }
      var valid := ValidateRedisReply(transportReply, ValidTypes(cmd));
      reply := if valid then transportReply else None;
    }

    /** A failed command and a miss both report NotFound. */
    method Get(nowMs: int, connectOk: bool, transportReply: Option<Reply>) returns (result: KeyLookup)
      requires Valid()
      modifies this
      ensures Valid()
      ensures var r := Policy.Execute(old(Model()), reconnectionDelayMs, nowMs, connectOk, Command.Get, transportReply);
        && Model() == r.state
        && (result.Found? <==> r.reply.Some? && r.reply.value.StringReply?)
        && (result.Found? ==> r.reply.value.bytes == result.value)
    {
      var reply := ExecuteCommand(nowMs, connectOk, Command.Get, transportReply);
      if reply.Some? && reply.value.StringReply? {
        result := Found(reply.value.bytes);
      } else {
        result := NotFound;
      }
    }

    method Put(nowMs: int, connectOk: bool, transportReply: Option<Reply>)
      requires Valid()
      modifies this
      ensures Valid()
      ensures Model() == Policy.Execute(old(Model()), reconnectionDelayMs, nowMs, connectOk, Set, transportReply).state
    {
      var _ := ExecuteCommand(nowMs, connectOk, Set, transportReply);
    }

    method Delete(nowMs: int, connectOk: bool, transportReply: Option<Reply>)
      requires Valid()
      modifies this
      ensures Valid()
      ensures Model() == Policy.Execute(old(Model()), reconnectionDelayMs, nowMs, connectOk, Del, transportReply).state
    {
      var _ := ExecuteCommand(nowMs, connectOk, Del, transportReply);
    }

    /** Reports whether FLUSHALL was answered with a status reply. */
    method FlushAll(nowMs: int, connectOk: bool, transportReply: Option<Reply>) returns (ok: bool)
      requires Valid()
      modifies this
      ensures Valid()
      ensures var r := Policy.Execute(old(Model()), reconnectionDelayMs, nowMs, connectOk, Command.FlushAll, transportReply);
        Model() == r.state && ok == r.reply.Some?
    {
      var reply := ExecuteCommand(nowMs, connectOk, Command.FlushAll, transportReply);
      ok := reply.Some?;
    }

    method ShutDown()
      modifies this
      ensures old(Valid()) ==> Valid()
      ensures Model() == Policy.ShutDown(old(Model()))
    {
      isStartedUp := false;
      FreeRedisContext();
    }
  }

  /** A caller's view, derived from the contracts alone: a server that refuses
      the first connection, a window that holds back the next attempt, a
      communication error followed by an immediate reconnect, and ShutDown. */
  method ReconnectionScenario(delayMs: int, t0: int)
    requires delayMs > 0
  {
    var cache := new RedisCache("localhost", 6379, delayMs, t0);
    cache.StartUp(t0, false);
    assert |cache.connectLog| == 1 && !cache.IsHealthy();

    cache.Put(t0 + delayMs - 1, true, Some(StatusReply("OK")));
    assert |cache.connectLog| == 1 && !cache.IsHealthy();

    var found := cache.Get(t0 + delayMs, true, Some(StringReply([7])));
    assert |cache.connectLog| == 2 && cache.IsHealthy() && found == Found([7]);

    cache.Delete(t0 + delayMs, true, None);
    assert !cache.IsHealthy() && |cache.connectLog| == 2;

    found := cache.Get(t0 + delayMs, true, Some(NilReply));
    assert |cache.connectLog| == 3 && cache.IsHealthy() && found == NotFound;

    cache.ShutDown();
    cache.ShutDown();
    found := cache.Get(t0 + 10 * delayMs, true, Some(StringReply([7])));
    assert |cache.connectLog| == 3 && !cache.IsHealthy() && found == NotFound;
  }
}
