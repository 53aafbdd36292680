# RedisCache connection lifecycle, in Dafny

This project models `RedisCache`, PageSpeed's blocking client for a Redis
server behind the generic `CacheInterface` (Get/Put/Delete plus health and
lifecycle). The model covers the connection lifecycle and the reconnection
policy, which the class's doc-comment describes:

- `StartUp` enables the cache and tries to connect.
- A failed connect (the first one or a later reconnect) blocks further
  attempts until `reconnection_delay_ms_` has passed since that attempt.
- A communication or protocol error on an established connection drops the
  handle. The next Get/Put/Delete reconnects without delay.
- Reconnection goes on only until `ShutDown`.

Files:

- `replies.dfy` (module `Replies`) holds the hiredis reply kinds, the
  commands the cache sends, and the reply types each command accepts.
  `IsValidReply` is the decision `ValidateRedisReply` makes: a reply is
  accepted only when one arrived and its type is in the command's set.
- `policy.dfy` (module `Policy`) holds the guarded state (`redis_` present or
  absent, `next_reconnect_at_ms_`, `is_started_up_`) as a value. Each
  operation is a pure function over that value, and these functions specify
  the methods of the class: `Init` the constructor, `StartUp`, `Reconnect`,
  `FreeRedisContext` and `ShutDown` the methods of the same names, and
  `Execute` the common command path `ExecuteCommand` with its callers `Get`,
  `Put`, `Delete` and `FlushAll`. `EnsureConnected` is the connect-if-needed
  step that `StartUp` and `Execute` share; it has no method of its own. The
  module also holds the
  invariant every reachable state satisfies, with preservation lemmas for
  Reconnect, StartUp and command execution (ShutDown's case is part of
  `Traces.ApplyPreservesInvariant`). Each state carries a log of all
  connection attempts, with their times and outcomes. The log has no
  counterpart in the object; it exists so that properties about attempts can
  be stated.
- `traces.dfy` (module `Traces`) runs sequences of public operations, each
  one atomic as the mutex makes it. It proves what the policy promises over
  such runs.
- `redis_cache.dfy` (module `Cache`) holds the class `RedisCache`. Its fields
  are updated in place. Its methods `StartUp`, `Reconnect`,
  `FreeRedisContext`, `ExecuteCommand`, `Get`, `Put`, `Delete`, `FlushAll`
  and `ShutDown` are each proved to leave the object in the state that the
  matching `Policy` function gives, and to keep the invariant.
  `ValidateRedisReply` is proved to accept exactly the replies
  `IsValidReply` accepts, to free the handle on the others and to change
  nothing else, and to keep the invariant.
  `ReconnectionScenario` is a caller that derives a whole reconnection story
  from these contracts alone.

The environment comes in as parameters:

- `nowMs` is the time the `Timer` reads.
- `connectOk` says whether hiredis' connect succeeds.
- The transport reply is `Some(reply)`, or `None` when hiredis returns no
  reply (a communication error).

Only the header `pagespeed/system/redis_cache.h` is modelled.
`redis_cache.cc` is not part of this model. Where the header leaves a
behaviour open, the model makes these choices:

- The constructor leaves no back-off window in force, so a first `StartUp`
  at or after the construction time tries to connect.
- Only a failed connect moves `next_reconnect_at_ms_`. A successful connect
  and a failed command leave it where it was. This is what the doc-comment's
  "reconnect without delay" after a communication error needs.
- The commands and their accepted reply types are the model's choice, after
  the replies Redis documents for them: GET {string, nil}, SET {status},
  DEL {integer} and FLUSHALL {status}. The header only declares the
  `valid_types` parameter. No set contains the error type, so the model
  treats an error reply like any reply outside the command's valid types,
  that is as a protocol error that drops the connection (line 60). The TODO
  at line 43 leaves this treatment open.
- The header keeps only `is_started_up_`, which `ShutDown` clears and
  `StartUp` sets. So the model lets a later `StartUp` enable the cache
  again. The property proved is that no connection is attempted after
  `ShutDown` until `StartUp` is called again.

## Model

| member | source | states |
|---|---|---|
| `Replies.ValidTypes` | pagespeed/system/redis_cache.h:102-105 | no command accepts an error or array reply; only GET accepts string and nil replies |
| `Policy.Init` | pagespeed/system/redis_cache.h:50-52 | a new cache is not started up, holds no connection, has made no attempt, and has no back-off window in force |
| `Policy.FreeRedisContext` | pagespeed/system/redis_cache.h:89 | drops the handle so the cache is unhealthy; the window, the started flag and the attempts are unchanged |
| `Policy.Reconnect` | pagespeed/system/redis_cache.h:55-59 | an attempt happens exactly when the cache is started up and the window has passed, and then exactly one attempt is logged; a failure sets the window to attempt time + delay; a success leaves the window alone; with no attempt nothing changes |
| `Policy.EnsureConnected` | pagespeed/system/redis_cache.h:87-88 | succeeds iff the resulting state is healthy; a healthy cache is left untouched; an unhealthy one goes through Reconnect |
| `Policy.StartUp` | pagespeed/system/redis_cache.h:55-64 | afterwards the cache is started up; a disconnected cache whose window has passed makes one attempt and is healthy iff the attempt succeeded, and the window stays put after a success and ends delay after the attempt on a failure; inside the window nothing connects |
| `Policy.Execute` | pagespeed/system/redis_cache.h:98-105 | a reply is passed on only if it has a valid type for the command and the cache is healthy; on a healthy cache a reply is passed on iff it is valid, and an invalid or missing reply frees the handle without moving the window; a disconnected started-up cache past its window makes exactly one attempt; when that reconnect succeeds the command goes on, its reply passed on iff valid, and the window stays; when it fails the window moves to now + delay and no reply is passed on; inside the window nothing changes |
| `Policy.ShutDown` | pagespeed/system/redis_cache.h:79 | the cache is no longer started up and holds no connection; the window and the attempts are unchanged |
| `Policy.Invariant` | pagespeed/system/redis_cache.h:57-61 | the property every reachable state keeps: a handle exists only if the cache is started up and the latest attempt succeeded once the window had passed, so a handle means healthy; after a failed attempt at t the window ends at t + delay, so the cache is unhealthy and may not connect before then; failed attempts are followed by a gap of at least the delay |
| `Policy.BackoffExtended` | pagespeed/system/redis_cache.h:57-59 | an attempt made once the window has passed keeps every failed attempt followed by a gap of at least the delay |
| `Policy.InitEstablishesInvariant` | pagespeed/system/redis_cache.h:109-116 | a freshly constructed cache satisfies the state invariant |
| `Policy.ReconnectPreservesInvariant` | pagespeed/system/redis_cache.h:57-59 | Reconnect keeps the invariant: a handle exists only after a successful latest attempt, and the window ends delay after a failed one |
| `Policy.StartUpPreservesInvariant` | pagespeed/system/redis_cache.h:55-64 | StartUp keeps the invariant |
| `Policy.ExecutePreservesInvariant` | pagespeed/system/redis_cache.h:60-61 | executing a command keeps the invariant |
| `Traces.Apply` | pagespeed/system/redis_cache.h:64-79 | every public operation makes at most one connection attempt and never rewrites earlier ones |
| `Traces.RunPreservesInvariant` | pagespeed/system/redis_cache.h:109-116 | the invariant holds after any sequence of operations |
| `Traces.ReachableRespectsBackoff` | pagespeed/system/redis_cache.h:57-59 | from construction on, under any operations, times and server answers, the attempt after a failed attempt comes at least the delay later |
| `Traces.NoConnectWhileStopped` | pagespeed/system/redis_cache.h:55-56 | while the cache is not started up, no operation other than StartUp connects, and the cache stays unhealthy |
| `Traces.NoConnectBeforeStartUp` | pagespeed/system/redis_cache.h:64 | before StartUp no connection is attempted and the cache is unhealthy |
| `Traces.NoConnectAfterShutDown` | pagespeed/system/redis_cache.h:79 | after ShutDown no connection is attempted, and the cache is unhealthy, until StartUp is called again |
| `Traces.ShutDownIdempotent` | pagespeed/system/redis_cache.h:53 | a second ShutDown, as the destructor makes after an explicit call, changes nothing |
| `Traces.BackoffWindowBlocks` | pagespeed/system/redis_cache.h:114-115 | while disconnected, operations made before next_reconnect_at_ms_ make no attempt and change neither the window nor the connection |
| `Traces.FailedAttemptBlocksUntilDelay` | pagespeed/system/redis_cache.h:57-59 | after an operation whose attempt at time t failed, operations before t + delay make no further attempt |
| `Traces.OneAttemptOnceWindowPassed` | pagespeed/system/redis_cache.h:87 | on a started-up, disconnected cache whose window has passed, the next Get/Put/Delete/FlushAll makes exactly one attempt |
| `Traces.ImmediateReconnectAfterError` | pagespeed/system/redis_cache.h:60-63 | a command failing on a healthy connection frees the handle and leaves the window; the very next command attempts a reconnect however little time has passed |
| `Cache.RedisCache.constructor` | pagespeed/system/redis_cache.h:50-52 | host, port and delay are stored (they are `const` and never change) and the state is the initial one |
| `Cache.RedisCache.FormatName` | pagespeed/system/redis_cache.h:81 | the name is "RedisCache" |
| `Cache.RedisCache.Name` | pagespeed/system/redis_cache.h:76 | Name is FormatName, that is "RedisCache" |
| `Cache.RedisCache.IsBlocking` | pagespeed/system/redis_cache.h:77 | always true |
| `Cache.RedisCache.IsHealthyLockHeld` | pagespeed/system/redis_cache.h:88 | true iff the cache is started up and holds a connection |
| `Cache.RedisCache.IsHealthy` | pagespeed/system/redis_cache.h:78 | a read-only function that cannot connect; healthy implies connected and started up; in a valid state, unhealthy implies no handle |
| `Cache.RedisCache.FreeRedisContext` | pagespeed/system/redis_cache.h:89 | the new state is Policy.FreeRedisContext of the old one, and the invariant is kept |
| `Cache.RedisCache.Reconnect` | pagespeed/system/redis_cache.h:87 | the new state and the result are those of Policy.Reconnect, and the invariant is kept |
| `Cache.RedisCache.StartUp` | pagespeed/system/redis_cache.h:55-64 | the new state is Policy.StartUp of the old one, and the invariant is kept |
| `Cache.RedisCache.ValidateRedisReply` | pagespeed/system/redis_cache.h:102-105 | accepts iff a reply arrived and its type is in valid_types; on rejection frees the handle, otherwise changes nothing; the invariant is kept |
| `Cache.RedisCache.ExecuteCommand` | pagespeed/system/redis_cache.h:98-99 | the new state and the reply are those of Policy.Execute, and the invariant is kept |
| `Cache.RedisCache.Get` | pagespeed/system/redis_cache.h:69-70 | state as Policy.Execute for GET; reports Found(bytes) iff an accepted string reply carried those bytes, and NotFound for both a nil reply and a failure |
| `Cache.RedisCache.Put` | pagespeed/system/redis_cache.h:71-72 | state as Policy.Execute for SET; no result is reported to the caller |
| `Cache.RedisCache.Delete` | pagespeed/system/redis_cache.h:73 | state as Policy.Execute for DEL; no result is reported to the caller |
| `Cache.RedisCache.FlushAll` | pagespeed/system/redis_cache.h:83-84 | state as Policy.Execute for FLUSHALL; true iff a status reply was accepted |
| `Cache.RedisCache.ShutDown` | pagespeed/system/redis_cache.h:79 | the new state is Policy.ShutDown of the old one, and the invariant is kept |

## Left out

- The hiredis wire protocol, `redisContext`/`redisReply` internals and the
  varargs formatting of `RedisCommand`. This is a foreign library, so the
  model has only a connect outcome and a reply.
- The keys, and the values of Put. The reply oracle stands for the server's
  answer, so the data semantics of stored values are not modelled: a Put
  followed by a Get returning the same value, and FlushAll emptying the
  store. These belong to the Redis server.
- The mutex and the thread-safety annotations. Each public method is
  modelled as one atomic step, which is what the single lock provides.
- `MessageHandler` logging and `LogRedisContextError`. These are
  diagnostics only.
- `Timer` internals. The time is a parameter, and nothing forces it to be
  monotone. Two statements depend on a monotone clock: the immediate
  reconnect after an error (`Traces.ImmediateReconnectAfterError` asks for it
  as a precondition) and the first StartUp connecting (it must read a time
  no earlier than construction, as `Policy.Init` states).
- The `int64` width of times and of `next_reconnect_at_ms_`. The model uses
  unbounded integers, so an overflow of `now + reconnection_delay_ms_` is
  not modelled.
- The `SharedString` and `Callback` payload handling. `Get` returns its
  single callback outcome as a value.
- AUTH, connection and operation timeouts, and statistics. The source marks
  these as TODOs; they are not implemented.
- Ownership and freeing of hiredis objects (`RedisReplyDeleter`). A dropped
  handle is modelled only as "absent".
