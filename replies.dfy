/** Replies of the Redis server as the hiredis library hands them over, and the
    check RedisCache applies to them before using one (ValidateRedisReply). */
module Replies {

  datatype Option<T> = None | Some(value: T)

  /** The reply kinds hiredis distinguishes (its REDIS_REPLY_* tags). */
  datatype ReplyType = StringType | ArrayType | IntegerType | NilType | StatusType | ErrorType

  /** A reply with its payload. `None` in place of a reply stands for hiredis
      returning no reply object at all: a communication error. */
  datatype Reply =
    | StringReply(bytes: seq<bv8>)
    | ArrayReply(elements: seq<Reply>)
    | IntegerReply(n: int)
    | NilReply
    | StatusReply(status: string)
    | ErrorReply(message: string)

  function TypeOf(r: Reply): ReplyType
  {
    match r
    case StringReply(_) => StringType
    case ArrayReply(_) => ArrayType
    case IntegerReply(_) => IntegerType
    case NilReply => NilType
    case StatusReply(_) => StatusType
    case ErrorReply(_) => ErrorType
  }

  /** The decision of ValidateRedisReply: a reply is usable only if one arrived
      and its type is one of the types the executed command may return. */
  predicate IsValidReply(reply: Option<Reply>, validTypes: set<ReplyType>)
  {
    reply.Some? && TypeOf(reply.value) in validTypes
  }

  /** The commands RedisCache sends: GET for Get, SET for Put, DEL for Delete
      and FLUSHALL for FlushAll. */
  datatype Command = Get | Set | Del | FlushAll

  /** The reply types each command accepts. No command accepts an error
      reply, so a Redis-reported error always counts as a failed command. */
  function ValidTypes(cmd: Command): (types: set<ReplyType>)
    ensures ErrorType !in types && ArrayType !in types
    ensures cmd == Get <==> NilType in types
    ensures StringType in types <==> cmd == Get
  {
    match cmd
    case Get => {StringType, NilType}
    case Set => {StatusType}
    case Del => {IntegerType}
    case FlushAll => {StatusType}
  }
}
