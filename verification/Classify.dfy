/** Routing of commands: reads, replicable writes, writes to be resolved first. */
module Classify {
  import opened Wire
  import opened Store
  import opened Effects
  import opened StoreCommands

  datatype Class = ReadOnly | DeterministicWrite | NonDeterministic | Unsupported

  predicate IsRead(name: string) {
    || name == "PING" || name == "ECHO" || name == "COMMAND" || name == "HELLO" || name == "GET"
    || name == "MGET" || name == "STRLEN" || name == "GETRANGE" || name == "SUBSTR" || name == "EXISTS"
    || name == "TYPE" || name == "TTL" || name == "PTTL" || name == "KEYS" || name == "DBSIZE"
    || name == "HGET" || name == "HMGET" || name == "HGETALL" || name == "HKEYS" || name == "HVALS"
    || name == "HLEN" || name == "HEXISTS" || name == "HSTRLEN" || name == "LLEN" || name == "LRANGE"
    || name == "LINDEX" || name == "SCARD" || name == "SMEMBERS" || name == "SISMEMBER" || name == "ZCARD"
    || name == "ZSCORE" || name == "ZRANGE" || name == "GETBIT" || name == "BITCOUNT"
    || name == "SRANDMEMBER" || name == "RANDOMKEY" || name == "TIME" || name == "SCAN" || name == "HSCAN"
    || name == "SSCAN" || name == "ZSCAN"
  }

  predicate IsWrite(name: string) {
    || name == "SET" || name == "SETNX" || name == "SETEX" || name == "PSETEX" || name == "GETSET"
    || name == "GETDEL" || name == "MSET" || name == "MSETNX" || name == "APPEND" || name == "SETRANGE"
    || name == "SETBIT" || name == "DEL" || name == "UNLINK" || name == "INCR" || name == "INCRBY"
    || name == "DECR" || name == "DECRBY" || name == "EXPIRE" || name == "PEXPIRE" || name == "EXPIREAT"
    || name == "PEXPIREAT" || name == "PERSIST" || name == "RENAME" || name == "RENAMENX" || name == "COPY"
    || name == "HSET" || name == "HSETNX" || name == "HMSET" || name == "HDEL" || name == "HINCRBY"
    || name == "SADD" || name == "SREM" || name == "SMOVE" || name == "LPUSH" || name == "RPUSH"
    || name == "LPOP" || name == "RPOP" || name == "LSET" || name == "LREM" || name == "ZADD"
    || name == "ZREM" || name == "ZINCRBY" || name == "FLUSHDB" || name == "FLUSHALL"
  }

  predicate IsResolved(name: string) {
    || name == "SPOP" || name == "INCRBYFLOAT" || name == "HINCRBYFLOAT"
  }

  function ClassOf(name: string): Class {
    if IsRead(name) then ReadOnly
    else if IsWrite(name) then DeterministicWrite
    else if IsResolved(name) then NonDeterministic
    else Unsupported
  }

  /** Resolution of a non-deterministic write; the two float commands are resolved
      by `floats`, whose arithmetic is not modelled. */
  function Resolve<S>(m: Machine<S>, rules: Rules, floats: (S, Command) -> Resolution, s: S, cmd: Command): Resolution {
    if cmd.name == "SPOP" then ResolveSpop(m, rules, s, cmd.argv) else floats(s, cmd)
  }

  /** Every write of the in-memory store is broadcast as it is; SPOP is not. */
  lemma StoreWritesAreDeterministic(name: string)
    requires IsStoreWrite(name)
    ensures ClassOf(name) == DeterministicWrite
  {
  }

  lemma SpopIsResolved<S>(m: Machine<S>, rules: Rules, floats: (S, Command) -> Resolution, s: S, argv: seq<Bytes>)
    ensures ClassOf("SPOP") == NonDeterministic
    ensures Resolve(m, rules, floats, s, Command("SPOP", argv)) == ResolveSpop(m, rules, s, argv)
  {
  }
}
