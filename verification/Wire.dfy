/** The values that travel between the components: byte strings, RESP reply
    trees, replicated write operations, and the store contract. */
module Wire {

  type Byte = b: int | 0 <= b < 256

  type Bytes = seq<Byte>

  /** A ring position / node id. */
  type ProcId = nat

  datatype Option<+T> = None | Some(value: T)

  /** A RESP2 reply tree. `Simple` and `Error` carry the UTF-8 bytes of the text. */
  datatype Reply =
    | Simple(text: Bytes)
    | Error(text: Bytes)
    | Integer(n: int)
    | Bulk(data: Bytes)
    | Nil
    | NilArray
    | Array(items: seq<Reply>)

  /** A decoded command: the upper-cased name and the raw argument vector. */
  datatype Command = Command(name: string, argv: seq<Bytes>)

  /** The unit broadcast for one mutating command. */
  datatype WriteOp = WriteOp(origin: ProcId, requestId: nat, argv: seq<Bytes>, clientReply: Option<Reply>)

  /** What the ring hands to a node: a decodable operation, or bytes from a
      foreign broadcaster that do not decode as one. */
  datatype Payload = Op(op: WriteOp) | Garbage

  /** The identity used for at-least-once dedup. */
  type OpKey = (ProcId, nat)

  function Key(op: WriteOp): OpKey {
    (op.origin, op.requestId)
  }

  function Keys(ops: seq<WriteOp>): set<OpKey> {
    set i | 0 <= i < |ops| :: Key(ops[i])
  }

  /** The store contract (the `RedisStore` trait): a deterministic state machine
      over store states `S`. Everything about replication is proved for every
      such machine. */
  datatype Machine<!S> = Machine(
    init: S,
    apply: (S, Command) -> (S, Reply),
    query: (S, Command) -> Reply)

  /** Text as bytes, one byte a character. */
  function Ascii(s: string): Bytes {
    seq(|s|, i requires 0 <= i < |s| => s[i] as int % 256)
  }
}
