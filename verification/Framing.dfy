/** Incremental decoding in general: a parser that looks at a buffer and either
    needs more, fails, or takes a command off the front. */
module Framing {
  import opened Wire

  /** `Done(command, used)`: a complete command and the bytes it took. */
  datatype Parse<C, E> = NeedMore | Fail(error: E) | Done(command: C, used: nat)

  /** What a connection produces from a byte stream: the commands up to the first
      error, then the error, or the bytes left over. */
  datatype Decoded<C, E> = Decoded(commands: seq<C>, error: Option<E>, rest: Bytes)

  function Concat(chunks: seq<Bytes>): Bytes {
    if chunks == [] then [] else Concat(chunks[..|chunks| - 1]) + chunks[|chunks| - 1]
  }

  datatype Framer<C, E> = Framer(parse: Bytes -> Parse<C, E>) {

    /** More bytes never change a verdict. */
    ghost predicate Stable() {
      forall b, more :: !parse(b).NeedMore? ==> parse(b + more) == parse(b)
    }

    /** A command takes at least one byte, all of them present. */
    ghost predicate Bounded() {
      parse([]).NeedMore? && forall b :: parse(b).Done? ==> 1 <= parse(b).used <= |b|
    }

    /** Decode everything a buffer holds. */
    function Drain(b: Bytes): Decoded<C, E>
      requires Bounded()
      decreases |b|
    {
      match parse(b)
      case NeedMore => Decoded([], None, b)
      case Fail(e) => Decoded([], Some(e), b)
      case Done(command, used) =>
        var d := Drain(b[used..]);
        d.(commands := [command] + d.commands)
    }

    /** Feed one more chunk to a connection; after an error it is closed. */
    function FeedDrain(d: Decoded<C, E>, chunk: Bytes): Decoded<C, E>
      requires Bounded()
    {
      if d.error.Some? then d else
        var d' := Drain(d.rest + chunk);
        Decoded(d.commands + d'.commands, d'.error, d'.rest)
    }

    function DecodeChunks(chunks: seq<Bytes>): Decoded<C, E>
      requires Bounded()
    {
      if chunks == [] then Decoded([], None, [])
      else FeedDrain(DecodeChunks(chunks[..|chunks| - 1]), chunks[|chunks| - 1])
    }

    /** A command is recognised at its last byte and no earlier. */
    lemma ProperPrefixNeedsMore(b: Bytes, k: nat)
      requires Stable() && Bounded()
      requires parse(b).Done? && k < parse(b).used
      ensures k <= |b| && parse(b[..k]).NeedMore?
    {
      assert b[..k] + b[k..] == b;
    }

    /** Draining, then feeding more, is draining the whole. */
    lemma {:induction false} DrainAppend(b: Bytes, more: Bytes)
      requires Stable() && Bounded()
      ensures var d := Drain(b);
              var whole := Drain(b + more);
              if d.error.Some? then whole.commands == d.commands && whole.error == d.error
              else whole == FeedDrain(d, more)
      decreases |b|
    {
      if !parse(b).NeedMore? {
        assert parse(b + more) == parse(b);
        if parse(b).Done? {
          var rest := b[parse(b).used..];
          assert (b + more)[parse(b).used..] == rest + more;
          DrainAppend(rest, more);
          assert Drain(b) == Drain(rest).(commands := [parse(b).command] + Drain(rest).commands);
          Prepend(Drain(rest), parse(b).command, more);
        }
      }
    }

    /** Commands decoded earlier stay in front. */
    lemma Prepend(d: Decoded<C, E>, command: C, more: Bytes)
      requires Bounded()
      ensures FeedDrain(d.(commands := [command] + d.commands), more) ==
              FeedDrain(d, more).(commands := [command] + FeedDrain(d, more).commands)
    {
      if d.error.None? {
        var d' := Drain(d.rest + more);
        assert [command] + d.commands + d'.commands == [command] + (d.commands + d'.commands);
      }
    }

    /** For every byte stream, malformed ones included, and every way of cutting it
        into chunks: the same commands before the first error, the same error, and
        (without an error) the same bytes left over as decoding it in one piece. */
    lemma {:induction false} ChunkingIsInvisible(chunks: seq<Bytes>)
      requires Stable() && Bounded()
      ensures DecodeChunks(chunks).commands == Drain(Concat(chunks)).commands
      ensures DecodeChunks(chunks).error == Drain(Concat(chunks)).error
      ensures DecodeChunks(chunks).error.None? ==> DecodeChunks(chunks) == Drain(Concat(chunks))
    {
      if chunks != [] {
        var before := chunks[..|chunks| - 1];
        ChunkingIsInvisible(before);
        DrainAppend(Concat(before), chunks[|chunks| - 1]);
      }
    }
  }
}
