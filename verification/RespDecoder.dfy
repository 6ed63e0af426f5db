/** The request decoder as the connection task runs it. */
module RespDecoding {
  import opened Wire
  import opened Framing
  import opened Requests

  /** A buffer fed by the socket; `framer` stands for `parse_command`. */
  class RespDecoder<C, E> {
    const framer: Framer<C, E>
    var buf: Bytes

    constructor (framer: Framer<C, E>)
      ensures buf == [] && this.framer == framer
    {
      this.framer := framer;
      buf := [];
    }

    method Feed(bytes: Bytes)
      modifies this
      ensures buf == old(buf) + bytes
    {
      buf := buf + bytes;
    }

    /** Take one command off the front, if the buffer holds one. */
    method NextCommand() returns (p: Parse<C, E>)
      requires framer.Bounded()
      modifies this
      ensures p == framer.parse(old(buf))
      ensures p.Done? ==> 1 <= p.used <= |old(buf)| && buf == old(buf)[p.used..]
      ensures !p.Done? ==> buf == old(buf)
    {
      p := framer.parse(buf);
      if p.Done? {
        buf := buf[p.used..];
      }
    }
  }

  /** Take commands off the buffer until it needs more bytes or is malformed. */
  method DrainBuffer<C, E>(decoder: RespDecoder<C, E>) returns (commands: seq<C>, error: Option<E>)
    requires decoder.framer.Bounded()
    modifies decoder
    ensures Decoded(commands, error, decoder.buf) == decoder.framer.Drain(old(decoder.buf))
  {
    ghost var framer := decoder.framer;
    ghost var whole := framer.Drain(decoder.buf);
    commands := [];
    while true
      invariant commands + framer.Drain(decoder.buf).commands == whole.commands
      invariant framer.Drain(decoder.buf).error == whole.error && framer.Drain(decoder.buf).rest == whole.rest
      decreases |decoder.buf|
    {
      var p := decoder.NextCommand();
      match p
      case NeedMore => return commands, None;
      case Done(command, _) => commands := commands + [command];
      case Fail(e) => return commands, Some(e);
    }
  }

  /** The read side of a connection: feed each chunk, drain all complete commands,
      stop at the first protocol error. */
  method DecodeConnection<C, E>(framer: Framer<C, E>, chunks: seq<Bytes>)
      returns (commands: seq<C>, error: Option<E>, rest: Bytes)
    requires framer.Bounded()
    ensures Decoded(commands, error, rest) == framer.DecodeChunks(chunks)
  {
    var decoder := new RespDecoder(framer);
    commands, error := [], None;
    for i := 0 to |chunks|
      invariant fresh(decoder) && decoder.framer == framer
      invariant error.None? && Decoded(commands, error, decoder.buf) == framer.DecodeChunks(chunks[..i])
    {
      ChunkStep(framer, chunks, i);
      decoder.Feed(chunks[i]);
      var more;
      more, error := DrainBuffer(decoder);
      commands := commands + more;
      if error.Some? {
        StopsAtError(framer, chunks, i);
        return commands, error, decoder.buf;
      }
    }
    assert chunks[..|chunks|] == chunks;
    rest := decoder.buf;
  }

  /** A Resp2(room) client connection: what it delivers is what the whole byte stream
      decodes to in one piece. */
  method DecodeRequests(room: nat, chunks: seq<Bytes>) returns (commands: seq<seq<Bytes>>, error: Option<ProtocolError>)
    ensures Resp2(room).AsFramer().Bounded()
    ensures commands == Resp2(room).AsFramer().Drain(Concat(chunks)).commands
    ensures error == Resp2(room).AsFramer().Drain(Concat(chunks)).error
  {
    Resp2(room).IsIncremental();
    Resp2(room).AsFramer().ChunkingIsInvisible(chunks);
    var rest;
    commands, error, rest := DecodeConnection(Resp2(room).AsFramer(), chunks);
  }

  lemma ChunkStep<C, E>(framer: Framer<C, E>, chunks: seq<Bytes>, i: nat)
    requires framer.Bounded() && i < |chunks|
    ensures framer.DecodeChunks(chunks[..i + 1]) == framer.FeedDrain(framer.DecodeChunks(chunks[..i]), chunks[i])
  {
    assert chunks[..i + 1][..i] == chunks[..i];
  }

  /** After an error later chunks are not read. */
  lemma {:induction false} StopsAtError<C, E>(framer: Framer<C, E>, chunks: seq<Bytes>, i: nat)
    requires framer.Bounded() && i < |chunks|
    requires framer.DecodeChunks(chunks[..i + 1]).error.Some?
    ensures framer.DecodeChunks(chunks) == framer.DecodeChunks(chunks[..i + 1])
    decreases |chunks|
  {
    if i + 1 == |chunks| {
      assert chunks[..i + 1] == chunks;
    } else {
      var before := chunks[..|chunks| - 1];
      assert before[..i + 1] == chunks[..i + 1];
      StopsAtError(framer, before, i);
    }
  }
}
