/** RESP2 replies: the encoder and the blocking reader. */
module Replies {
  import opened Wire
  import opened Text
  import opened Requests

  /** `OutOfMemory` stands for the panic or abort when the room that a length asks for
      is refused. */
  datatype ReadError = Eof | EmptyLine | BadInteger | ShortRead | OutOfMemory | UnknownMarker(marker: Byte)

  /** A value read from the front of the input, and the input left; or an error. */
  datatype ReadResult<T> = Got(value: T, rest: Bytes) | Failed(error: ReadError)

  const PLUS: Byte := 43
  const MINUS: Byte := 45
  const COLON: Byte := 58

  // ---------- the encoder ----------

  function WireLine(marker: Byte, text: Bytes): Bytes {
    [marker] + text + CRLF
  }

  function Encode(r: Reply): Bytes {
    match r
    case Simple(t) => WireLine(PLUS, t)
    case Error(t) => WireLine(MINUS, t)
    case Integer(i) => WireLine(COLON, Format(i))
    case Bulk(d) => WireLine(DOLLAR, Format(|d|)) + (d + CRLF)
    case Nil => WireLine(DOLLAR, Format(-1))
    case NilArray => WireLine(STAR, Format(-1))
    case Array(items) => WireLine(STAR, Format(|items|)) + EncodeAll(items)
  }

  function EncodeAll(items: seq<Reply>): Bytes {
    if items == [] then [] else Encode(items[0]) + EncodeAll(items[1..])
  }

  /** `Reply::encode`: append the encoding to a buffer. */
  method EncodeInto(r: Reply, out: Bytes) returns (grown: Bytes)
    ensures grown == out + Encode(r)
    decreases r
  {
    match r
    case Simple(t) => grown := out + WireLine(PLUS, t);
    case Error(t) => grown := out + WireLine(MINUS, t);
    case Integer(i) => grown := out + WireLine(COLON, Format(i));
    case Bulk(d) => grown := out + (WireLine(DOLLAR, Format(|d|)) + (d + CRLF));
    case Nil => grown := out + WireLine(DOLLAR, Format(-1));
    case NilArray => grown := out + WireLine(STAR, Format(-1));
    case Array(items) =>
      var head := WireLine(STAR, Format(|items|));
      grown := EncodeItemsInto(items, out + head);
      assert (out + head) + EncodeAll(items) == out + (head + EncodeAll(items));
  }

  method EncodeItemsInto(items: seq<Reply>, out: Bytes) returns (grown: Bytes)
    ensures grown == out + EncodeAll(items)
    decreases items
  {
    grown := out;
    for i := 0 to |items|
      invariant grown + EncodeAll(items[i..]) == out + EncodeAll(items)
    {
      var before := grown;
      grown := EncodeInto(items[i], grown);
      assert items[i..][1..] == items[i + 1..];
      assert grown + EncodeAll(items[i + 1..]) == before + (Encode(items[i]) + EncodeAll(items[i + 1..]));
    }
  }

  /** The bytes of each kind of reply on the wire. */
  lemma ReplyBytes(t: Bytes, n: nat, d: Bytes, r: Reply, items: seq<Reply>)
    ensures Encode(Simple(t)) == Ascii("+") + t + Ascii("\r\n")
    ensures Encode(Error(t)) == Ascii("-") + t + Ascii("\r\n")
    ensures Encode(Integer(n)) == Ascii(":") + Dec(n) + Ascii("\r\n")
    ensures n > 0 ==> Encode(Integer(0 - n)) == Ascii(":-") + Dec(n) + Ascii("\r\n")
    ensures Encode(Bulk(d)) == Ascii("$") + Dec(|d|) + Ascii("\r\n") + d + Ascii("\r\n")
    ensures Encode(Nil) == Ascii("$-1\r\n") && Encode(NilArray) == Ascii("*-1\r\n")
    ensures Encode(Array(items)) == Ascii("*") + Dec(|items|) + Ascii("\r\n") + EncodeAll(items)
    ensures EncodeAll([]) == [] && EncodeAll([r] + items) == Encode(r) + EncodeAll(items)
  {
    assert Ascii("+") == [PLUS] && Ascii("-") == [MINUS] && Ascii(":") == [COLON];
    assert Ascii(":-") == [COLON] + [45];
    assert Ascii("*") == [STAR] && Ascii("$") == [DOLLAR] && Ascii("\r\n") == CRLF;
    assert Dec(1) == [49] && Format(-1) == [45] + Dec(1);
    assert Ascii("$-1\r\n") == [DOLLAR] + [45, 49] + CRLF;
    assert Ascii("*-1\r\n") == [STAR] + [45, 49] + CRLF;
    assert ([r] + items)[1..] == items;
  }

  // ---------- the values in question ----------

  /** Every reply of the source type: UTF-8 texts, 64-bit integers, machine sizes. */
  ghost predicate Representable(r: Reply) {
    match r
    case Simple(t) => ValidUtf8(t)
    case Error(t) => ValidUtf8(t)
    case Integer(i) => MIN_I64 <= i <= MAX_I64
    case Bulk(d) => |d| <= MAX_I64
    case Nil => true
    case NilArray => true
    case Array(items) => |items| <= MAX_I64 && forall r :: r in items ==> Representable(r)
  }

  // ---------- reading a line ----------

  function StripEol(line: Bytes): Bytes {
    if line != [] && (line[|line| - 1] == LF || line[|line| - 1] == CR) then StripEol(line[..|line| - 1])
    else line
  }

  /** Bytes up to and including the first LF, or everything. */
  function LineEnd(b: Bytes): (e: nat)
    ensures e <= |b| && (b != [] ==> e > 0)
  {
    match FindLf(b, 0)
    case None => |b|
    case Some(i) => i + 1
  }

  lemma {:induction false} StripEolClean(line: Bytes)
    requires NoLf(line[..if line == [] then 0 else |line| - 1])
    ensures CleanLine(StripEol(line))
    ensures StripEol(line) <= line
  {
    if line != [] && (line[|line| - 1] == LF || line[|line| - 1] == CR) {
      StripEolClean(line[..|line| - 1]);
    }
  }

  lemma {:induction false} FindLfFirst(b: Bytes, from: nat)
    ensures forall i :: from <= i < (if FindLf(b, from).Some? then FindLf(b, from).value else |b|) ==> b[i] != LF
    decreases |b| - from
  {
    if from < |b| && b[from] != LF {
      FindLfFirst(b, from + 1);
    }
  }

  lemma {:induction false} StripCrs(line: Bytes, crs: Bytes)
    requires CleanLine(line) && forall i :: 0 <= i < |crs| ==> crs[i] == CR
    ensures StripEol(line + crs) == line
  {
    if crs == [] {
      assert line + crs == line;
    } else {
      StripCrs(line, crs[..|crs| - 1]);
      assert (line + crs)[..|line + crs| - 1] == line + crs[..|crs| - 1];
    }
  }

  /** A line as read holds no LF and does not end in CR. */
  lemma LineIsClean(b: Bytes)
    ensures CleanLine(StripEol(b[..LineEnd(b)]))
  {
    FindLfFirst(b, 0);
    StripEolClean(b[..LineEnd(b)]);
  }

  lemma {:induction false} FindLfAt(b: Bytes, from: nat, e: nat)
    requires from <= e < |b| && b[e] == LF && forall i :: from <= i < e ==> b[i] != LF
    ensures FindLf(b, from) == Some(e)
    decreases e - from
  {
    if from < e {
      FindLfAt(b, from + 1, e);
    }
  }

  /** An encoded line with a clean text is read back as marker and text. */
  lemma LineRead(marker: Byte, text: Bytes, rest: Bytes)
    requires marker != LF && marker != CR && CleanLine(text)
    ensures var b := WireLine(marker, text) + rest;
            && b != [] && LineEnd(b) == |text| + 3
            && StripEol(b[..LineEnd(b)]) == [marker] + text
            && b[LineEnd(b)..] == rest
  {
    var b := WireLine(marker, text) + rest;
    var core := [marker] + text;
    assert b == core + [CR] + [LF] + rest;
    FindLfAt(b, 0, |core| + 1);
    assert b[..LineEnd(b)] == core + [CR] + [LF];
    assert (core + [CR] + [LF])[..|core| + 1] == core + [CR];
    assert (core + [CR])[..|core|] == core;
    assert StripEol(core + [CR] + [LF]) == StripEol(core + [CR]) == StripEol(core);
    assert StripEol(core) == core;
  }

  // ---------- reading a reply ----------

  /** The reader, over the way integers are read and the largest byte count and item
      count that the allocator serves. */
  datatype Reader = Reader(readInt: Bytes -> Option<int>, bulkRoom: nat, itemRoom: nat) {

    /** No text in the tree holds an LF or ends in a CR, and there is room for every
        bulk string (with its CRLF) and every array. */
    ghost predicate Readable(r: Reply) {
      match r
      case Simple(t) => CleanLine(t)
      case Error(t) => CleanLine(t)
      case Bulk(d) => |d| + 2 <= bulkRoom
      case Array(items) => |items| <= itemRoom && forall r :: r in items ==> Readable(r)
      case _ => true
    }

    function ReadReply(b: Bytes): (r: ReadResult<Reply>)
      ensures r.Got? ==> |r.rest| < |b|
      decreases |b|, 0
    {
      if b == [] then Failed(Eof) else
        var line, rest := StripEol(b[..LineEnd(b)]), b[LineEnd(b)..];
        if line == [] then Failed(EmptyLine) else ReadBody(line[0], line[1..], rest)
    }

    /** What follows a marker: nothing more, a payload, or elements. */
    function ReadBody(marker: Byte, body: Bytes, rest: Bytes): (r: ReadResult<Reply>)
      ensures r.Got? ==> |r.rest| <= |rest|
      decreases |rest|, 2
    {
      if marker == PLUS then Got(Simple(Lossy(body)), rest)
      else if marker == MINUS then Got(Error(Lossy(body)), rest)
      else if marker == COLON then
        match readInt(body)
        case None => Failed(BadInteger)
        case Some(i) => Got(Integer(i), rest)
      else if marker == DOLLAR then
        match readInt(body)
        case None => Failed(BadInteger)
        case Some(len) =>
          if len < 0 then Got(Nil, rest)
          else if len + 2 > bulkRoom then Failed(ReadError.OutOfMemory)
          else if |rest| < len + 2 then Failed(ShortRead)
          else Got(Bulk(rest[..len]), rest[len + 2..])
      else if marker == STAR then
        match readInt(body)
        case None => Failed(BadInteger)
        case Some(len) =>
          if len < 0 then Got(NilArray, rest)
          else if len > itemRoom then Failed(ReadError.OutOfMemory)
          else
            match ReadItems(len, rest)
            case Failed(e) => Failed(e)
            case Got(items, rest') => Got(Array(items), rest')
      else Failed(UnknownMarker(marker))
    }

    function ReadItems(n: nat, b: Bytes): (r: ReadResult<seq<Reply>>)
      ensures r.Got? ==> |r.rest| <= |b|
      decreases |b|, 1
    {
      if n == 0 then Got([], b) else
        match ReadReply(b)
        case Failed(e) => Failed(e)
        case Got(item, rest) =>
          match ReadItems(n - 1, rest)
          case Failed(e) => Failed(e)
          case Got(items, rest') => Got([item] + items, rest')
    }

    /** Items read earlier, in front of those still to come. */
    function InFront(items: seq<Reply>, r: ReadResult<seq<Reply>>): ReadResult<seq<Reply>> {
      match r
      case Failed(e) => Failed(e)
      case Got(more, rest) => Got(items + more, rest)
    }

    /** `read_reply`, with the loop over array elements. */
    method ReadNext(b: Bytes) returns (r: ReadResult<Reply>)
      ensures r == ReadReply(b)
      decreases |b|
    {
      if b == [] {
        return Failed(Eof);
      }
      var line, rest := StripEol(b[..LineEnd(b)]), b[LineEnd(b)..];
      if line == [] {
        return Failed(EmptyLine);
      }
      if line[0] != STAR {
        return ReadBody(line[0], line[1..], rest);
      }
      var number := readInt(line[1..]);
      if number.None? {
        return Failed(BadInteger);
      }
      if number.value < 0 {
        return Got(NilArray, rest);
      }
      if number.value > itemRoom {
        return Failed(ReadError.OutOfMemory);
      }
      var left: nat, items, cur := number.value, [], rest;
      InFrontNone(items, ReadItems(left, cur), cur);
      while left > 0
        invariant |cur| <= |rest| && ReadItems(number.value, rest) == InFront(items, ReadItems(left, cur))
        decreases left
      {
        var item := ReadNext(cur);
        match item
        case Failed(e) => return Failed(e);
        case Got(value, next) =>
          InFrontOne(items, value, ReadItems(left - 1, next));
          items, cur, left := items + [value], next, left - 1;
      }
      InFrontNone(items, ReadItems(0, cur), cur);
      r := Got(Array(items), cur);
    }

    lemma InFrontNone(items: seq<Reply>, r: ReadResult<seq<Reply>>, rest: Bytes)
      ensures InFront([], r) == r
      ensures InFront(items, Got([], rest)) == Got(items, rest)
    {
      if r.Got? {
        assert [] + r.value == r.value;
      }
      assert items + [] == items;
    }

    lemma InFrontOne(items: seq<Reply>, value: Reply, r: ReadResult<seq<Reply>>)
      ensures InFront(items, InFront([value], r)) == InFront(items + [value], r)
    {
      if r.Got? {
        assert items + ([value] + r.value) == items + [value] + r.value;
      }
    }

    /** Printed integers are read back. */
    ghost predicate ReadsPrinted() {
      forall n: int {:trigger readInt(Format(n))} :: MIN_I64 <= n <= MAX_I64 ==> readInt(Format(n)) == Some(n)
    }

    // ---------- every reply read is readable ----------

    lemma {:induction false} ReadIsReadable(b: Bytes)
      ensures ReadReply(b).Got? ==> Readable(ReadReply(b).value)
      decreases |b|, 0
    {
      if b != [] {
        var line, rest := StripEol(b[..LineEnd(b)]), b[LineEnd(b)..];
        LineIsClean(b);
        if line != [] {
          assert CleanLine(line[1..]);
          BodyIsReadable(line[0], line[1..], rest);
        }
      }
    }

    lemma {:induction false} BodyIsReadable(marker: Byte, body: Bytes, rest: Bytes)
      requires CleanLine(body)
      ensures ReadBody(marker, body, rest).Got? ==> Readable(ReadBody(marker, body, rest).value)
      decreases |rest|, 2
    {
      LossyKeepsClean(body);
      if marker == STAR && readInt(body).Some? && 0 <= readInt(body).value <= itemRoom {
        ItemsAreReadable(readInt(body).value, rest);
      }
    }

    lemma {:induction false} ItemsAreReadable(n: nat, b: Bytes)
      ensures ReadItems(n, b).Got? ==>
                |ReadItems(n, b).value| == n && forall r :: r in ReadItems(n, b).value ==> Readable(r)
      decreases |b|, 1
    {
      if n > 0 {
        ReadIsReadable(b);
        if ReadReply(b).Got? {
          ItemsAreReadable(n - 1, ReadReply(b).rest);
        }
      }
    }

    /** What the first line of the input, up to its LF, makes of it: nothing there, an
        empty line, a marker that is unknown, a number that is none, a payload that is
        cut short. CRs before the LF do not matter. */
    lemma ReplyVerdicts(line: Bytes, crs: Bytes, rest: Bytes)
      requires CleanLine(line) && forall i :: 0 <= i < |crs| ==> crs[i] == CR
      ensures ReadReply([]) == Failed(Eof)
      ensures var r := ReadReply(line + crs + [LF] + rest);
              if line == [] then r == Failed(EmptyLine)
              else if line[0] == PLUS then r == Got(Simple(Lossy(line[1..])), rest)
              else if line[0] == MINUS then r == Got(Error(Lossy(line[1..])), rest)
              else if line[0] !in [COLON, DOLLAR, STAR] then r == Failed(UnknownMarker(line[0]))
              else
                match readInt(line[1..])
                case None => r == Failed(BadInteger)
                case Some(n) =>
                  && (line[0] == COLON ==> r == Got(Integer(n), rest))
                  && (line[0] == DOLLAR && n < 0 ==> r == Got(Nil, rest))
                  && (line[0] == DOLLAR && 0 <= n <= bulkRoom - 2 && |rest| < n + 2 ==> r == Failed(ShortRead))
                  && (line[0] == DOLLAR && 0 <= n && n + 2 > bulkRoom ==> r == Failed(ReadError.OutOfMemory))
                  && (line[0] == STAR && n < 0 ==> r == Got(NilArray, rest))
                  && (line[0] == STAR && n > itemRoom ==> r == Failed(ReadError.OutOfMemory))
    {
      var b := line + crs + [LF] + rest;
      assert b == (line + crs) + [LF] + rest;
      FindLfAt(b, 0, |line + crs|);
      assert b[..LineEnd(b)] == line + crs + [LF];
      assert (line + crs + [LF])[..|line + crs|] == line + crs;
      StripCrs(line, crs);
      assert b[LineEnd(b)..] == rest;
    }

    // ---------- reading back what was encoded ----------

    lemma FormattedIsClean(n: int)
      ensures CleanLine(Format(n))
    {
      FormatShape(n);
    }

    lemma ScalarReadBack(r: Reply, rest: Bytes)
      requires ReadsPrinted() && Representable(r) && Readable(r) && !r.Array? && !r.Bulk?
      ensures ReadReply(Encode(r) + rest) == Got(r, rest)
    {
      match r
      case Simple(t) => LossyOfValid(t); AfterMarker(PLUS, t, rest);
      case Error(t) => LossyOfValid(t); AfterMarker(MINUS, t, rest);
      case Integer(i) => FormattedIsClean(i); AfterMarker(COLON, Format(i), rest);
      case Nil => FormattedIsClean(-1); AfterMarker(DOLLAR, Format(-1), rest);
      case NilArray => FormattedIsClean(-1); AfterMarker(STAR, Format(-1), rest);
    }

    lemma BulkReadBack(d: Bytes, rest: Bytes)
      requires ReadsPrinted() && |d| <= MAX_I64 && |d| + 2 <= bulkRoom
      ensures ReadReply(Encode(Bulk(d)) + rest) == Got(Bulk(d), rest)
    {
      FormattedIsClean(|d|);
      AfterMarker(DOLLAR, Format(|d|), d + CRLF + rest);
      assert Encode(Bulk(d)) + rest == WireLine(DOLLAR, Format(|d|)) + (d + CRLF + rest);
      assert (d + CRLF + rest)[..|d|] == d && (d + CRLF + rest)[|d| + 2..] == rest;
    }

    lemma {:induction false} ReplyReadBack(r: Reply, rest: Bytes)
      requires ReadsPrinted() && Representable(r) && Readable(r)
      ensures ReadReply(Encode(r) + rest) == Got(r, rest)
      decreases r, 1
    {
      match r
      case Bulk(d) => BulkReadBack(d, rest);
      case Array(items) =>
        FormattedIsClean(|items|);
        AfterMarker(STAR, Format(|items|), EncodeAll(items) + rest);
        assert Encode(r) + rest == WireLine(STAR, Format(|items|)) + (EncodeAll(items) + rest);
        ItemsReadBack(items, rest);
      case _ => ScalarReadBack(r, rest);
    }

    lemma AfterMarker(marker: Byte, text: Bytes, rest: Bytes)
      requires marker != LF && marker != CR && CleanLine(text)
      ensures ReadReply(WireLine(marker, text) + rest) == ReadBody(marker, text, rest)
    {
      LineRead(marker, text, rest);
      assert ([marker] + text)[1..] == text;
    }

    lemma {:induction false} ItemsReadBack(items: seq<Reply>, rest: Bytes)
      requires ReadsPrinted() && forall r :: r in items ==> Representable(r) && Readable(r)
      ensures ReadItems(|items|, EncodeAll(items) + rest) == Got(items, rest)
      decreases items, 0
    {
      if items == [] {
        assert EncodeAll(items) + rest == rest;
      } else {
        var tail := EncodeAll(items[1..]);
        assert EncodeAll(items) + rest == Encode(items[0]) + (tail + rest);
        ReplyReadBack(items[0], tail + rest);
        ItemsReadBack(items[1..], rest);
        assert [items[0]] + items[1..] == items;
      }
    }
  }

  /** The reader of the source. */
  function ReplyReader(bulkRoom: nat, itemRoom: nat): Reader {
    Reader(b => ParseI64(b), bulkRoom, itemRoom)
  }

  lemma ReaderReadsPrinted(bulkRoom: nat, itemRoom: nat)
    ensures ReplyReader(bulkRoom, itemRoom).ReadsPrinted()
  {
    forall n: int | MIN_I64 <= n <= MAX_I64
      ensures ReplyReader(bulkRoom, itemRoom).readInt(Format(n)) == Some(n)
    {
      ParseOfFormat(n);
    }
  }

  /** Reading an encoded reply followed by any bytes returns that reply and leaves
      those bytes, for exactly the readable reply trees. */
  lemma ReplyRoundTripIffReadable(bulkRoom: nat, itemRoom: nat, r: Reply)
    requires Representable(r)
    ensures var reader := ReplyReader(bulkRoom, itemRoom);
            reader.Readable(r) <==> forall rest :: reader.ReadReply(Encode(r) + rest) == Got(r, rest)
  {
    var reader := ReplyReader(bulkRoom, itemRoom);
    ReaderReadsPrinted(bulkRoom, itemRoom);
    if reader.Readable(r) {
      forall rest ensures reader.ReadReply(Encode(r) + rest) == Got(r, rest) {
        reader.ReplyReadBack(r, rest);
      }
    } else {
      reader.ReadIsReadable(Encode(r) + []);
      assert reader.ReadReply(Encode(r) + []) != Got(r, []);
    }
  }
}
