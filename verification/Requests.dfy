/** RESP2 requests: the incremental decoder and the request encoder. */
module Requests {
  import opened Wire
  import opened Text
  import opened Framing

  /** `OutOfMemory` is no error of the protocol: the decoder asks for room for all
      elements at once. A count whose size overflows panics, which ends the connection;
      an allocator that fails aborts the process. */
  datatype ProtocolError = BadMultibulkHeader | ExpectedBulk | BadBulkLength | MissingCrlf | OutOfMemory

  /** A decoded argument vector, a protocol error, or neither yet. */
  type Parsed = Parse<seq<Bytes>, ProtocolError>

  const STAR: Byte := 42
  const DOLLAR: Byte := 36
  const CRLF: Bytes := [CR, LF]

  // ---------- parsing one command ----------

  /** Position of the first CRLF at or after `from`. */
  function FindCrlf(b: Bytes, from: nat): (r: Option<nat>)
    ensures r.Some? ==> from <= r.value && r.value + 2 <= |b| && b[r.value] == CR && b[r.value + 1] == LF
    decreases |b| - from
  {
    if |b| < from + 2 then None
    else if b[from] == CR && b[from + 1] == LF then Some(from)
    else FindCrlf(b, from + 1)
  }

  /** A CRLF-terminated line that should be a marker byte and a number: still
      incomplete, or ending at `end` with the number, if it is one. */
  datatype Header = NoLine | Line(end: nat, marked: bool, number: Option<int>)

  datatype Element = Partial | Malformed(error: ProtocolError) | Read(data: Bytes, next: nat)

  /** Several elements in a row, and where the next one starts. */
  datatype Many = Stuck | Taken(items: seq<Bytes>, next: nat)

  /** `len` payload bytes at `body` and the CRLF behind them. */
  function ReadPayload(b: Bytes, body: nat, len: nat): (r: Element)
    requires body <= |b|
    ensures r.Read? ==> body < r.next <= |b|
  {
    if |b| - body < len + 2 then Partial
    else if b[body + len] != CR || b[body + len + 1] != LF then Malformed(MissingCrlf)
    else Read(b[body..body + len], body + len + 2)
  }

  function FindLf(b: Bytes, from: nat): (r: Option<nat>)
    ensures r.Some? ==> from <= r.value < |b| && b[r.value] == LF
    decreases |b| - from
  {
    if |b| <= from then None
    else if b[from] == LF then Some(from)
    else FindLf(b, from + 1)
  }

  predicate IsBlank(c: Byte) {
    c == 32 || c == 9
  }

  /** The non-empty runs between blanks; `word` is the run being read. */
  function Words(line: Bytes, word: Bytes): seq<Bytes>
    decreases |line|
  {
    if line == [] then if word == [] then [] else [word]
    else if IsBlank(line[0]) then (if word == [] then [] else [word]) + Words(line[1..], [])
    else Words(line[1..], word + [line[0]])
  }

  function DropCr(line: Bytes): Bytes {
    if line != [] && line[|line| - 1] == CR then line[..|line| - 1] else line
  }

  function ParseInline(b: Bytes): Parsed {
    match FindLf(b, 0)
    case None => NeedMore
    case Some(nl) => Done(Words(DropCr(b[..nl]), []), nl + 1)
  }

  // ---------- inline commands ----------

  ghost predicate Blanks(b: Bytes) {
    forall i :: 0 <= i < |b| ==> IsBlank(b[i])
  }

  /** A word: not empty, and free of blanks. */
  ghost predicate IsWord(w: Bytes) {
    w != [] && forall i :: 0 <= i < |w| ==> !IsBlank(w[i])
  }

  /** Words within blanks: `gaps[i]` stands before the i-th word, the last one at the end. */
  function Spread(gaps: seq<Bytes>, words: seq<Bytes>): Bytes
    requires |gaps| == |words| + 1
  {
    if words == [] then gaps[0] else gaps[0] + (words[0] + Spread(gaps[1..], words[1..]))
  }

  /** Blanks everywhere, and at least one between two words. */
  ghost predicate Separates(gaps: seq<Bytes>, words: seq<Bytes>) {
    && |gaps| == |words| + 1
    && (forall i :: 0 <= i < |gaps| ==> Blanks(gaps[i]))
    && (forall i :: 0 < i < |words| ==> gaps[i] != [])
    && (forall i :: 0 <= i < |words| ==> IsWord(words[i]))
  }

  lemma {:induction false} WordsSkipGap(gap: Bytes, rest: Bytes)
    requires Blanks(gap)
    ensures Words(gap + rest, []) == Words(rest, [])
  {
    if gap == [] {
      assert gap + rest == rest;
    } else {
      WordsSkipGap(gap[1..], rest);
      assert (gap + rest)[1..] == gap[1..] + rest;
    }
  }

  lemma {:induction false} WordsTakeWord(w: Bytes, rest: Bytes, word: Bytes)
    requires forall i :: 0 <= i < |w| ==> !IsBlank(w[i])
    ensures Words(w + rest, word) == Words(rest, word + w)
    decreases |w|
  {
    if w == [] {
      assert w + rest == rest && word + w == word;
    } else {
      WordsTakeWord(w[1..], rest, word + [w[0]]);
      assert (w + rest)[1..] == w[1..] + rest;
      assert word + [w[0]] + w[1..] == word + w;
    }
  }

  /** A word ends at a blank or at the end of the line. */
  lemma WordsEndWord(rest: Bytes, word: Bytes)
    requires word != [] && (rest != [] ==> IsBlank(rest[0]))
    ensures Words(rest, word) == [word] + Words(rest, [])
  {
    if rest != [] {
      assert Words(rest, []) == [] + Words(rest[1..], []);
    }
  }

  /** Splitting a line gives exactly its words, in order. */
  lemma {:induction false} WordsOfSpread(gaps: seq<Bytes>, words: seq<Bytes>)
    requires Separates(gaps, words)
    ensures Words(Spread(gaps, words), []) == words
    decreases |words|
  {
    if words == [] {
      WordsSkipGap(gaps[0], []);
      assert gaps[0] + [] == gaps[0];
    } else {
      var rest := Spread(gaps[1..], words[1..]);
      WordsSkipGap(gaps[0], words[0] + rest);
      WordsTakeWord(words[0], rest, []);
      assert [] + words[0] == words[0];
      if rest != [] {
        SpreadFront(gaps[1..], words[1..]);
      }
      WordsEndWord(rest, words[0]);
      WordsOfSpread(gaps[1..], words[1..]);
    }
  }

  lemma SpreadFront(gaps: seq<Bytes>, words: seq<Bytes>)
    requires |gaps| == |words| + 1 && Blanks(gaps[0]) && (words != [] ==> gaps[0] != [])
    ensures Spread(gaps, words) != [] ==> IsBlank(Spread(gaps, words)[0])
  {
  }

  lemma {:induction false} FindLfEnd(line: Bytes, rest: Bytes, from: nat)
    requires from <= |line| && forall i :: from <= i < |line| ==> line[i] != LF
    ensures FindLf(line + [LF] + rest, from) == Some(|line|)
    decreases |line| - from
  {
    if from < |line| {
      FindLfEnd(line, rest, from + 1);
    }
  }

  /** An inline command: words within blanks, ended by LF or CRLF. It is taken as exactly
      those words and takes exactly the line, whatever follows. */
  lemma InlineIsRead(gaps: seq<Bytes>, words: seq<Bytes>, eol: Bytes, rest: Bytes)
    requires Separates(gaps, words) && (eol == [LF] || eol == CRLF)
    requires var line := Spread(gaps, words);
             && (forall i :: 0 <= i < |line| ==> line[i] != LF)
             && (eol == [LF] && line != [] ==> line[|line| - 1] != CR)
    ensures ParseInline(Spread(gaps, words) + eol + rest) == Done(words, |Spread(gaps, words) + eol|)
  {
    var line := Spread(gaps, words);
    var b := line + eol + rest;
    WordsOfSpread(gaps, words);
    if eol == [LF] {
      FindLfEnd(line, rest, 0);
      assert b[..|line|] == line;
      assert DropCr(line) == line;
    } else {
      FindLfEnd(line + [CR], rest, 0);
      assert b == line + [CR] + [LF] + rest;
      assert b[..|line| + 1] == line + [CR];
      assert DropCr(line + [CR]) == line;
    }
  }

  /** Every line is made of such words and gaps. */
  lemma {:induction false} EveryLineSpreads(line: Bytes) returns (gaps: seq<Bytes>, words: seq<Bytes>)
    ensures Separates(gaps, words) && line == Spread(gaps, words)
  {
    if line == [] {
      gaps, words := [[]], [];
    } else {
      var gaps1, words1 := EveryLineSpreads(line[1..]);
      var c := line[0];
      assert line == [c] + line[1..];
      if IsBlank(c) {
        gaps, words := [[c] + gaps1[0]] + gaps1[1..], words1;
        assert gaps[1..] == gaps1[1..];
        assert Spread(gaps, words) == [c] + Spread(gaps1, words1);
      } else if words1 != [] && gaps1[0] == [] {
        gaps, words := gaps1, [[c] + words1[0]] + words1[1..];
        assert words[1..] == words1[1..];
        assert Spread(gaps, words) == [c] + Spread(gaps1, words1);
      } else {
        gaps, words := [[]] + gaps1, [[c]] + words1;
        assert gaps[1..] == gaps1 && words[1..] == words1;
      }
    }
  }

  // ---------- more bytes never change a verdict ----------

  lemma {:induction false} FindCrlfStable(b: Bytes, more: Bytes, from: nat)
    requires FindCrlf(b, from).Some?
    ensures FindCrlf(b + more, from) == FindCrlf(b, from)
    decreases |b| - from
  {
    if !(b[from] == CR && b[from + 1] == LF) {
      FindCrlfStable(b, more, from + 1);
    }
  }

  lemma {:induction false} FindLfStable(b: Bytes, more: Bytes, from: nat)
    requires FindLf(b, from).Some?
    ensures FindLf(b + more, from) == FindLf(b, from)
    decreases |b| - from
  {
    if b[from] != LF {
      FindLfStable(b, more, from + 1);
    }
  }

  lemma SliceStable(b: Bytes, more: Bytes, i: nat, j: nat)
    requires i <= j <= |b|
    ensures (b + more)[i..j] == b[i..j]
  {
  }

  lemma PayloadStable(b: Bytes, more: Bytes, body: nat, len: nat)
    requires body <= |b| && !ReadPayload(b, body, len).Partial?
    ensures ReadPayload(b + more, body, len) == ReadPayload(b, body, len)
  {
    SliceStable(b, more, body, body + len);
  }

  // ---------- the encoder ----------

  function EncodeBulk(a: Bytes): Bytes {
    [DOLLAR] + Format(|a|) + CRLF + a + CRLF
  }

  function EncodeArgs(argv: seq<Bytes>): Bytes {
    if argv == [] then [] else EncodeBulk(argv[0]) + EncodeArgs(argv[1..])
  }

  function EncodeRequest(argv: seq<Bytes>): Bytes {
    [STAR] + Format(|argv|) + CRLF + EncodeArgs(argv)
  }

  /** `encode_request`: header, then one element after the other. */
  method EncodeRequestInto(argv: seq<Bytes>) returns (out: Bytes)
    ensures out == EncodeRequest(argv)
  {
    out := [STAR] + Format(|argv|) + CRLF;
    ghost var head := out;
    for i := 0 to |argv|
      invariant out + EncodeArgs(argv[i..]) == head + EncodeArgs(argv)
    {
      var before := out;
      out := out + EncodeBulk(argv[i]);
      assert argv[i..][1..] == argv[i + 1..];
      assert out + EncodeArgs(argv[i + 1..]) == before + (EncodeBulk(argv[i]) + EncodeArgs(argv[i + 1..]));
    }
  }

  /** In a header line the first CRLF is the one that ends it. */
  lemma {:induction false} CrlfAfterHeader(b: Bytes, cur: nat, e: nat)
    requires cur <= e && e + 2 <= |b| && b[e] == CR && b[e + 1] == LF
    requires forall i :: cur <= i < e ==> b[i] != CR
    ensures FindCrlf(b, cur) == Some(e)
    decreases e - cur
  {
    if cur < e {
      CrlfAfterHeader(b, cur + 1, e);
    }
  }

  lemma PayloadRead(pre: Bytes, a: Bytes, rest: Bytes)
    ensures ReadPayload(pre + a + CRLF + rest, |pre|, |a|) == Read(a, |pre| + |a| + 2)
  {
    var b := pre + a + CRLF + rest;
    assert b[|pre|..|pre| + |a|] == a;
  }

  /** The decoder, over the reader of the numbers in its headers and the largest
      element count that the allocator serves. What is proved about splitting a
      stream holds for all of them. */
  datatype Decoder = Decoder(readInt: Bytes -> Option<int>, room: nat) {

    function ReadHeader(b: Bytes, cur: nat, marker: Byte): (h: Header)
      requires cur <= |b|
      ensures h.Line? ==> cur <= h.end && h.end + 2 <= |b|
    {
      match FindCrlf(b, cur)
      case None => NoLine
      case Some(e) =>
        if e == cur || b[cur] != marker then Line(e, false, None)
        else Line(e, true, readInt(b[cur + 1..e]))
    }

    /** One bulk element at `cur`. */
    function ReadElement(b: Bytes, cur: nat): (r: Element)
      requires cur <= |b|
      ensures r.Read? ==> cur < r.next <= |b|
    {
      match ReadHeader(b, cur, DOLLAR)
      case NoLine => Partial
      case Line(e, marked, number) =>
        if !marked then Malformed(ExpectedBulk)
        else if number.None? then Malformed(BadBulkLength)
        else if number.value < 0 then Read([], e + 2)
        else ReadPayload(b, e + 2, number.value)
    }

    /** The remaining `n` bulk elements, read from position `cur`. */
    function Bulks(b: Bytes, cur: nat, n: nat, argv: seq<Bytes>): Parsed
      requires cur <= |b|
      decreases n
    {
      if n == 0 then Done(argv, cur) else
        match ReadElement(b, cur)
        case Partial => NeedMore
        case Malformed(e) => Fail(e)
        case Read(data, next) => Bulks(b, next, n - 1, argv + [data])
    }

    function ParseCommand(b: Bytes): Parsed {
      if b == [] then NeedMore
      else if b[0] != STAR then ParseInline(b)
      else
        match ReadHeader(b, 0, STAR)
        case NoLine => NeedMore
        case Line(e, _, number) =>
          match number
          case None => Fail(BadMultibulkHeader)
          case Some(n) =>
            if n <= 0 then Done([], e + 2)
            else if n > room then Fail(OutOfMemory)
            else Bulks(b, e + 2, n, [])
    }

    /** `parse_command` as a loop over the elements. */
    method ParseFront(b: Bytes) returns (p: Parsed)
      ensures p == ParseCommand(b)
    {
      if b == [] {
        return NeedMore;
      }
      if b[0] != STAR {
        return ParseInline(b);
      }
      var header := ReadHeader(b, 0, STAR);
      if header.NoLine? {
        return NeedMore;
      }
      if header.number.None? {
        return Fail(BadMultibulkHeader);
      }
      var n := header.number.value;
      var cur: nat, argv := header.end + 2, [];
      if n <= 0 {
        return Done([], cur);
      }
      if n > room {
        return Fail(OutOfMemory);
      }
      var left: nat := n;
      ghost var verdict := Bulks(b, cur, left, argv);
      while left > 0
        invariant cur <= |b| && Bulks(b, cur, left, argv) == verdict
        decreases left
      {
        var r := ReadElement(b, cur);
        match r
        case Partial => return NeedMore;
        case Malformed(e) => return Fail(e);
        case Read(data, next) =>
          argv, cur, left := argv + [data], next, left - 1;
      }
      p := Done(argv, cur);
    }

    lemma HeaderStable(b: Bytes, more: Bytes, cur: nat, marker: Byte)
      requires cur <= |b| && ReadHeader(b, cur, marker).Line?
      ensures ReadHeader(b + more, cur, marker) == ReadHeader(b, cur, marker)
    {
      FindCrlfStable(b, more, cur);
      var e := FindCrlf(b, cur).value;
      if e != cur {
        SliceStable(b, more, cur + 1, e);
      }
    }

    lemma ElementStable(b: Bytes, more: Bytes, cur: nat)
      requires cur <= |b| && !ReadElement(b, cur).Partial?
      ensures ReadElement(b + more, cur) == ReadElement(b, cur)
    {
      HeaderStable(b, more, cur, DOLLAR);
      var h := ReadHeader(b, cur, DOLLAR);
      if h.marked && h.number.Some? && h.number.value >= 0 {
        PayloadStable(b, more, h.end + 2, h.number.value);
      }
    }

    lemma {:induction false} BulksStable(b: Bytes, more: Bytes, cur: nat, n: nat, argv: seq<Bytes>)
      requires cur <= |b| && !Bulks(b, cur, n, argv).NeedMore?
      ensures Bulks(b + more, cur, n, argv) == Bulks(b, cur, n, argv)
      decreases n
    {
      if n > 0 {
        ElementStable(b, more, cur);
        var r := ReadElement(b, cur);
        if r.Read? {
          BulksStable(b, more, r.next, n - 1, argv + [r.data]);
        }
      }
    }

    /** Once a buffer yields a command or an error, appending bytes yields the same. */
    lemma ParseStable(b: Bytes, more: Bytes)
      requires !ParseCommand(b).NeedMore?
      ensures ParseCommand(b + more) == ParseCommand(b)
    {
      assert (b + more)[0] == b[0];
      if b[0] != STAR {
        FindLfStable(b, more, 0);
        SliceStable(b, more, 0, FindLf(b, 0).value);
      } else {
        HeaderStable(b, more, 0, STAR);
        var h := ReadHeader(b, 0, STAR);
        if h.number.Some? && 0 < h.number.value <= room {
          BulksStable(b, more, h.end + 2, h.number.value, []);
        }
      }
    }

    lemma {:induction false} BulksUsed(b: Bytes, cur: nat, n: nat, argv: seq<Bytes>)
      requires cur <= |b| && Bulks(b, cur, n, argv).Done?
      ensures cur <= Bulks(b, cur, n, argv).used <= |b|
      ensures |Bulks(b, cur, n, argv).command| == |argv| + n
      decreases n
    {
      if n > 0 {
        var r := ReadElement(b, cur);
        BulksUsed(b, r.next, n - 1, argv + [r.data]);
      }
    }

    /** A decoded command takes at least one byte, all of them present. */
    lemma UsedBounds(b: Bytes)
      requires ParseCommand(b).Done?
      ensures 1 <= ParseCommand(b).used <= |b|
    {
      if b[0] == STAR {
        var h := ReadHeader(b, 0, STAR);
        if h.number.value > 0 {
          BulksUsed(b, h.end + 2, h.number.value, []);
        }
      }
    }

    function AsFramer(): Framer<seq<Bytes>, ProtocolError> {
      Framer(b => ParseCommand(b))
    }

    /** The decoder is incremental: verdicts are stable and commands bounded. */
    lemma IsIncremental()
      ensures AsFramer().Stable() && AsFramer().Bounded()
    {
      forall b, more | !ParseCommand(b).NeedMore? ensures ParseCommand(b + more) == ParseCommand(b) {
        ParseStable(b, more);
      }
      forall b | ParseCommand(b).Done? ensures 1 <= ParseCommand(b).used <= |b| {
        UsedBounds(b);
      }
    }

    // ---------- reading back what the encoder wrote ----------

    /** Printed sizes are read back. */
    ghost predicate ReadsPrinted() {
      forall n: nat {:trigger readInt(Format(n))} :: n <= MAX_I64 ==> readInt(Format(n)) == Some(n)
    }

    /** Sizes that fit the machine, and a count that the allocator serves. */
    ghost predicate Fits(argv: seq<Bytes>) {
      && |argv| <= MAX_I64 && |argv| <= room
      && forall i :: 0 <= i < |argv| ==> |argv[i]| <= MAX_I64
    }

    /** Reading a header line made of a marker and the text of a number. */
    lemma HeaderRead(pre: Bytes, marker: Byte, text: Bytes, rest: Bytes)
      requires marker != CR && forall i :: 0 <= i < |text| ==> text[i] != CR
      ensures var b := pre + ([marker] + text + CRLF) + rest;
              ReadHeader(b, |pre|, marker) == Line(|pre| + 1 + |text|, true, readInt(text))
    {
      var h := [marker] + text + CRLF;
      var b := pre + h + rest;
      var e := |pre| + 1 + |text|;
      assert forall i :: 0 <= i < |h| ==> b[|pre| + i] == h[i];
      forall i | |pre| <= i < e ensures b[i] != CR {
        assert b[i] == h[i - |pre|];
      }
      CrlfAfterHeader(b, |pre|, e);
      assert b[|pre| + 1..e] == text;
    }

    /** One encoded element is read back as itself. */
    lemma ElementRead(pre: Bytes, a: Bytes, rest: Bytes)
      requires ReadsPrinted() && |a| <= MAX_I64
      ensures ReadElement(pre + EncodeBulk(a) + rest, |pre|) == Read(a, |pre| + |EncodeBulk(a)|)
    {
      var text := Format(|a|);
      FormatShape(|a|);
      var h := [DOLLAR] + text + CRLF;
      var b := pre + h + (a + CRLF + rest);
      assert EncodeBulk(a) == h + (a + CRLF);
      assert b == pre + EncodeBulk(a) + rest;
      assert b == (pre + h) + a + CRLF + rest;
      HeaderRead(pre, DOLLAR, text, a + CRLF + rest);
      PayloadRead(pre + h, a, rest);
    }

    /** The same at a position of a buffer. */
    lemma ElementAt(b: Bytes, cur: nat, a: Bytes, rest: Bytes)
      requires ReadsPrinted() && |a| <= MAX_I64
      requires cur <= |b| && b[cur..] == EncodeBulk(a) + rest
      ensures var next := cur + |EncodeBulk(a)|;
              ReadElement(b, cur) == Read(a, next) && next <= |b| && b[next..] == rest
    {
      assert b == b[..cur] + EncodeBulk(a) + rest;
      ElementRead(b[..cur], a, rest);
    }

    lemma BulksStep(b: Bytes, cur: nat, n: nat, done: seq<Bytes>, data: Bytes, next: nat)
      requires cur <= |b| && n > 0 && ReadElement(b, cur) == Read(data, next)
      ensures Bulks(b, cur, n, done) == Bulks(b, next, n - 1, done + [data])
    {
    }

    /** The next `k` elements, if they are all there and good. */
    function ReadMany(b: Bytes, cur: nat, k: nat): (r: Many)
      requires cur <= |b|
      ensures r.Taken? ==> r.next <= |b|
      decreases k
    {
      if k == 0 then Taken([], cur) else
        match ReadElement(b, cur)
        case Read(data, next) =>
          (match ReadMany(b, next, k - 1)
           case Stuck => Stuck
           case Taken(items, end) => Taken([data] + items, end))
        case _ => Stuck
    }

    /** Reading `n` elements is reading some of them and then the others. */
    lemma {:induction false} BulksSplit(b: Bytes, cur: nat, n: nat, done: seq<Bytes>, k: nat)
      requires cur <= |b| && k <= n && ReadMany(b, cur, k).Taken?
      ensures var part := ReadMany(b, cur, k);
              Bulks(b, cur, n, done) == Bulks(b, part.next, n - k, done + part.items)
      decreases k
    {
      if k == 0 {
        assert done + [] == done;
      } else {
        var r := ReadElement(b, cur);
        BulksSplit(b, r.next, n - 1, done + [r.data], k - 1);
        BulksStep(b, cur, n, done, r.data, r.next);
        assert done + [r.data] + ReadMany(b, r.next, k - 1).items == done + ([r.data] + ReadMany(b, r.next, k - 1).items);
      }
    }

    /** Reading the first of the encoded elements leaves the others. */
    lemma ArgsStep(b: Bytes, cur: nat, todo: seq<Bytes>, rest: Bytes) returns (next: nat)
      requires ReadsPrinted() && todo != [] && |todo[0]| <= MAX_I64
      requires cur <= |b| && b[cur..] == EncodeArgs(todo) + rest
      ensures ReadElement(b, cur) == Read(todo[0], next)
      ensures next <= |b| && b[next..] == EncodeArgs(todo[1..]) + rest
    {
      var tail := EncodeArgs(todo[1..]);
      next := cur + |EncodeBulk(todo[0])|;
      Regroup(EncodeBulk(todo[0]), tail, rest);
      ElementAt(b, cur, todo[0], tail + rest);
    }

    lemma ManyStep(b: Bytes, cur: nat, todo: seq<Bytes>, next: nat, end: nat)
      requires cur <= |b| && todo != [] && ReadElement(b, cur) == Read(todo[0], next)
      requires ReadMany(b, next, |todo[1..]|) == Taken(todo[1..], end)
      ensures ReadMany(b, cur, |todo|) == Taken(todo, end)
    {
      assert [todo[0]] + todo[1..] == todo;
    }

    /** Encoded elements are read back in order; `rest` is what remains. */
    lemma {:induction false} ArgsRead(b: Bytes, cur: nat, todo: seq<Bytes>, rest: Bytes)
      requires ReadsPrinted() && forall i :: 0 <= i < |todo| ==> |todo[i]| <= MAX_I64
      requires cur <= |b| && b[cur..] == EncodeArgs(todo) + rest
      ensures |rest| <= |b| && ReadMany(b, cur, |todo|) == Taken(todo, |b| - |rest|)
      decreases |todo|
    {
      if todo == [] {
        assert |b[cur..]| == |rest|;
      } else {
        var next := ArgsStep(b, cur, todo, rest);
        ArgsRead(b, next, todo[1..], rest);
        ManyStep(b, cur, todo, next, |b| - |rest|);
      }
    }

    /** A header for `n` elements is read, and what follows it remains. */
    lemma CountRead(n: nat, rest: Bytes)
      requires ReadsPrinted() && n <= MAX_I64
      ensures var b := [STAR] + Format(n) + CRLF + rest;
              var e := 1 + |Format(n)|;
              && b != [] && b[0] == STAR && e + 2 <= |b|
              && ReadHeader(b, 0, STAR) == Line(e, true, Some(n))
              && b[e + 2..] == rest
    {
      var text := Format(n);
      FormatShape(n);
      var h := [STAR] + text + CRLF;
      assert [] + h == h;
      HeaderRead([], STAR, text, rest);
    }

    /** Parsing an encoded request followed by any bytes returns that argument
        vector, binary-safe, and takes exactly the encoding. */
    lemma RequestRoundTrip(argv: seq<Bytes>, rest: Bytes)
      requires ReadsPrinted() && Fits(argv)
      ensures ParseCommand(EncodeRequest(argv) + rest) == Done(argv, |EncodeRequest(argv)|)
    {
      var b, e := EncodeRequest(argv) + rest, 1 + |Format(|argv|)|;
      Regroup([STAR] + Format(|argv|) + CRLF, EncodeArgs(argv), rest);
      CountRead(|argv|, EncodeArgs(argv) + rest);
      ArgsRead(b, e + 2, argv, rest);
      BulksSplit(b, e + 2, |argv|, [], |argv|);
      assert [] + argv == argv;
    }

    /** A line that does not start with `*` is an inline command: its words, within any
        blanks, ended by LF or CRLF. */
    lemma InlineCommandIsRead(gaps: seq<Bytes>, words: seq<Bytes>, eol: Bytes, rest: Bytes)
      requires Separates(gaps, words) && (eol == [LF] || eol == CRLF)
      requires var line := Spread(gaps, words);
               && (forall i :: 0 <= i < |line| ==> line[i] != LF)
               && (line != [] ==> line[0] != STAR)
               && (eol == [LF] && line != [] ==> line[|line| - 1] != CR)
      ensures ParseCommand(Spread(gaps, words) + eol + rest) == Done(words, |Spread(gaps, words) + eol|)
    {
      InlineIsRead(gaps, words, eol, rest);
      var line := Spread(gaps, words);
      assert (line + eol + rest)[0] == if line == [] then eol[0] else line[0];
    }

    // ---------- what is refused ----------

    /** A multibulk header: not a number, none to come, too many to ask room for. */
    lemma HeaderVerdicts(text: Bytes, rest: Bytes)
      requires forall i :: 0 <= i < |text| ==> text[i] != CR
      ensures var b := [STAR] + text + CRLF + rest;
              match readInt(text)
              case None => ParseCommand(b) == Fail(BadMultibulkHeader)
              case Some(n) =>
                && (n <= 0 ==> ParseCommand(b) == Done([], |text| + 3))
                && (n > room ==> ParseCommand(b) == Fail(OutOfMemory))
    {
      var h := [STAR] + text + CRLF;
      assert [] + h == h;
      HeaderRead([], STAR, text, rest);
    }

    /** What an element line says: `line` is its bytes up to the CRLF, `rest` what follows. */
    lemma ElementVerdicts(pre: Bytes, line: Bytes, rest: Bytes)
      requires forall i :: 0 <= i < |line| ==> line[i] != CR
      ensures var r := ReadElement(pre + line + CRLF + rest, |pre|);
              if line == [] || line[0] != DOLLAR then r == Malformed(ExpectedBulk) else
                match readInt(line[1..])
                case None => r == Malformed(BadBulkLength)
                case Some(len) =>
                  if len < 0 then r == Read([], |pre| + |line| + 2)
                  else if |rest| < len + 2 then r.Partial?
                  else if rest[len] != CR || rest[len + 1] != LF then r == Malformed(MissingCrlf)
                  else r == Read(rest[..len], |pre| + |line| + 2 + len + 2)
    {
      var b, e := pre + line + CRLF + rest, |pre| + |line|;
      forall i | |pre| <= i < e ensures b[i] != CR {
        assert b[i] == line[i - |pre|];
      }
      CrlfAfterHeader(b, |pre|, e);
      assert line != [] ==> b[|pre|] == line[0] && b[|pre| + 1..e] == line[1..];
      assert b[e + 2..] == rest;
      forall len: nat | len + 2 <= |rest| ensures b[e + 2..e + 2 + len] == rest[..len] {
      }
    }

    /** The verdict on what stands behind `k` good elements is the verdict on all. */
    lemma VerdictBehind(b: Bytes, cur: nat, n: nat, k: nat)
      requires cur <= |b| && k < n && ReadMany(b, cur, k).Taken?
      ensures var next := ReadMany(b, cur, k).next;
              match ReadElement(b, next)
              case Malformed(e) => Bulks(b, cur, n, []) == Fail(e)
              case Partial => Bulks(b, cur, n, []) == NeedMore
              case Read(_, _) => true
    {
      BulksSplit(b, cur, n, [], k);
    }

    lemma HeaderThenBulks(b: Bytes, e: nat, n: nat)
      requires b != [] && b[0] == STAR && ReadHeader(b, 0, STAR) == Line(e, true, Some(n)) && 0 < n <= room
      ensures ParseCommand(b) == Bulks(b, e + 2, n, [])
    {
    }

    lemma FailsBehind(b: Bytes, e: nat, n: nat, k: nat, next: nat)
      requires b != [] && b[0] == STAR && ReadHeader(b, 0, STAR) == Line(e, true, Some(n)) && k < n <= room
      requires e + 2 <= |b| && ReadMany(b, e + 2, k).Taken? && ReadMany(b, e + 2, k).next == next
      ensures match ReadElement(b, next)
              case Malformed(error) => ParseCommand(b) == Fail(error)
              case Partial => ParseCommand(b).NeedMore?
              case Read(_, _) => true
    {
      HeaderThenBulks(b, e, n);
      VerdictBehind(b, e + 2, n, k);
    }

    /** Behind a header for `n` elements and `first` good ones, a bad element line fails
        the request with its error, and an unfinished one leaves it waiting. */
    lemma BadElementFails(b: Bytes, e: nat, n: nat, first: seq<Bytes>, tail: Bytes)
      requires ReadsPrinted() && |first| < n <= room
      requires forall i :: 0 <= i < |first| ==> |first[i]| <= MAX_I64
      requires b != [] && b[0] == STAR && ReadHeader(b, 0, STAR) == Line(e, true, Some(n))
      requires b[e + 2..] == EncodeArgs(first) + tail
      ensures |tail| <= |b|
      ensures match ReadElement(b, |b| - |tail|)
              case Malformed(error) => ParseCommand(b) == Fail(error)
              case Partial => ParseCommand(b).NeedMore?
              case Read(_, _) => true
    {
      ArgsRead(b, e + 2, first, tail);
      FailsBehind(b, e, n, |first|, |b| - |tail|);
    }

    /** Every proper prefix of an encoded request needs more bytes. */
    lemma RequestPrefixNeedsMore(argv: seq<Bytes>, k: nat)
      requires ReadsPrinted() && Fits(argv) && k < |EncodeRequest(argv)|
      ensures ParseCommand(EncodeRequest(argv)[..k]).NeedMore?
    {
      RequestRoundTrip(argv, []);
      assert EncodeRequest(argv) + [] == EncodeRequest(argv);
      IsIncremental();
      AsFramer().ProperPrefixNeedsMore(EncodeRequest(argv), k);
    }
  }

  lemma Regroup(a: Bytes, b: Bytes, c: Bytes)
    ensures (a + b) + c == a + (b + c)
  {
  }

  /** The decoder of the source: UTF-8 check, trim, 64-bit integer. */
  function Resp2(room: nat): Decoder {
    Decoder(b => ParseI64(b), room)
  }

  lemma Resp2ReadsPrinted(room: nat)
    ensures Resp2(room).ReadsPrinted()
  {
    forall n: nat | n <= MAX_I64 ensures Resp2(room).readInt(Format(n)) == Some(n) {
      ParseOfFormat(n);
    }
  }

  // ---------- the bytes on the wire ----------

  /** A request on the wire: `*` and the count, then for each argument `$`, its length
      and its bytes, each of them ended by CR and LF. */
  lemma RequestBytes(argv: seq<Bytes>)
    ensures EncodeRequest([]) == Ascii("*0\r\n")
    ensures argv != [] ==>
              EncodeArgs(argv) == Ascii("$") + Dec(|argv[0]|) + Ascii("\r\n") + argv[0] + Ascii("\r\n") + EncodeArgs(argv[1..])
    ensures EncodeRequest(argv) == Ascii("*") + Dec(|argv|) + Ascii("\r\n") + EncodeArgs(argv)
  {
    assert Ascii("*") == [STAR] && Ascii("$") == [DOLLAR] && Ascii("\r\n") == CRLF;
    assert Ascii("*0\r\n") == [STAR] + [48] + CRLF;
  }

  // ---------- pipelines ----------

  /** Encoded requests sent back to back. */
  function Pipeline(requests: seq<seq<Bytes>>): Bytes {
    if requests == [] then [] else EncodeRequest(requests[0]) + Pipeline(requests[1..])
  }

  ghost predicate AllFit(d: Decoder, requests: seq<seq<Bytes>>) {
    forall i :: 0 <= i < |requests| ==> d.Fits(requests[i])
  }

  lemma {:induction false} PipelineDrains(d: Decoder, requests: seq<seq<Bytes>>)
    requires d.ReadsPrinted() && AllFit(d, requests) && d.AsFramer().Bounded()
    ensures d.AsFramer().Drain(Pipeline(requests)) == Decoded(requests, None, [])
    decreases |requests|
  {
    if requests != [] {
      var first, rest := EncodeRequest(requests[0]), Pipeline(requests[1..]);
      assert AllFit(d, requests[1..]);
      PipelineDrains(d, requests[1..]);
      d.RequestRoundTrip(requests[0], rest);
      assert (first + rest)[|first|..] == rest;
      assert [requests[0]] + requests[1..] == requests;
    }
  }

  /** Whatever the socket does to a pipeline of requests, the connection decodes
      exactly those requests. */
  lemma PipelineSurvivesChunking(room: nat, requests: seq<seq<Bytes>>, chunks: seq<Bytes>)
    requires AllFit(Resp2(room), requests) && Concat(chunks) == Pipeline(requests)
    ensures Resp2(room).AsFramer().Bounded()
    ensures Resp2(room).AsFramer().DecodeChunks(chunks) == Decoded(requests, None, [])
  {
    Resp2ReadsPrinted(room);
    Resp2(room).IsIncremental();
    PipelineDrains(Resp2(room), requests);
    Resp2(room).AsFramer().ChunkingIsInvisible(chunks);
  }
}
