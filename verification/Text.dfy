/** Byte-level text: UTF-8, whitespace trimming, 64-bit decimal integers and
    command-name normalisation. */
module Text {
  import opened Wire

  const MIN_I64: int := -0x8000_0000_0000_0000
  const MAX_I64: int := 0x7fff_ffff_ffff_ffff

  const CR: Byte := 13
  const LF: Byte := 10

  // ---------- UTF-8 ----------

  /** One scanning step: a well-formed character of `n` bytes, or an ill-formed
      piece of `n` bytes that a lossy decoder replaces as a unit. */
  datatype Scan = Good(n: nat) | Bad(n: nat)

  predicate In(b: Bytes, i: nat, lo: Byte, hi: Byte) {
    i < |b| && lo <= b[i] <= hi
  }

  function ScanChar(b: Bytes): (s: Scan)
    requires b != []
    ensures 1 <= s.n <= |b|
  {
    var c := b[0];
    if c < 0x80 then Good(1)
    else if 0xC2 <= c <= 0xDF then
      if In(b, 1, 0x80, 0xBF) then Good(2) else Bad(1)
    else if 0xE0 <= c <= 0xEF then
      if !In(b, 1, if c == 0xE0 then 0xA0 else 0x80, if c == 0xED then 0x9F else 0xBF) then Bad(1)
      else if In(b, 2, 0x80, 0xBF) then Good(3) else Bad(2)
    else if 0xF0 <= c <= 0xF4 then
      if !In(b, 1, if c == 0xF0 then 0x90 else 0x80, if c == 0xF4 then 0x8F else 0xBF) then Bad(1)
      else if !In(b, 2, 0x80, 0xBF) then Bad(2)
      else if In(b, 3, 0x80, 0xBF) then Good(4) else Bad(3)
    else Bad(1)
  }

  predicate ValidUtf8(b: Bytes)
    decreases |b|
  {
    b == [] || (ScanChar(b).Good? && ValidUtf8(b[ScanChar(b).n..]))
  }

  /** U+FFFD. */
  const REPLACEMENT: Bytes := [0xEF, 0xBF, 0xBD]

  function Piece(b: Bytes): Bytes
    requires b != []
  {
    if ScanChar(b).Good? then b[..ScanChar(b).n] else REPLACEMENT
  }

  /** Decoding that replaces every ill-formed piece. */
  function Lossy(b: Bytes): Bytes
    decreases |b|
  {
    if b == [] then [] else Piece(b) + Lossy(b[ScanChar(b).n..])
  }

  lemma ScanPiece(b: Bytes, rest: Bytes)
    requires b != []
    ensures Piece(b) != [] && ScanChar(Piece(b) + rest) == Good(|Piece(b)|)
  {
    var p := Piece(b);
    assert forall i :: 0 <= i < |p| ==> (p + rest)[i] == p[i];
  }

  lemma {:induction false} LossyIsValid(b: Bytes)
    ensures ValidUtf8(Lossy(b))
    decreases |b|
  {
    if b != [] {
      var rest := Lossy(b[ScanChar(b).n..]);
      LossyIsValid(b[ScanChar(b).n..]);
      ScanPiece(b, rest);
      assert (Piece(b) + rest)[|Piece(b)|..] == rest;
    }
  }

  lemma {:induction false} LossyOfValid(b: Bytes)
    requires ValidUtf8(b)
    ensures Lossy(b) == b
    decreases |b|
  {
    if b != [] {
      LossyOfValid(b[ScanChar(b).n..]);
      assert b == b[..ScanChar(b).n] + b[ScanChar(b).n..];
    }
  }

  ghost predicate NoLf(b: Bytes) {
    forall i :: 0 <= i < |b| ==> b[i] != LF
  }

  /** A line body as the reply reader leaves it: no LF inside, no CR at the end. */
  ghost predicate CleanLine(b: Bytes) {
    NoLf(b) && (b != [] ==> b[|b| - 1] != CR)
  }

  lemma PieceIsClean(b: Bytes, n: nat)
    requires b != [] && CleanLine(b) && n == ScanChar(b).n
    ensures CleanLine(b[n..]) && NoLf(Piece(b)) && (b[n..] == [] ==> CleanLine(Piece(b)))
  {
    assert b[n..] != [] ==> b[n..][|b[n..]| - 1] == b[|b| - 1];
  }

  lemma CleanEnd(piece: Bytes, tail: Bytes)
    requires NoLf(piece) && CleanLine(tail) && (tail == [] ==> CleanLine(piece))
    ensures CleanLine(piece + tail)
  {
  }

  lemma {:induction false} LossyKeepsClean(b: Bytes)
    requires CleanLine(b)
    ensures CleanLine(Lossy(b))
    decreases |b|
  {
    if b != [] {
      var n := ScanChar(b).n;
      PieceIsClean(b, n);
      LossyKeepsClean(b[n..]);
      if b[n..] != [] {
        LossyNonempty(b[n..]);
      }
      CleanEnd(Piece(b), Lossy(b[n..]));
    }
  }

  lemma LossyNonempty(b: Bytes)
    requires b != []
    ensures Lossy(b) != []
  {
    ScanPiece(b, []);
  }

  ghost predicate AllAscii(b: Bytes) {
    forall i :: 0 <= i < |b| ==> b[i] < 0x80
  }

  lemma {:induction false} AsciiIsValid(b: Bytes)
    requires AllAscii(b)
    ensures ValidUtf8(b)
  {
    if b != [] {
      AsciiIsValid(b[1..]);
    }
  }

  // ---------- UTF-8 as code points ----------

  /** A Unicode scalar value. */
  predicate IsScalar(cp: int) {
    0 <= cp <= 0x10FFFF && !(0xD800 <= cp <= 0xDFFF)
  }

  /** The encoding of a scalar value (section 3 of RFC 3629). */
  function EncodeScalar(cp: int): Bytes
    requires IsScalar(cp)
  {
    if cp < 0x80 then [cp]
    else if cp < 0x800 then [0xC0 + cp / 64, 0x80 + cp % 64]
    else if cp < 0x10000 then [0xE0 + cp / 4096, 0x80 + cp / 64 % 64, 0x80 + cp % 64]
    else [0xF0 + cp / 262144, 0x80 + cp / 4096 % 64, 0x80 + cp / 64 % 64, 0x80 + cp % 64]
  }

  function EncodeScalars(cps: seq<int>): Bytes
    requires forall i :: 0 <= i < |cps| ==> IsScalar(cps[i])
  {
    if cps == [] then [] else EncodeScalar(cps[0]) + EncodeScalars(cps[1..])
  }

  lemma ScalarBytes(cp: int)
    requires IsScalar(cp)
    ensures var e := EncodeScalar(cp);
            && (|e| == 1 ==> e[0] < 0x80)
            && (|e| == 2 ==> 0xC2 <= e[0] <= 0xDF)
            && (|e| == 3 ==> 0xE0 <= e[0] <= 0xEF && (e[0] == 0xE0 ==> 0xA0 <= e[1]) && (e[0] == 0xED ==> e[1] <= 0x9F))
            && (|e| == 4 ==> 0xF0 <= e[0] <= 0xF4 && (e[0] == 0xF0 ==> 0x90 <= e[1]) && (e[0] == 0xF4 ==> e[1] <= 0x8F))
            && forall i :: 1 <= i < |e| ==> 0x80 <= e[i] <= 0xBF
  {
  }

  /** The scan recognises exactly the encodings of scalar values. */
  lemma ScalarIsScanned(cp: int, rest: Bytes)
    requires IsScalar(cp)
    ensures ScanChar(EncodeScalar(cp) + rest) == Good(|EncodeScalar(cp)|)
  {
    ScalarBytes(cp);
    BytesAreScanned(EncodeScalar(cp), rest);
  }

  lemma BytesAreScanned(e: Bytes, rest: Bytes)
    requires 1 <= |e| <= 4
    requires |e| == 1 ==> e[0] < 0x80
    requires |e| == 2 ==> 0xC2 <= e[0] <= 0xDF
    requires |e| == 3 ==> 0xE0 <= e[0] <= 0xEF && (e[0] == 0xE0 ==> 0xA0 <= e[1]) && (e[0] == 0xED ==> e[1] <= 0x9F)
    requires |e| == 4 ==> 0xF0 <= e[0] <= 0xF4 && (e[0] == 0xF0 ==> 0x90 <= e[1]) && (e[0] == 0xF4 ==> e[1] <= 0x8F)
    requires forall i :: 1 <= i < |e| ==> 0x80 <= e[i] <= 0xBF
    ensures ScanChar(e + rest) == Good(|e|)
  {
    assert forall i :: 0 <= i < |e| ==> (e + rest)[i] == e[i];
  }

  lemma Digit64(high: int, low: int)
    requires 0 <= high && 0 <= low < 64
    ensures (high * 64 + low) / 64 == high && (high * 64 + low) % 64 == low
  {
  }

  lemma TwoBytes(c0: int, c1: int)
    requires 0xC2 <= c0 <= 0xDF && 0x80 <= c1 <= 0xBF
    ensures var cp := (c0 - 0xC0) * 64 + (c1 - 0x80);
            IsScalar(cp) && EncodeScalar(cp) == [c0, c1]
  {
    Digit64(c0 - 0xC0, c1 - 0x80);
  }

  lemma ThreeBytes(c0: int, c1: int, c2: int)
    requires 0xE0 <= c0 <= 0xEF && 0x80 <= c1 <= 0xBF && 0x80 <= c2 <= 0xBF
    requires (c0 == 0xE0 ==> 0xA0 <= c1) && (c0 == 0xED ==> c1 <= 0x9F)
    ensures var cp := ((c0 - 0xE0) * 64 + (c1 - 0x80)) * 64 + (c2 - 0x80);
            IsScalar(cp) && EncodeScalar(cp) == [c0, c1, c2]
  {
    Digit64(c0 - 0xE0, c1 - 0x80);
    Digit64((c0 - 0xE0) * 64 + (c1 - 0x80), c2 - 0x80);
  }

  lemma FourBytes(c0: int, c1: int, c2: int, c3: int)
    requires 0xF0 <= c0 <= 0xF4 && 0x80 <= c1 <= 0xBF && 0x80 <= c2 <= 0xBF && 0x80 <= c3 <= 0xBF
    requires (c0 == 0xF0 ==> 0x90 <= c1) && (c0 == 0xF4 ==> c1 <= 0x8F)
    ensures var cp := (((c0 - 0xF0) * 64 + (c1 - 0x80)) * 64 + (c2 - 0x80)) * 64 + (c3 - 0x80);
            IsScalar(cp) && EncodeScalar(cp) == [c0, c1, c2, c3]
  {
    Digit64(c0 - 0xF0, c1 - 0x80);
    Digit64((c0 - 0xF0) * 64 + (c1 - 0x80), c2 - 0x80);
    Digit64(((c0 - 0xF0) * 64 + (c1 - 0x80)) * 64 + (c2 - 0x80), c3 - 0x80);
  }

  lemma ScannedIsScalar(b: Bytes) returns (cp: int)
    requires b != [] && ScanChar(b).Good?
    ensures IsScalar(cp) && b[..ScanChar(b).n] == EncodeScalar(cp)
  {
    match ScanChar(b).n
    case 1 =>
      cp := b[0];
      assert b[..1] == [b[0]];
    case 2 =>
      var c0: int, c1: int := b[0], b[1];
      TwoBytes(c0, c1);
      cp := (c0 - 0xC0) * 64 + (c1 - 0x80);
      assert b[..2] == [b[0], b[1]];
    case 3 =>
      var c0: int, c1: int, c2: int := b[0], b[1], b[2];
      ThreeBytes(c0, c1, c2);
      cp := ((c0 - 0xE0) * 64 + (c1 - 0x80)) * 64 + (c2 - 0x80);
      assert b[..3] == [b[0], b[1], b[2]];
    case _ =>
      var c0: int, c1: int, c2: int, c3: int := b[0], b[1], b[2], b[3];
      FourBytes(c0, c1, c2, c3);
      cp := (((c0 - 0xF0) * 64 + (c1 - 0x80)) * 64 + (c2 - 0x80)) * 64 + (c3 - 0x80);
      assert b[..4] == [b[0], b[1], b[2], b[3]];
  }

  lemma {:induction false} EncodedIsValid(cps: seq<int>)
    requires forall i :: 0 <= i < |cps| ==> IsScalar(cps[i])
    ensures ValidUtf8(EncodeScalars(cps)) && Lossy(EncodeScalars(cps)) == EncodeScalars(cps)
  {
    if cps != [] {
      var e, rest := EncodeScalar(cps[0]), EncodeScalars(cps[1..]);
      EncodedIsValid(cps[1..]);
      ScalarIsScanned(cps[0], rest);
      assert (e + rest)[|e|..] == rest && (e + rest)[..|e|] == e;
    }
  }

  lemma {:induction false} ValidIsEncoded(b: Bytes) returns (cps: seq<int>)
    requires ValidUtf8(b)
    ensures (forall i :: 0 <= i < |cps| ==> IsScalar(cps[i])) && b == EncodeScalars(cps)
    decreases |b|
  {
    cps := [];
    if b != [] {
      var cp := ScannedIsScalar(b);
      var more := ValidIsEncoded(b[ScanChar(b).n..]);
      cps := [cp] + more;
      assert cps[1..] == more && b == b[..ScanChar(b).n] + b[ScanChar(b).n..];
    }
  }

  ghost predicate EncodesScalars(b: Bytes, cps: seq<int>) {
    (forall i :: 0 <= i < |cps| ==> IsScalar(cps[i])) && b == EncodeScalars(cps)
  }

  /** The UTF-8 check accepts exactly the encodings of sequences of scalar values. */
  lemma ValidIffEncoded(b: Bytes)
    ensures ValidUtf8(b) <==> exists cps :: EncodesScalars(b, cps)
  {
    if ValidUtf8(b) {
      var cps := ValidIsEncoded(b);
      assert EncodesScalars(b, cps);
    }
    if cps :| EncodesScalars(b, cps) {
      EncodedIsValid(cps);
    }
  }

  /** Lossy decoding keeps characters and replaces what is none, piece by piece. */
  lemma LossyPieces(cp: int, rest: Bytes, bad: Byte)
    requires IsScalar(cp) && 0xF8 <= bad
    ensures Lossy(EncodeScalar(cp) + rest) == EncodeScalar(cp) + Lossy(rest)
    ensures Lossy([bad] + rest) == [0xEF, 0xBF, 0xBD] + Lossy(rest)
  {
    var e := EncodeScalar(cp);
    ScalarIsScanned(cp, rest);
    assert (e + rest)[|e|..] == rest && (e + rest)[..|e|] == e;
    assert ([bad] + rest)[1..] == rest;
  }

  // ---------- whitespace ----------

  /** The UTF-8 encodings of the characters with the White_Space property. */
  predicate WhiteChar(w: Bytes) {
    if |w| == 1 then 9 <= w[0] <= 13 || w[0] == 32
    else if |w| == 2 then w[0] == 0xC2 && (w[1] == 0x85 || w[1] == 0xA0)
    else if |w| == 3 then
      || (w[0] == 0xE1 && w[1] == 0x9A && w[2] == 0x80)
      || (w[0] == 0xE2 && w[1] == 0x80 && (0x80 <= w[2] <= 0x8A || w[2] == 0xA8 || w[2] == 0xA9 || w[2] == 0xAF))
      || (w[0] == 0xE2 && w[1] == 0x81 && w[2] == 0x9F)
      || (w[0] == 0xE3 && w[1] == 0x80 && w[2] == 0x80)
    else false
  }

  function WhitePrefix(b: Bytes): (n: nat)
    ensures n <= |b|
  {
    if |b| >= 1 && WhiteChar(b[..1]) then 1
    else if |b| >= 2 && WhiteChar(b[..2]) then 2
    else if |b| >= 3 && WhiteChar(b[..3]) then 3
    else 0
  }

  function WhiteSuffix(b: Bytes): (n: nat)
    ensures n <= |b|
  {
    if |b| >= 1 && WhiteChar(b[|b| - 1..]) then 1
    else if |b| >= 2 && WhiteChar(b[|b| - 2..]) then 2
    else if |b| >= 3 && WhiteChar(b[|b| - 3..]) then 3
    else 0
  }

  function TrimStart(b: Bytes): Bytes
    decreases |b|
  {
    if WhitePrefix(b) == 0 then b else TrimStart(b[WhitePrefix(b)..])
  }

  function TrimEnd(b: Bytes): Bytes
    decreases |b|
  {
    if WhiteSuffix(b) == 0 then b else TrimEnd(b[..|b| - WhiteSuffix(b)])
  }

  function Trim(b: Bytes): Bytes {
    TrimEnd(TrimStart(b))
  }

  // ---------- decimal integers ----------

  predicate IsDigit(c: Byte) {
    48 <= c <= 57
  }

  predicate AllDigits(b: Bytes) {
    forall i :: 0 <= i < |b| ==> IsDigit(b[i])
  }

  function Value(digits: Bytes): nat
    requires AllDigits(digits)
  {
    if digits == [] then 0
    else Value(digits[..|digits| - 1]) * 10 + (digits[|digits| - 1] - 48)
  }

  /** `str::parse::<i64>` on already trimmed text. */
  function ParseDecimal(t: Bytes): Option<int> {
    var signed := t != [] && (t[0] == 43 || t[0] == 45);
    var digits := if signed then t[1..] else t;
    if digits == [] || !AllDigits(digits) then None else
      var magnitude: int := Value(digits);
      var v := if t[0] == 45 then -magnitude else magnitude;
      if MIN_I64 <= v <= MAX_I64 then Some(v) else None
  }

  /** UTF-8 check, trim, then parse: the integer reader used everywhere. */
  function ParseI64(b: Bytes): Option<int> {
    if ValidUtf8(b) then ParseDecimal(Trim(b)) else None
  }

  function Dec(n: nat): Bytes {
    if n < 10 then [48 + n] else Dec(n / 10) + [48 + n % 10]
  }

  function Format(n: int): Bytes {
    if n < 0 then [45] + Dec(-n) else Dec(n)
  }

  lemma {:induction false} DecIsDigits(n: nat)
    ensures Dec(n) != [] && AllDigits(Dec(n)) && Value(Dec(n)) == n
  {
    if n < 10 {
      assert Value([]) == 0;
      assert Dec(n)[..0] == [];
    } else {
      DecIsDigits(n / 10);
      assert Dec(n)[..|Dec(n)| - 1] == Dec(n / 10);
    }
  }

  /** A formatted number is a sign and digits: no CR, no LF, nothing to trim. */
  lemma FormatShape(n: int)
    ensures Format(n) != [] && AllAscii(Format(n))
    ensures forall i :: 0 <= i < |Format(n)| ==> IsDigit(Format(n)[i]) || Format(n)[i] == 45
    ensures IsDigit(Format(n)[|Format(n)| - 1])
  {
    DecIsDigits(if n < 0 then -n else n);
  }

  lemma ParseOfDigits(n: int)
    requires MIN_I64 <= n <= MAX_I64
    ensures ParseDecimal(Format(n)) == Some(n)
  {
    DecIsDigits(if n < 0 then -n else n);
    assert n < 0 ==> Format(n)[1..] == Dec(-n);
    assert n >= 0 ==> IsDigit(Format(n)[0]);
  }

  /** Printing then parsing any 64-bit integer gives it back. */
  lemma ParseOfFormat(n: int)
    requires MIN_I64 <= n <= MAX_I64
    ensures ParseI64(Format(n)) == Some(n)
  {
    FormatShape(n);
    AsciiIsValid(Format(n));
    SolidFront(Format(n));
    SolidBack(Format(n));
    ParseOfDigits(n);
  }

  /** A number is printed without leading zeros, with a minus sign if it is negative. */
  lemma {:induction false} PrintedPlainly(n: nat)
    ensures Dec(n)[0] == 48 <==> n == 0
    ensures Format(n) == Dec(n) && (n > 0 ==> Format(0 - n) == [45] + Dec(n))
  {
    DecIsDigits(n);
    if n >= 10 {
      PrintedPlainly(n / 10);
      DecIsDigits(n / 10);
    }
  }

  predicate AsciiBlank(c: Byte) {
    9 <= c <= 13 || c == 32
  }

  ghost predicate AllBlank(b: Bytes) {
    forall i :: 0 <= i < |b| ==> AsciiBlank(b[i])
  }

  lemma {:induction false} TrimsFront(lead: Bytes, rest: Bytes)
    requires AllBlank(lead)
    ensures TrimStart(lead + rest) == TrimStart(rest)
  {
    if lead == [] {
      assert lead + rest == rest;
    } else {
      TrimsFront(lead[1..], rest);
      assert (lead + rest)[..1] == [lead[0]];
      assert (lead + rest)[1..] == lead[1..] + rest;
    }
  }

  lemma BlankEnd(b: Bytes)
    requires b != [] && AsciiBlank(b[|b| - 1])
    ensures TrimEnd(b) == TrimEnd(b[..|b| - 1])
  {
    assert b[|b| - 1..] == [b[|b| - 1]];
    assert WhiteSuffix(b) == 1;
  }

  lemma {:induction false} TrimsBack(rest: Bytes, trail: Bytes)
    requires AllBlank(trail)
    ensures TrimEnd(rest + trail) == TrimEnd(rest)
  {
    if trail == [] {
      assert rest + trail == rest;
    } else {
      var b, before := rest + trail, trail[..|trail| - 1];
      TrimsBack(rest, before);
      BlankEnd(b);
      assert b[..|b| - 1] == rest + before;
    }
  }

  predicate Printable(c: Byte) {
    33 <= c < 0x80
  }

  lemma PrintableIsNotWhite(w: Bytes)
    requires w != [] && (Printable(w[0]) || Printable(w[|w| - 1]))
    ensures !WhiteChar(w)
  {
  }

  lemma PrefixIsWhite(b: Bytes, n: nat)
    requires n == WhitePrefix(b)
    ensures n > 0 ==> WhiteChar(b[..n])
  {
  }

  lemma SuffixIsWhite(b: Bytes, n: nat)
    requires n == WhiteSuffix(b)
    ensures n > 0 ==> WhiteChar(b[|b| - n..])
  {
  }

  /** Nothing is trimmed at a printable ASCII character. */
  lemma SolidFront(b: Bytes)
    requires b != [] && Printable(b[0])
    ensures TrimStart(b) == b
  {
    var n := WhitePrefix(b);
    PrefixIsWhite(b, n);
    if n != 0 {
      PrintableIsNotWhite(b[..n]);
    }
  }

  lemma SuffixIsNotWhite(b: Bytes, k: nat)
    requires 0 < k <= |b| && Printable(b[|b| - 1])
    ensures !WhiteChar(b[|b| - k..])
  {
    var w := b[|b| - k..];
    assert w[|w| - 1] == b[|b| - 1];
    PrintableIsNotWhite(w);
  }

  lemma NoWhiteSuffix(b: Bytes)
    requires b != [] && Printable(b[|b| - 1])
    ensures WhiteSuffix(b) == 0
  {
    var n := WhiteSuffix(b);
    SuffixIsWhite(b, n);
    if n != 0 {
      SuffixIsNotWhite(b, n);
    }
  }

  lemma SolidBack(b: Bytes)
    requires b != [] && Printable(b[|b| - 1])
    ensures TrimEnd(b) == b
  {
    NoWhiteSuffix(b);
  }

  /** An optional sign and digits. */
  ghost predicate IsNumeral(t: Bytes, sign: Bytes, digits: Bytes) {
    (sign == [] || sign == [43] || sign == [45]) && digits != [] && AllDigits(digits) && t == sign + digits
  }

  /** What sign and digits spell in base ten. */
  function Spelled(sign: Bytes, digits: Bytes): int
    requires AllDigits(digits)
  {
    var magnitude: int := Value(digits);
    if sign == [45] then -magnitude else magnitude
  }

  lemma NumeralValue(t: Bytes, sign: Bytes, digits: Bytes)
    requires IsNumeral(t, sign, digits)
    ensures ParseDecimal(t) ==
            if MIN_I64 <= Spelled(sign, digits) <= MAX_I64 then Some(Spelled(sign, digits)) else None
  {
    if sign == [] {
      assert t == digits;
    } else {
      assert t[1..] == digits;
    }
  }

  lemma PaddedIsTrimmed(lead: Bytes, t: Bytes, trail: Bytes)
    requires AllBlank(lead) && AllBlank(trail)
    requires t != [] && Printable(t[0]) && Printable(t[|t| - 1])
    ensures Trim(lead + t + trail) == t
  {
    var b := t + trail;
    assert lead + t + trail == lead + b && b[0] == t[0];
    TrimsFront(lead, b);
    SolidFront(b);
    TrimsBack(t, trail);
    SolidBack(t);
  }

  /** Blanks around an optional sign and digits: the value they spell in base ten, when
      it fits 64 bits. */
  lemma NumeralIsRead(lead: Bytes, t: Bytes, sign: Bytes, digits: Bytes, trail: Bytes)
    requires AllBlank(lead) && AllBlank(trail) && IsNumeral(t, sign, digits)
    ensures ParseI64(lead + t + trail) ==
            if MIN_I64 <= Spelled(sign, digits) <= MAX_I64 then Some(Spelled(sign, digits)) else None
  {
    NumeralValue(t, sign, digits);
    AsciiIsValid(lead + t + trail);
    assert t[|t| - 1] == digits[|digits| - 1];
    PaddedIsTrimmed(lead, t, trail);
  }

  /** Whatever is read as a number is such a numeral within blanks. */
  lemma OnlyNumeralsAreRead(b: Bytes)
    requires ParseI64(b).Some?
    ensures exists sign, digits :: IsNumeral(Trim(b), sign, digits)
  {
    var t := Trim(b);
    if t[0] == 43 || t[0] == 45 {
      assert t == [t[0]] + t[1..];
      assert IsNumeral(t, [t[0]], t[1..]);
    } else {
      assert IsNumeral(t, [], t);
    }
  }

  // ---------- command names ----------

  function UpperByte(c: Byte): Byte {
    if 97 <= c <= 122 then c - 32 else c
  }

  function Upper(b: Bytes): Bytes {
    seq(|b|, i requires 0 <= i < |b| => UpperByte(b[i]))
  }

  /** One character per byte: enough to compare with ASCII names. */
  function AsText(b: Bytes): string {
    seq(|b|, i requires 0 <= i < |b| => b[i] as char)
  }

  /** The name a command goes by: its first argument, decoded and upper-cased. */
  function CommandName(b: Bytes): string {
    AsText(Upper(Lossy(b)))
  }

  function ParseCommandLine(argv: seq<Bytes>): Option<Command> {
    if argv == [] then None else Some(Command(CommandName(argv[0]), argv))
  }

  lemma AsciiIsKept(name: string)
    requires forall i :: 0 <= i < |name| ==> name[i] < 128 as char
    ensures Lossy(Ascii(name)) == Ascii(name)
  {
    AsciiIsValid(Ascii(name));
    LossyOfValid(Ascii(name));
  }

  /** An ASCII name in any case goes by its upper-case form: letters are raised, all
      other characters are kept. */
  lemma NameIsRaised(name: string)
    requires forall i :: 0 <= i < |name| ==> name[i] < 128 as char
    ensures |CommandName(Ascii(name))| == |name|
    ensures forall i :: 0 <= i < |name| ==>
              CommandName(Ascii(name))[i] ==
              if 'a' <= name[i] <= 'z' then (name[i] as int - 'a' as int + 'A' as int) as char else name[i]
  {
    AsciiIsKept(name);
  }

  /** An upper-case ASCII name is its own normal form. */
  lemma PlainName(name: string)
    requires forall i :: 0 <= i < |name| ==> 'A' <= name[i] <= 'Z'
    ensures CommandName(Ascii(name)) == name
  {
    NameIsRaised(name);
  }
}
