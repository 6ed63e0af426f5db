/** The in-memory store: what every modelled write does to the keyspace and the
    TTL table, stated on whole values. */
module Store {
  import opened Wire
  import opened Text

  datatype Value = Str(text: Bytes) | Hash(fields: map<Bytes, Bytes>) | Set(members: set<Bytes>)

  datatype StoreState = StoreState(data: map<Bytes, Value>, ttl: map<Bytes, int>)

  datatype Verb =
    | SET | SETNX | GETSET | APPEND | DEL
    | INCR | DECR | INCRBY | DECRBY
    | EXPIRE | PERSIST | RENAME
    | HSET | HMSET | HSETNX | HDEL | HINCRBY
    | SADD | SREM | FLUSH | OTHER(name: string)

  function VerbOf(name: string): Verb {
    if name == "SREM" then SREM
    else if name == "SET" then SET
    else if name == "SETNX" then SETNX
    else if name == "GETSET" then GETSET
    else if name == "APPEND" then APPEND
    else if name == "DEL" || name == "UNLINK" then DEL
    else if name == "INCR" then INCR
    else if name == "DECR" then DECR
    else if name == "INCRBY" then INCRBY
    else if name == "DECRBY" then DECRBY
    else if name == "EXPIRE" || name == "PEXPIRE" || name == "EXPIREAT" || name == "PEXPIREAT" then EXPIRE
    else if name == "PERSIST" then PERSIST
    else if name == "RENAME" then RENAME
    else if name == "HSET" then HSET
    else if name == "HMSET" then HMSET
    else if name == "HSETNX" then HSETNX
    else if name == "HDEL" then HDEL
    else if name == "HINCRBY" then HINCRBY
    else if name == "SADD" then SADD
    else if name == "FLUSHDB" || name == "FLUSHALL" then FLUSH
    else OTHER(name)
  }

  // ---------- replies ----------

  function Ok(): Reply {
    Simple(Ascii("OK"))
  }

  function WrongArgs(command: string): Reply {
    Error(Ascii("ERR wrong number of arguments for '" + command + "' command"))
  }

  function WrongType(): Reply {
    Error(Ascii("WRONGTYPE Operation against a key holding the wrong kind of value"))
  }

  function NotAnInteger(): Reply {
    Error(Ascii("ERR value is not an integer or out of range"))
  }

  function NotImplemented(name: string): Reply {
    Error(Ascii("ERR '" + name + "' is a write but not implemented by MemStore (RD-1); use the redis backend"))
  }

  function Overflow(): Reply {
    Error(Ascii("ERR increment or decrement would overflow"))
  }

  // ---------- effects ----------

  /** The operands from position `from` on, as a set. */
  function Operands(argv: seq<Bytes>, from: nat): set<Bytes>
    decreases |argv| - from
  {
    if from < |argv| then Operands(argv, from + 1) + {argv[from]} else {}
  }

  lemma {:induction false} OperandsAre(argv: seq<Bytes>, from: nat)
    ensures forall x :: x in Operands(argv, from) <==> exists i :: from <= i < |argv| && argv[i] == x
    decreases |argv| - from
  {
    if from < |argv| {
      OperandsAre(argv, from + 1);
    }
  }

  function Stored(st: StoreState, k: Bytes, v: Value): StoreState {
    st.(data := st.data[k := v])
  }

  function Erased(st: StoreState, k: Bytes): StoreState {
    st.(data := st.data - {k})
  }

  /** Negation in 64 bits wraps at the minimum. */
  function Neg64(n: int): int {
    if n == MIN_I64 then MIN_I64 else -n
  }

  function CheckedAdd(a: int, b: int): Option<int> {
    if MIN_I64 <= a + b <= MAX_I64 then Some(a + b) else None
  }

  /** Field/value pairs written left to right. */
  function PutPairs(h: map<Bytes, Bytes>, pairs: seq<Bytes>): map<Bytes, Bytes> {
    if |pairs| < 2 then h
    else PutPairs(h, pairs[..|pairs| - 2])[pairs[|pairs| - 2] := pairs[|pairs| - 1]]
  }

  function FieldsAt(st: StoreState, k: Bytes): map<Bytes, Bytes> {
    if k in st.data && st.data[k].Hash? then st.data[k].fields else map[]
  }

  function MembersAt(st: StoreState, k: Bytes): set<Bytes> {
    if k in st.data && st.data[k].Set? then st.data[k].members else {}
  }

  function ApplyHset(st: StoreState, v: Verb, argv: seq<Bytes>): (StoreState, Reply) {
    if |argv| < 4 || (|argv| - 2) % 2 != 0 then (st, WrongArgs("hset"))
    else if argv[1] in st.data && !st.data[argv[1]].Hash? then (st, WrongType())
    else
      var h := FieldsAt(st, argv[1]);
      var h' := PutPairs(h, argv[2..]);
      (Stored(st, argv[1], Hash(h')), if v == HMSET then Ok() else Integer(|h'| - |h|))
  }

  function ApplySadd(st: StoreState, argv: seq<Bytes>): (StoreState, Reply) {
    if |argv| < 2 then (st, WrongArgs("sadd"))
    else if argv[1] in st.data && !st.data[argv[1]].Set? then (st, WrongType())
    else
      var s := MembersAt(st, argv[1]);
      var s' := s + Operands(argv, 2);
      (Stored(st, argv[1], Set(s')), Integer(|s'| - |s|))
  }

  function ApplySrem(st: StoreState, argv: seq<Bytes>): (StoreState, Reply) {
    if |argv| < 2 then (st, WrongArgs("srem"))
    else if argv[1] !in st.data then (st, Integer(0))
    else if !st.data[argv[1]].Set? then (st, WrongType())
    else
      var s := MembersAt(st, argv[1]);
      var s' := s - Operands(argv, 2);
      (if s' == {} then Erased(st, argv[1]) else Stored(st, argv[1], Set(s')), Integer(|s| - |s'|))
  }

  function ApplyHdel(st: StoreState, argv: seq<Bytes>): (StoreState, Reply) {
    if |argv| < 2 then (st, WrongArgs("hdel"))
    else if argv[1] !in st.data then (st, Integer(0))
    else if !st.data[argv[1]].Hash? then (st, WrongType())
    else
      var h := FieldsAt(st, argv[1]);
      var h' := h - Operands(argv, 2);
      (if h' == map[] then Erased(st, argv[1]) else Stored(st, argv[1], Hash(h')), Integer(|h| - |h'|))
  }

  function ApplyDel(st: StoreState, argv: seq<Bytes>): (StoreState, Reply) {
    var st' := StoreState(st.data - Operands(argv, 1), st.ttl - Operands(argv, 1));
    (st', Integer(|st.data| - |st'.data|))
  }

  function ApplyHsetnx(st: StoreState, argv: seq<Bytes>): (StoreState, Reply) {
    if |argv| < 4 then (st, WrongArgs("hsetnx"))
    else if argv[1] in st.data && !st.data[argv[1]].Hash? then (st, WrongType())
    else
      var h := FieldsAt(st, argv[1]);
      if argv[2] in h then (st, Integer(0))
      else (Stored(st, argv[1], Hash(h[argv[2] := argv[3]])), Integer(1))
  }

  function ApplyString(st: StoreState, v: Verb, argv: seq<Bytes>): (StoreState, Reply)
    requires v.SET? || v.SETNX? || v.GETSET? || v.APPEND?
  {
    if |argv| < 3 then
      (st, WrongArgs(if v.SET? then "set" else if v.SETNX? then "setnx" else if v.GETSET? then "getset" else "append"))
    else
      var k, x := argv[1], argv[2];
      var set' := StoreState(st.data[k := Str(x)], st.ttl - {k});
      match v
      case SET => (set', Ok())
      case SETNX => if k in st.data then (st, Integer(0)) else (Stored(st, k, Str(x)), Integer(1))
      case GETSET =>
        if k !in st.data then (set', Nil)
        else if st.data[k].Str? then (set', Bulk(st.data[k].text))
        else (Stored(st, k, Str(x)), WrongType())
      case APPEND =>
        if k in st.data && !st.data[k].Str? then (st, WrongType()) else
          var text := (if k in st.data then st.data[k].text else []) + x;
          (Stored(st, k, Str(text)), Integer(|text|))
  }

  // ---------- what every write obeys ----------

  /** GETSET on a hash or set: the one command that fails after writing. */
  predicate GetsetOnWrongType(st: StoreState, v: Verb, argv: seq<Bytes>) {
    v.GETSET? && |argv| >= 3 && argv[1] in st.data && !st.data[argv[1]].Str?
  }

  predicate NoEmptyCollections(st: StoreState) {
    forall k :: k in st.data ==> st.data[k] != Set({}) && st.data[k] != Hash(map[])
  }

  /** SADD without members on a missing key. */
  predicate CreatesEmptySet(st: StoreState, v: Verb, argv: seq<Bytes>) {
    v.SADD? && |argv| == 2 && argv[1] !in st.data
  }

  predicate TtlsBelongToKeys(st: StoreState) {
    st.ttl.Keys <= st.data.Keys
  }

  /** The write removes the last member or field of a key that has a TTL. */
  predicate EmptiesKeyWithTtl(st: StoreState, v: Verb, argv: seq<Bytes>) {
    && |argv| >= 2 && argv[1] in st.ttl && argv[1] in st.data
    && ((v.SREM? && st.data[argv[1]].Set? && st.data[argv[1]].members <= Operands(argv, 2))
        || (v.HDEL? && st.data[argv[1]].Hash? && st.data[argv[1]].fields.Keys <= Operands(argv, 2)))
  }

  predicate SameAt(st: StoreState, st': StoreState, k: Bytes) {
    && (k in st'.data <==> k in st.data) && (k in st.data ==> st'.data[k] == st.data[k])
    && (k in st'.ttl <==> k in st.ttl) && (k in st.ttl ==> st'.ttl[k] == st.ttl[k])
  }

  /** An error reply means that nothing changed, with exactly one exception. */
  ghost predicate ErrorLaw(st: StoreState, v: Verb, argv: seq<Bytes>, out: (StoreState, Reply)) {
    out.1.Error? ==> (out.0 == st <==> !GetsetOnWrongType(st, v, argv))
  }

  /** A write touches only keys that it names, unless it flushes. */
  ghost predicate FrameLaw(st: StoreState, v: Verb, argv: seq<Bytes>, out: (StoreState, Reply)) {
    !v.FLUSH? ==> forall k :: k !in Operands(argv, 1) ==> SameAt(st, out.0, k)
  }

  /** No write leaves an empty set or hash behind, with exactly one exception. */
  ghost predicate NonemptyLaw(st: StoreState, v: Verb, argv: seq<Bytes>, out: (StoreState, Reply)) {
    NoEmptyCollections(st) ==> (NoEmptyCollections(out.0) <==> !CreatesEmptySet(st, v, argv))
  }

  /** TTLs stay attached to existing keys, with exactly one family of exceptions. */
  ghost predicate TtlLaw(st: StoreState, v: Verb, argv: seq<Bytes>, out: (StoreState, Reply)) {
    TtlsBelongToKeys(st) ==> (TtlsBelongToKeys(out.0) <==> !EmptiesKeyWithTtl(st, v, argv))
  }

  ghost predicate Laws(st: StoreState, v: Verb, argv: seq<Bytes>, out: (StoreState, Reply)) {
    ErrorLaw(st, v, argv, out) && FrameLaw(st, v, argv, out) && NonemptyLaw(st, v, argv, out) && TtlLaw(st, v, argv, out)
  }

  lemma NamedKeys(argv: seq<Bytes>)
    ensures |argv| > 1 ==> argv[1] in Operands(argv, 1)
    ensures |argv| > 2 ==> argv[2] in Operands(argv, 1) && argv[2] in Operands(argv, 2)
    ensures |argv| <= 2 ==> Operands(argv, 2) == {}
  {
    assert |argv| > 2 ==> argv[2] in Operands(argv, 2);
  }

  lemma StoredLaws(st: StoreState, k: Bytes, x: Value)
    ensures forall j :: j != k ==> SameAt(st, Stored(st, k, x), j)
    ensures NoEmptyCollections(st) ==> (NoEmptyCollections(Stored(st, k, x)) <==> x != Set({}) && x != Hash(map[]))
    ensures TtlsBelongToKeys(st) ==> TtlsBelongToKeys(Stored(st, k, x))
  {
    assert Stored(st, k, x).data[k] == x;
  }

  lemma ErasedLaws(st: StoreState, k: Bytes)
    ensures forall j :: j != k ==> SameAt(st, Erased(st, k), j)
    ensures NoEmptyCollections(st) ==> NoEmptyCollections(Erased(st, k))
    ensures TtlsBelongToKeys(st) ==> (TtlsBelongToKeys(Erased(st, k)) <==> k !in st.ttl)
  {
  }

  /** Storing a string under a named key breaks no law. */
  lemma StringStoredLaws(st: StoreState, v: Verb, argv: seq<Bytes>, k: Bytes, x: Value, r: Reply)
    requires !v.GETSET? && !v.SADD? && !v.SREM? && !v.HDEL?
    requires k in Operands(argv, 1) && x.Str? && !r.Error?
    ensures Laws(st, v, argv, (Stored(st, k, x), r))
  {
    StoredLaws(st, k, x);
  }

  lemma SaddLaws(st: StoreState, argv: seq<Bytes>)
    ensures Laws(st, SADD, argv, ApplySadd(st, argv))
  {
    NamedKeys(argv);
    if |argv| >= 2 && !ApplySadd(st, argv).1.Error? {
      StoredLaws(st, argv[1], Set(MembersAt(st, argv[1]) + Operands(argv, 2)));
    }
  }

  lemma SremLaws(st: StoreState, argv: seq<Bytes>)
    ensures Laws(st, SREM, argv, ApplySrem(st, argv))
  {
    NamedKeys(argv);
    if |argv| >= 2 && argv[1] in st.data && st.data[argv[1]].Set? {
      var s := MembersAt(st, argv[1]);
      assert s - Operands(argv, 2) == {} <==> s <= Operands(argv, 2);
      StoredLaws(st, argv[1], Set(s - Operands(argv, 2)));
      ErasedLaws(st, argv[1]);
    }
  }

  lemma MapEmptied(h: map<Bytes, Bytes>, gone: set<Bytes>)
    ensures h - gone == map[] <==> h.Keys <= gone
  {
    assert (h - gone).Keys == h.Keys - gone;
    assert h - gone == map[] <==> (h - gone).Keys == {};
    if !(h.Keys <= gone) {
      var x :| x in h.Keys && x !in gone;
      assert x in h.Keys - gone;
    }
  }

  lemma HdelLaws(st: StoreState, argv: seq<Bytes>)
    ensures Laws(st, HDEL, argv, ApplyHdel(st, argv))
  {
    NamedKeys(argv);
    if |argv| >= 2 && argv[1] in st.data && st.data[argv[1]].Hash? {
      var h := FieldsAt(st, argv[1]);
      MapEmptied(h, Operands(argv, 2));
      StoredLaws(st, argv[1], Hash(h - Operands(argv, 2)));
      ErasedLaws(st, argv[1]);
    }
  }

  lemma HsetLaws(st: StoreState, v: Verb, argv: seq<Bytes>)
    requires v.HSET? || v.HMSET?
    ensures Laws(st, v, argv, ApplyHset(st, v, argv))
  {
    NamedKeys(argv);
    if !ApplyHset(st, v, argv).1.Error? {
      var pairs := argv[2..];
      assert pairs[|pairs| - 2] in PutPairs(FieldsAt(st, argv[1]), pairs);
    }
  }

  lemma HsetnxLaws(st: StoreState, argv: seq<Bytes>)
    ensures Laws(st, HSETNX, argv, ApplyHsetnx(st, argv))
  {
    NamedKeys(argv);
  }

  lemma DelLaws(st: StoreState, argv: seq<Bytes>)
    ensures Laws(st, DEL, argv, ApplyDel(st, argv))
  {
    DelFrame(st, Operands(argv, 1));
  }

  lemma DelFrame(st: StoreState, keys: set<Bytes>)
    ensures var st' := StoreState(st.data - keys, st.ttl - keys);
            && (forall k :: k !in keys ==> SameAt(st, st', k))
            && (forall k :: k in st'.data ==> k in st.data && st'.data[k] == st.data[k])
            && (TtlsBelongToKeys(st) ==> TtlsBelongToKeys(st'))
  {
  }

  lemma FlushLaws(st: StoreState, argv: seq<Bytes>)
    ensures Laws(st, FLUSH, argv, (StoreState(map[], map[]), Ok()))
  {
  }

  lemma RefusedLaws(st: StoreState, v: Verb, argv: seq<Bytes>)
    requires v.OTHER?
    ensures Laws(st, v, argv, (st, NotImplemented(v.name)))
  {
  }

  lemma UnchangedLaws(st: StoreState, v: Verb, argv: seq<Bytes>, r: Reply)
    requires !GetsetOnWrongType(st, v, argv) && !v.SADD? && !v.SREM? && !v.HDEL?
    ensures Laws(st, v, argv, (st, r))
  {
  }

  lemma PlainSetLaws(st: StoreState, v: Verb, argv: seq<Bytes>, k: Bytes, x: Value, r: Reply)
    requires (v.SET? || v.GETSET?) && k in Operands(argv, 1) && x.Str? && !r.Error?
    ensures Laws(st, v, argv, (StoreState(st.data[k := x], st.ttl - {k}), r))
  {
  }

  lemma GetsetWrongTypeLaws(st: StoreState, v: Verb, argv: seq<Bytes>, x: Value)
    requires GetsetOnWrongType(st, v, argv) && argv[1] in Operands(argv, 1) && x.Str?
    ensures Laws(st, v, argv, (Stored(st, argv[1], x), WrongType()))
  {
    StoredLaws(st, argv[1], x);
    assert Stored(st, argv[1], x).data[argv[1]] != st.data[argv[1]];
  }

  lemma StringLaws(st: StoreState, v: Verb, argv: seq<Bytes>)
    requires v.SET? || v.SETNX? || v.GETSET? || v.APPEND?
    ensures Laws(st, v, argv, ApplyString(st, v, argv))
  {
    NamedKeys(argv);
    var (st', r) := ApplyString(st, v, argv);
    if GetsetOnWrongType(st, v, argv) {
      GetsetWrongTypeLaws(st, v, argv, Str(argv[2]));
    } else if st' == st {
      UnchangedLaws(st, v, argv, r);
    } else if v.SET? || v.GETSET? {
      PlainSetLaws(st, v, argv, argv[1], Str(argv[2]), r);
    } else {
      StringStoredLaws(st, v, argv, argv[1], st'.data[argv[1]], r);
    }
  }

  // Each of the exceptions named in the laws occurs.

  lemma GetsetFailsAfterWriting(k: Bytes, m: Bytes)
    ensures var st := StoreState(map[k := Set({m})], map[]);
            var out := ApplyString(st, GETSET, [[], k, m]);
            out.1.Error? && out.0 != st
  {
    var out := ApplyString(StoreState(map[k := Set({m})], map[]), GETSET, [[], k, m]);
    assert out.0.data[k] == Str(m);
  }

  lemma SaddLeavesEmptySet(k: Bytes)
    ensures var out := ApplySadd(StoreState(map[], map[]), [[], k]);
            !out.1.Error? && !NoEmptyCollections(out.0)
  {
    SaddLaws(StoreState(map[], map[]), [[], k]);
  }

  lemma SremLeavesTtl(k: Bytes, m: Bytes)
    ensures var st := StoreState(map[k := Set({m})], map[k := 1]);
            var out := ApplySrem(st, [[], k, m]);
            !out.1.Error? && TtlsBelongToKeys(st) && !TtlsBelongToKeys(out.0)
  {
    NamedKeys([[], k, m]);
    SremLaws(StoreState(map[k := Set({m})], map[k := 1]), [[], k, m]);
  }

  /** The command table, over the way integers are read from and printed to text.
      What is proved here holds for every reader and printer that fit together. */
  datatype Rules = Rules(readInt: Bytes -> Option<int>, printInt: int -> Bytes) {

    /** The signed amount an increment command asks for, if it is a number. */
    function Delta(v: Verb, argv: seq<Bytes>): Option<int> {
      match v
      case INCR => Some(1)
      case DECR => Some(-1)
      case INCRBY => if |argv| > 2 then readInt(argv[2]) else None
      case _ =>
        if |argv| <= 2 then None else
          match readInt(argv[2])
          case None => None
          case Some(n) => Some(Neg64(n))
    }

    /** Add `delta` to the number stored at `k`, a missing key counting as 0. */
    function IncrBy(st: StoreState, k: Bytes, delta: int): (StoreState, Reply) {
      if k in st.data && !st.data[k].Str? then (st, WrongType())
      else
        var cur := if k in st.data then readInt(st.data[k].text) else Some(0);
        if cur.None? then (st, NotAnInteger()) else
          match CheckedAdd(cur.value, delta)
          case None => (st, Overflow())
          case Some(n) => (Stored(st, k, Str(printInt(n))), Integer(n))
    }

    function ApplyIncr(st: StoreState, v: Verb, argv: seq<Bytes>): (StoreState, Reply) {
      if |argv| < 2 then (st, WrongArgs("incr")) else
        match Delta(v, argv)
        case None => (st, NotAnInteger())
        case Some(delta) => IncrBy(st, argv[1], delta)
    }

    function ApplyHincrby(st: StoreState, argv: seq<Bytes>): (StoreState, Reply) {
      if |argv| < 4 then (st, WrongArgs("hincrby")) else
        var k, f := argv[1], argv[2];
        match readInt(argv[3])
        case None => (st, NotAnInteger())
        case Some(delta) =>
          if k in st.data && !st.data[k].Hash? then (st, WrongType()) else
            var h := FieldsAt(st, k);
            var cur := if f in h then readInt(h[f]) else Some(0);
            // the hash entry is created before the field is looked at
            var touched := Stored(st, k, Hash(h));
            if cur.None? then (touched, Error(Ascii("ERR hash value is not an integer"))) else
              match CheckedAdd(cur.value, delta)
              case None => (touched, Overflow())
              case Some(n) => (Stored(st, k, Hash(h[f := printInt(n)])), Integer(n))
    }

    function ApplyKey(st: StoreState, v: Verb, argv: seq<Bytes>): (StoreState, Reply)
      requires v.EXPIRE? || v.PERSIST? || v.RENAME?
    {
      match v
      case EXPIRE =>
        if |argv| < 2 then (st, WrongArgs("expire"))
        else if argv[1] !in st.data then (st, Integer(0))
        else
          var secs := if |argv| > 2 && readInt(argv[2]).Some? then readInt(argv[2]).value else 0;
          (st.(ttl := st.ttl[argv[1] := secs]), Integer(1))
      case PERSIST =>
        if |argv| < 2 then (st, WrongArgs("persist"))
        else if argv[1] in st.ttl then (st.(ttl := st.ttl - {argv[1]}), Integer(1))
        else (st, Integer(0))
      case RENAME =>
        if |argv| < 3 then (st, WrongArgs("rename"))
        else if argv[1] !in st.data then (st, Error(Ascii("ERR no such key")))
        else
          var src, dst := argv[1], argv[2];
          var ttl := st.ttl - {src};
          (StoreState((st.data - {src})[dst := st.data[src]],
                      if src in st.ttl then ttl[dst := st.ttl[src]] else ttl - {dst}),
           Ok())
    }

    predicate OnCollections(v: Verb) {
      v.DEL? || v.HSETNX? || v.HDEL? || v.HINCRBY? || v.SADD? || v.SREM? || v.FLUSH? || v.OTHER?
    }

    function ApplyCollection(st: StoreState, v: Verb, argv: seq<Bytes>): (StoreState, Reply)
      requires OnCollections(v)
    {
      if v.DEL? then ApplyDel(st, argv)
      else if v.HSETNX? then ApplyHsetnx(st, argv)
      else if v.HDEL? then ApplyHdel(st, argv)
      else if v.HINCRBY? then ApplyHincrby(st, argv)
      else if v.SADD? then ApplySadd(st, argv)
      else if v.SREM? then ApplySrem(st, argv)
      else if v.FLUSH? then (StoreState(map[], map[]), Ok())
      else (st, NotImplemented(v.name))
    }

    predicate OnSingle(v: Verb) {
      v.SET? || v.SETNX? || v.GETSET? || v.APPEND? || v.EXPIRE? || v.PERSIST? || v.RENAME?
    }

    function ApplySingle(st: StoreState, v: Verb, argv: seq<Bytes>): (StoreState, Reply)
      requires OnSingle(v)
    {
      if v.EXPIRE? || v.PERSIST? || v.RENAME? then ApplyKey(st, v, argv) else ApplyString(st, v, argv)
    }

    function ApplyScalar(st: StoreState, v: Verb, argv: seq<Bytes>): (StoreState, Reply)
      requires !OnCollections(v)
    {
      if v.INCR? || v.DECR? || v.INCRBY? || v.DECRBY? then ApplyIncr(st, v, argv)
      else if v.HSET? || v.HMSET? then ApplyHset(st, v, argv)
      else ApplySingle(st, v, argv)
    }

    function ApplyVerb(st: StoreState, v: Verb, argv: seq<Bytes>): (StoreState, Reply) {
      if OnCollections(v) then ApplyCollection(st, v, argv) else ApplyScalar(st, v, argv)
    }

    function Apply(st: StoreState, cmd: Command): (StoreState, Reply) {
      ApplyVerb(st, VerbOf(cmd.name), cmd.argv)
    }

    /** The integer reader and printer fit together. */
    ghost predicate Lawful() {
      && (forall n: int {:trigger readInt(printInt(n))} :: MIN_I64 <= n <= MAX_I64 ==> readInt(printInt(n)) == Some(n))
      && (forall b :: readInt(b).Some? ==> MIN_I64 <= readInt(b).value <= MAX_I64)
    }

    lemma KeyLaws(st: StoreState, v: Verb, argv: seq<Bytes>)
      requires v.EXPIRE? || v.PERSIST? || v.RENAME?
      ensures Laws(st, v, argv, ApplyKey(st, v, argv))
    {
      NamedKeys(argv);
    }

    lemma IncrByFrame(st: StoreState, k: Bytes, delta: int)
      ensures var (st', r) := IncrBy(st, k, delta);
              if r.Error? then st' == st else r.Integer? && st' == Stored(st, k, Str(printInt(r.n)))
    {
    }

    lemma IncrLaws(st: StoreState, v: Verb, argv: seq<Bytes>)
      requires v.INCR? || v.DECR? || v.INCRBY? || v.DECRBY?
      ensures Laws(st, v, argv, ApplyIncr(st, v, argv))
    {
      var (st', r) := ApplyIncr(st, v, argv);
      if |argv| >= 2 && Delta(v, argv).Some? {
        IncrByFrame(st, argv[1], Delta(v, argv).value);
      }
      if r.Error? {
        assert st' == st;
      } else {
        NamedKeys(argv);
        StringStoredLaws(st, v, argv, argv[1], Str(printInt(r.n)), r);
      }
    }

    /** Although HINCRBY creates the hash entry first, its later errors can only
        happen when the field, hence the hash, was already there. */
    lemma HincrbyErrorUnchanged(st: StoreState, argv: seq<Bytes>)
      requires Lawful() && ApplyHincrby(st, argv).1.Error?
      ensures ApplyHincrby(st, argv).0 == st
    {
      if |argv| >= 4 && readInt(argv[3]).Some? && !(argv[1] in st.data && !st.data[argv[1]].Hash?) {
        assert argv[2] in FieldsAt(st, argv[1]);
        assert st.data[argv[1] := Hash(FieldsAt(st, argv[1]))] == st.data;
      }
    }

    lemma HincrbyLaws(st: StoreState, argv: seq<Bytes>)
      requires Lawful()
      ensures Laws(st, HINCRBY, argv, ApplyHincrby(st, argv))
    {
      NamedKeys(argv);
      if ApplyHincrby(st, argv).1.Error? {
        HincrbyErrorUnchanged(st, argv);
      } else {
        var n := ApplyHincrby(st, argv).1.n;
        assert argv[2] in FieldsAt(st, argv[1])[argv[2] := printInt(n)];
      }
    }

    lemma CollectionLaws(st: StoreState, v: Verb, argv: seq<Bytes>)
      requires Lawful() && OnCollections(v)
      ensures Laws(st, v, argv, ApplyCollection(st, v, argv))
    {
      if v.HDEL? {
        HdelLaws(st, argv);
      } else if v.SADD? {
        SaddLaws(st, argv);
      } else if v.SREM? {
        SremLaws(st, argv);
      } else if v.HINCRBY? {
        HincrbyLaws(st, argv);
      } else if v.DEL? {
        DelLaws(st, argv);
      } else if v.HSETNX? {
        HsetnxLaws(st, argv);
      } else if v.FLUSH? {
        FlushLaws(st, argv);
      } else {
        RefusedLaws(st, v, argv);
      }
    }

    lemma ScalarLaws(st: StoreState, v: Verb, argv: seq<Bytes>)
      requires !OnCollections(v)
      ensures Laws(st, v, argv, ApplyScalar(st, v, argv))
    {
      if v.INCR? || v.DECR? || v.INCRBY? || v.DECRBY? {
        IncrLaws(st, v, argv);
      } else if v.HSET? || v.HMSET? {
        HsetLaws(st, v, argv);
      } else if v.EXPIRE? || v.PERSIST? || v.RENAME? {
        KeyLaws(st, v, argv);
      } else {
        StringLaws(st, v, argv);
      }
    }

    /** For every modelled write on every store: errors change nothing except for
        GETSET on a hash or set; unnamed keys are untouched; no empty collection
        appears except for SADD without members on a missing key; no TTL is left
        without its key except when SREM or HDEL empties a key that has one. */
    lemma EveryWriteObeysTheLaws(st: StoreState, v: Verb, argv: seq<Bytes>)
      requires Lawful()
      ensures Laws(st, v, argv, ApplyVerb(st, v, argv))
    {
      if OnCollections(v) {
        CollectionLaws(st, v, argv);
      } else {
        ScalarLaws(st, v, argv);
      }
    }

    // ---------- counters ----------

    /** A successful increment leaves a number that reads back as the reply, so the
        next one continues from exactly there. */
    lemma IncrReplyIsStored(st: StoreState, v: Verb, argv: seq<Bytes>)
      requires Lawful() && (v.INCR? || v.DECR? || v.INCRBY? || v.DECRBY?)
      requires ApplyIncr(st, v, argv).1.Integer?
      ensures var (st', r) := ApplyIncr(st, v, argv);
              && argv[1] in st'.data && st'.data[argv[1]].Str?
              && readInt(st'.data[argv[1]].text) == Some(r.n)
    {
    }

    /** The number at `k` before a counter command: a missing key counts as 0. */
    function Counter(st: StoreState, k: Bytes): Option<int> {
      if k !in st.data then Some(0)
      else if st.data[k].Str? then readInt(st.data[k].text)
      else None
    }

    /** What a successful counter command replies: the number before, moved by the
        amount asked for, within 64 bits. DECRBY subtracts its operand exactly when
        that is not the smallest 64-bit integer, which has no negative. */
    lemma IncrMovesCounter(st: StoreState, v: Verb, argv: seq<Bytes>)
      requires (v.INCR? || v.DECR? || v.INCRBY? || v.DECRBY?) && ApplyIncr(st, v, argv).1.Integer?
      ensures var r := ApplyIncr(st, v, argv).1.n;
              && |argv| >= 2 && Counter(st, argv[1]).Some? && MIN_I64 <= r <= MAX_I64
              && var before := Counter(st, argv[1]).value;
                 && (v.INCR? ==> r == before + 1)
                 && (v.DECR? ==> r == before - 1)
                 && (v.INCRBY? || v.DECRBY? ==> |argv| > 2 && readInt(argv[2]).Some?)
                 && (v.INCRBY? ==> r == before + readInt(argv[2]).value)
                 && (v.DECRBY? ==> (r == before - readInt(argv[2]).value <==> readInt(argv[2]).value != MIN_I64))
    {
      IncrByFrame(st, argv[1], Delta(v, argv).value);
    }

    /** Two increments in a row are one by the sum, as long as neither overflows. */
    lemma IncrementsCompose(st: StoreState, k: Bytes, a: int, b: int)
      requires Lawful() && MIN_I64 <= a + b <= MAX_I64
      requires IncrBy(st, k, a).1.Integer?
      ensures IncrBy(IncrBy(st, k, a).0, k, b) ==
              if IncrBy(st, k, a + b).1.Integer? then IncrBy(st, k, a + b) else (IncrBy(st, k, a).0, Overflow())
    {
      var n := IncrBy(st, k, a).1.n;
      var st' := Stored(st, k, Str(printInt(n)));
      assert readInt(printInt(n)) == Some(n);
      var total := Str(printInt(n + b));
      assert st'.data[k := total] == st.data[k := total];
    }
  }

  /** The integers of the source: 64-bit decimal text, trimmed. */
  const MEM_RULES: Rules := Rules(b => ParseI64(b), n => Format(n))

  lemma ParseInRange(b: Bytes)
    requires ParseI64(b).Some?
    ensures MIN_I64 <= ParseI64(b).value <= MAX_I64
  {
  }

  lemma MemRulesLawful()
    ensures MEM_RULES.Lawful()
  {
    forall n: int | MIN_I64 <= n <= MAX_I64 ensures MEM_RULES.readInt(MEM_RULES.printInt(n)) == Some(n) {
      ParseOfFormat(n);
    }
    forall b | MEM_RULES.readInt(b).Some? ensures MIN_I64 <= MEM_RULES.readInt(b).value <= MAX_I64 {
      ParseInRange(b);
    }
  }
}
