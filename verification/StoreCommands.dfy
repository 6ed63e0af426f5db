/** What each command of the in-memory store leaves behind and replies, said directly,
    from the name of the command on. */
module StoreCommands {
  import opened Wire
  import opened Text
  import opened Store
  import opened StoreInverses

  /** What a command leaves and replies. */
  type Out = (StoreState, Reply)

  /** The operands from position `from` on. */
  predicate Named(argv: seq<Bytes>, from: nat, x: Bytes) {
    from <= |argv| && x in argv[from..]
  }

  lemma OperandsAreNamed(argv: seq<Bytes>, from: nat)
    ensures forall x :: x in Operands(argv, from) <==> Named(argv, from, x)
  {
    OperandsAre(argv, from);
    forall x ensures x in Operands(argv, from) <==> Named(argv, from, x) {
      if x in Operands(argv, from) {
        var i :| from <= i < |argv| && argv[i] == x;
        assert argv[from..][i - from] == x;
      }
      if Named(argv, from, x) {
        var i :| 0 <= i < |argv| - from && argv[from..][i] == x;
        assert argv[from + i] == x;
      }
    }
  }

  /** The error texts of the store. */
  function Arity(command: string): Reply {
    Error(Ascii("ERR wrong number of arguments for '" + command + "' command"))
  }

  const WRONG_TYPE: Reply := Error(Ascii("WRONGTYPE Operation against a key holding the wrong kind of value"))

  const NOT_AN_INTEGER: Reply := Error(Ascii("ERR value is not an integer or out of range"))

  const OVERFLOW: Reply := Error(Ascii("ERR increment or decrement would overflow"))

  const OK: Reply := Simple(Ascii("OK"))

  // ---------- names ----------

  lemma SetVerb()
    ensures VerbOf("SET") == SET
  {
  }

  lemma SetnxVerb()
    ensures VerbOf("SETNX") == SETNX
  {
  }

  lemma GetsetVerb()
    ensures VerbOf("GETSET") == GETSET
  {
  }

  lemma AppendVerb()
    ensures VerbOf("APPEND") == APPEND
  {
  }

  lemma DelVerb(name: string)
    requires name == "DEL" || name == "UNLINK"
    ensures VerbOf(name) == DEL
  {
  }

  lemma MemberVerbs()
    ensures VerbOf("SADD") == SADD && VerbOf("SREM") == SREM
  {
  }

  lemma HashVerbs()
    ensures VerbOf("HSETNX") == HSETNX && VerbOf("HDEL") == HDEL
    ensures VerbOf("HSET") == HSET && VerbOf("HMSET") == HMSET
  {
  }

  lemma HincrbyVerb()
    ensures VerbOf("HINCRBY") == HINCRBY
  {
  }

  lemma FlushVerb(name: string)
    requires name == "FLUSHDB" || name == "FLUSHALL"
    ensures VerbOf(name) == FLUSH
  {
  }

  lemma ExpireVerb(name: string)
    requires name == "EXPIRE" || name == "PEXPIRE" || name == "EXPIREAT" || name == "PEXPIREAT"
    ensures VerbOf(name) == EXPIRE
  {
  }

  lemma KeyVerbs()
    ensures VerbOf("PERSIST") == PERSIST && VerbOf("RENAME") == RENAME
  {
  }

  // ---------- from a name to what is run ----------

  lemma CollectionRun(rules: Rules, st: StoreState, name: string, v: Verb, argv: seq<Bytes>)
    requires VerbOf(name) == v && rules.OnCollections(v)
    ensures rules.Apply(st, Command(name, argv)) == rules.ApplyCollection(st, v, argv)
  {
  }

  lemma ScalarRun(rules: Rules, st: StoreState, name: string, v: Verb, argv: seq<Bytes>)
    requires VerbOf(name) == v && !rules.OnCollections(v)
    ensures rules.Apply(st, Command(name, argv)) == rules.ApplyScalar(st, v, argv)
  {
  }

  lemma StringRun(rules: Rules, st: StoreState, name: string, v: Verb, argv: seq<Bytes>)
    requires VerbOf(name) == v && (v.SET? || v.SETNX? || v.GETSET? || v.APPEND?)
    ensures rules.Apply(st, Command(name, argv)) == ApplyString(st, v, argv)
  {
    ScalarRun(rules, st, name, v, argv);
  }

  lemma KeyRun(rules: Rules, st: StoreState, name: string, v: Verb, argv: seq<Bytes>)
    requires VerbOf(name) == v && (v.EXPIRE? || v.PERSIST? || v.RENAME?)
    ensures rules.Apply(st, Command(name, argv)) == rules.ApplyKey(st, v, argv)
  {
    ScalarRun(rules, st, name, v, argv);
  }

  // ---------- strings ----------

  /** The value is stored and the TTL is cleared, whatever was there. */
  ghost predicate Sets(st: StoreState, argv: seq<Bytes>, out: Out) {
    out == if |argv| < 3 then (st, Arity("set"))
           else (StoreState(st.data[argv[1] := Str(argv[2])], st.ttl - {argv[1]}), OK)
  }

  lemma SetSets(st: StoreState, argv: seq<Bytes>)
    ensures Sets(st, argv, ApplyString(st, SET, argv))
  {
  }

  lemma SetCommand(rules: Rules, st: StoreState, argv: seq<Bytes>)
    ensures Sets(st, argv, rules.Apply(st, Command("SET", argv)))
  {
    SetVerb();
    StringRun(rules, st, "SET", SET, argv);
    SetSets(st, argv);
  }

  /** The value is stored only where there is none, and the reply says whether it was. */
  ghost predicate SetsIfMissing(st: StoreState, argv: seq<Bytes>, out: Out) {
    out == if |argv| < 3 then (st, Arity("setnx"))
           else if argv[1] in st.data then (st, Integer(0))
           else (StoreState(st.data[argv[1] := Str(argv[2])], st.ttl), Integer(1))
  }

  lemma SetnxSetsIfMissing(st: StoreState, argv: seq<Bytes>)
    ensures SetsIfMissing(st, argv, ApplyString(st, SETNX, argv))
  {
  }

  lemma SetnxCommand(rules: Rules, st: StoreState, argv: seq<Bytes>)
    ensures SetsIfMissing(st, argv, rules.Apply(st, Command("SETNX", argv)))
  {
    SetnxVerb();
    StringRun(rules, st, "SETNX", SETNX, argv);
    SetnxSetsIfMissing(st, argv);
  }

  /** The value is stored, the TTL is cleared and the old string is the reply; over
      another kind of value it is stored, the TTL stays and the reply is an error. */
  ghost predicate Swaps(st: StoreState, argv: seq<Bytes>, out: Out) {
    if |argv| < 3 then out == (st, Arity("getset"))
    else
      var data := st.data[argv[1] := Str(argv[2])];
      out == if argv[1] !in st.data then (StoreState(data, st.ttl - {argv[1]}), Nil)
             else if st.data[argv[1]].Str? then (StoreState(data, st.ttl - {argv[1]}), Bulk(st.data[argv[1]].text))
             else (StoreState(data, st.ttl), WRONG_TYPE)
  }

  lemma GetsetSwaps(st: StoreState, argv: seq<Bytes>)
    ensures Swaps(st, argv, ApplyString(st, GETSET, argv))
  {
  }

  lemma GetsetCommand(rules: Rules, st: StoreState, argv: seq<Bytes>)
    ensures Swaps(st, argv, rules.Apply(st, Command("GETSET", argv)))
  {
    GetsetVerb();
    StringRun(rules, st, "GETSET", GETSET, argv);
    GetsetSwaps(st, argv);
  }

  /** The old text stays, followed by the new one, and the reply is the whole length. */
  ghost predicate Appends(st: StoreState, argv: seq<Bytes>, out: Out) {
    if |argv| < 3 then out == (st, Arity("append"))
    else if argv[1] in st.data && !st.data[argv[1]].Str? then out == (st, WRONG_TYPE)
    else
      var before := if argv[1] in st.data then st.data[argv[1]].text else [];
      out == (StoreState(st.data[argv[1] := Str(before + argv[2])], st.ttl), Integer(|before| + |argv[2]|))
  }

  lemma AppendAppends(st: StoreState, argv: seq<Bytes>)
    ensures Appends(st, argv, ApplyString(st, APPEND, argv))
  {
  }

  lemma AppendCommand(rules: Rules, st: StoreState, argv: seq<Bytes>)
    ensures Appends(st, argv, rules.Apply(st, Command("APPEND", argv)))
  {
    AppendVerb();
    StringRun(rules, st, "APPEND", APPEND, argv);
    AppendAppends(st, argv);
  }

  // ---------- counters ----------

  /** The amount a counter command asks for. */
  ghost predicate Asks(rules: Rules, name: string, argv: seq<Bytes>, amount: Option<int>) {
    var operand := if |argv| > 2 then rules.readInt(argv[2]) else None;
    || (name == "INCR" && amount == Some(1))
    || (name == "DECR" && amount == Some(-1))
    || (name == "INCRBY" && amount == operand)
    || (name == "DECRBY" && if operand.None? then amount.None? else
          amount == Some(if operand.value == MIN_I64 then MIN_I64 else -operand.value))
  }

  /** The number at the key moves by the amount and is the reply; a missing key counts
      as 0, and nothing changes on any error. */
  ghost predicate Moves(rules: Rules, st: StoreState, argv: seq<Bytes>, amount: Option<int>, out: Out) {
    if |argv| < 2 then out == (st, Arity("incr"))
    else if amount.None? then out == (st, NOT_AN_INTEGER)
    else if argv[1] in st.data && !st.data[argv[1]].Str? then out == (st, WRONG_TYPE)
    else
      match if argv[1] in st.data then rules.readInt(st.data[argv[1]].text) else Some(0)
      case None => out == (st, NOT_AN_INTEGER)
      case Some(before) =>
        var total := before + amount.value;
        out == if MIN_I64 <= total <= MAX_I64
               then (StoreState(st.data[argv[1] := Str(rules.printInt(total))], st.ttl), Integer(total))
               else (st, OVERFLOW)
  }

  lemma IncrMoves(rules: Rules, st: StoreState, v: Verb, argv: seq<Bytes>)
    requires v.INCR? || v.DECR? || v.INCRBY? || v.DECRBY?
    ensures Moves(rules, st, argv, rules.Delta(v, argv), rules.ApplyIncr(st, v, argv))
  {
  }

  function CounterVerb(name: string): Verb {
    if name == "INCR" then INCR else if name == "DECR" then DECR else if name == "INCRBY" then INCRBY else DECRBY
  }

  lemma AskedIsDelta(rules: Rules, name: string, argv: seq<Bytes>, amount: Option<int>)
    requires Asks(rules, name, argv, amount)
    ensures VerbOf(name) == CounterVerb(name) && rules.Delta(CounterVerb(name), argv) == amount
  {
  }

  /** INCR, DECR, INCRBY and DECRBY. */
  lemma CounterCommand(rules: Rules, st: StoreState, name: string, argv: seq<Bytes>, amount: Option<int>)
    requires Asks(rules, name, argv, amount)
    ensures Moves(rules, st, argv, amount, rules.Apply(st, Command(name, argv)))
  {
    var v := CounterVerb(name);
    AskedIsDelta(rules, name, argv, amount);
    IncrMoves(rules, st, v, argv);
    ScalarRun(rules, st, name, v, argv);
  }

  /** HINCRBY does the same with one field of a hash, other fields being kept. */
  ghost predicate MovesField(rules: Rules, st: StoreState, argv: seq<Bytes>, out: Out) {
    if |argv| < 4 then out == (st, Arity("hincrby"))
    else if rules.readInt(argv[3]).None? then out == (st, NOT_AN_INTEGER)
    else if argv[1] in st.data && !st.data[argv[1]].Hash? then out == (st, WRONG_TYPE)
    else
      var h := if argv[1] in st.data then st.data[argv[1]].fields else map[];
      match if argv[2] in h then rules.readInt(h[argv[2]]) else Some(0)
      case None => out == (st, Error(Ascii("ERR hash value is not an integer")))
      case Some(before) =>
        var total := before + rules.readInt(argv[3]).value;
        out == if MIN_I64 <= total <= MAX_I64
               then (StoreState(st.data[argv[1] := Hash(h[argv[2] := rules.printInt(total)])], st.ttl), Integer(total))
               else (st, OVERFLOW)
  }

  lemma HincrbyMoves(rules: Rules, st: StoreState, argv: seq<Bytes>)
    requires rules.Lawful()
    ensures MovesField(rules, st, argv, rules.ApplyHincrby(st, argv))
  {
    if rules.ApplyHincrby(st, argv).1.Error? {
      rules.HincrbyErrorUnchanged(st, argv);
    }
  }

  lemma HincrbyCommand(rules: Rules, st: StoreState, argv: seq<Bytes>)
    requires rules.Lawful()
    ensures MovesField(rules, st, argv, rules.Apply(st, Command("HINCRBY", argv)))
  {
    HincrbyVerb();
    HincrbyMoves(rules, st, argv);
    CollectionRun(rules, st, "HINCRBY", HINCRBY, argv);
  }

  // ---------- keys ----------

  /** The named keys are gone, with their TTLs, and the reply says how many there were. */
  ghost predicate Deletes(st: StoreState, argv: seq<Bytes>, out: Out) {
    var (st', reply) := out;
    && (forall k :: k in st'.data <==> k in st.data && !Named(argv, 1, k))
    && (forall k :: k in st'.data ==> st'.data[k] == st.data[k])
    && (forall k :: k in st'.ttl <==> k in st.ttl && !Named(argv, 1, k))
    && (forall k :: k in st'.ttl ==> st'.ttl[k] == st.ttl[k])
    && reply == Integer(|st.data| - |st'.data|)
  }

  lemma DelDeletes(st: StoreState, argv: seq<Bytes>)
    ensures Deletes(st, argv, ApplyDel(st, argv))
  {
    OperandsAreNamed(argv, 1);
  }

  /** DEL and UNLINK. */
  lemma DelCommand(rules: Rules, st: StoreState, name: string, argv: seq<Bytes>)
    requires name == "DEL" || name == "UNLINK"
    ensures Deletes(st, argv, rules.Apply(st, Command(name, argv)))
  {
    DelVerb(name);
    DelDeletes(st, argv);
    CollectionRun(rules, st, name, DEL, argv);
  }

  /** An existing key gets the number that is given, or 0, as its TTL. */
  ghost predicate SetsTtl(rules: Rules, st: StoreState, argv: seq<Bytes>, out: Out) {
    out == if |argv| < 2 then (st, Arity("expire"))
           else if argv[1] !in st.data then (st, Integer(0))
           else
             var secs := if |argv| > 2 && rules.readInt(argv[2]).Some? then rules.readInt(argv[2]).value else 0;
             (StoreState(st.data, st.ttl[argv[1] := secs]), Integer(1))
  }

  lemma ExpireSetsTtl(rules: Rules, st: StoreState, argv: seq<Bytes>)
    ensures SetsTtl(rules, st, argv, rules.ApplyKey(st, EXPIRE, argv))
  {
  }

  /** EXPIRE and its variants, whatever their unit. */
  lemma ExpireCommand(rules: Rules, st: StoreState, name: string, argv: seq<Bytes>)
    requires name == "EXPIRE" || name == "PEXPIRE" || name == "EXPIREAT" || name == "PEXPIREAT"
    ensures SetsTtl(rules, st, argv, rules.Apply(st, Command(name, argv)))
  {
    ExpireVerb(name);
    ExpireSetsTtl(rules, st, argv);
    KeyRun(rules, st, name, EXPIRE, argv);
  }

  /** PERSIST drops the TTL, and says whether there was one. */
  ghost predicate DropsTtl(st: StoreState, argv: seq<Bytes>, out: Out) {
    out == if |argv| < 2 then (st, Arity("persist"))
           else (StoreState(st.data, st.ttl - {argv[1]}), Integer(if argv[1] in st.ttl then 1 else 0))
  }

  lemma PersistDropsTtl(rules: Rules, st: StoreState, argv: seq<Bytes>)
    ensures DropsTtl(st, argv, rules.ApplyKey(st, PERSIST, argv))
  {
    if |argv| >= 2 && argv[1] !in st.ttl {
      assert st.ttl - {argv[1]} == st.ttl;
    }
  }

  lemma PersistCommand(rules: Rules, st: StoreState, argv: seq<Bytes>)
    ensures DropsTtl(st, argv, rules.Apply(st, Command("PERSIST", argv)))
  {
    KeyVerbs();
    PersistDropsTtl(rules, st, argv);
    KeyRun(rules, st, "PERSIST", PERSIST, argv);
  }

  /** RENAME moves the value and the TTL, over whatever the target held. */
  ghost predicate Renames(st: StoreState, argv: seq<Bytes>, out: Out) {
    var (st', reply) := out;
    if |argv| < 3 then st' == st && reply == Arity("rename")
    else if argv[1] !in st.data then st' == st && reply == Error(Ascii("ERR no such key"))
    else
      var src, dst := argv[1], argv[2];
      && reply == OK
      && dst in st'.data && st'.data[dst] == st.data[src]
      && (dst in st'.ttl <==> src in st.ttl) && (src in st.ttl ==> st'.ttl[dst] == st.ttl[src])
      && (src != dst ==> src !in st'.data && src !in st'.ttl)
      && forall k :: k != src && k != dst ==> SameAt(st, st', k)
  }

  lemma RenameRenames(rules: Rules, st: StoreState, argv: seq<Bytes>)
    ensures Renames(st, argv, rules.ApplyKey(st, RENAME, argv))
  {
  }

  lemma RenameCommand(rules: Rules, st: StoreState, argv: seq<Bytes>)
    ensures Renames(st, argv, rules.Apply(st, Command("RENAME", argv)))
  {
    KeyVerbs();
    RenameRenames(rules, st, argv);
    KeyRun(rules, st, "RENAME", RENAME, argv);
  }

  // ---------- hashes ----------

  ghost predicate NotNamed(pairs: seq<Bytes>, f: Bytes) {
    forall i :: 0 <= i < |pairs| && i % 2 == 0 ==> pairs[i] != f
  }

  /** Of a repeated field the last value stays; fields that are not named are kept. */
  ghost predicate Paired(h: map<Bytes, Bytes>, pairs: seq<Bytes>, h': map<Bytes, Bytes>)
    requires |pairs| % 2 == 0
  {
    && (forall i: nat, f :: LastNamed(pairs, i, f) ==> f in h' && h'[f] == pairs[i + 1])
    && (forall f :: NotNamed(pairs, f) ==> (f in h' <==> f in h) && (f in h ==> h'[f] == h[f]))
  }

  lemma PairsMean(h: map<Bytes, Bytes>, pairs: seq<Bytes>)
    requires |pairs| % 2 == 0
    ensures Paired(h, pairs, PutPairs(h, pairs))
  {
    forall i: nat, f | LastNamed(pairs, i, f) ensures f in PutPairs(h, pairs) && PutPairs(h, pairs)[f] == pairs[i + 1] {
      LastValueWins(h, pairs, f);
    }
    forall f | NotNamed(pairs, f)
      ensures (f in PutPairs(h, pairs) <==> f in h) && (f in h ==> PutPairs(h, pairs)[f] == h[f])
    {
      LastValueWins(h, pairs, f);
    }
  }

  /** HSET and HMSET write the pairs and keep the TTL; HSET replies how many fields are
      new. */
  ghost predicate WritesPairs(st: StoreState, counted: bool, argv: seq<Bytes>, out: Out) {
    var (st', reply) := out;
    if |argv| < 4 || |argv| % 2 != 0 then st' == st && reply == Arity("hset")
    else if argv[1] in st.data && !st.data[argv[1]].Hash? then st' == st && reply == WRONG_TYPE
    else
      var h := if argv[1] in st.data then st.data[argv[1]].fields else map[];
      && argv[1] in st'.data && st'.data[argv[1]].Hash?
      && st' == StoreState(st.data[argv[1] := st'.data[argv[1]]], st.ttl)
      && var h' := st'.data[argv[1]].fields;
         Paired(h, argv[2..], h') && reply == if counted then Integer(|h'| - |h|) else OK
  }

  lemma HsetStores(st: StoreState, v: Verb, argv: seq<Bytes>)
    requires |argv| >= 4 && |argv| % 2 == 0 && (argv[1] in st.data ==> st.data[argv[1]].Hash?)
    ensures var h := FieldsAt(st, argv[1]);
            var h' := PutPairs(h, argv[2..]);
            ApplyHset(st, v, argv) ==
            (StoreState(st.data[argv[1] := Hash(h')], st.ttl), if v.HMSET? then OK else Integer(|h'| - |h|))
  {
  }

  lemma PairsAreWritten(st: StoreState, counted: bool, argv: seq<Bytes>, h': map<Bytes, Bytes>)
    requires |argv| >= 4 && |argv| % 2 == 0 && (argv[1] in st.data ==> st.data[argv[1]].Hash?)
    requires Paired(FieldsAt(st, argv[1]), argv[2..], h')
    ensures WritesPairs(st, counted, argv, (StoreState(st.data[argv[1] := Hash(h')], st.ttl),
                                            if counted then Integer(|h'| - |FieldsAt(st, argv[1])|) else OK))
  {
  }

  lemma HsetWritesPairs(st: StoreState, v: Verb, argv: seq<Bytes>)
    requires v.HSET? || v.HMSET?
    ensures WritesPairs(st, v.HSET?, argv, ApplyHset(st, v, argv))
  {
    if |argv| >= 4 && |argv| % 2 == 0 && (argv[1] in st.data ==> st.data[argv[1]].Hash?) {
      var h := FieldsAt(st, argv[1]);
      PairsMean(h, argv[2..]);
      HsetStores(st, v, argv);
      PairsAreWritten(st, v.HSET?, argv, PutPairs(h, argv[2..]));
    }
  }

  lemma HsetCommand(rules: Rules, st: StoreState, argv: seq<Bytes>)
    ensures WritesPairs(st, true, argv, rules.Apply(st, Command("HSET", argv)))
  {
    HashVerbs();
    HsetWritesPairs(st, HSET, argv);
    ScalarRun(rules, st, "HSET", HSET, argv);
  }

  lemma HmsetCommand(rules: Rules, st: StoreState, argv: seq<Bytes>)
    ensures WritesPairs(st, false, argv, rules.Apply(st, Command("HMSET", argv)))
  {
    HashVerbs();
    HsetWritesPairs(st, HMSET, argv);
    ScalarRun(rules, st, "HMSET", HMSET, argv);
  }

  /** HSETNX writes a field only where there is none, and says whether it did. */
  lemma HsetnxCommand(rules: Rules, st: StoreState, argv: seq<Bytes>)
    ensures rules.Apply(st, Command("HSETNX", argv)) ==
            if |argv| < 4 then (st, Arity("hsetnx"))
            else if argv[1] in st.data && !st.data[argv[1]].Hash? then (st, WRONG_TYPE)
            else
              var h := if argv[1] in st.data then st.data[argv[1]].fields else map[];
              if argv[2] in h then (st, Integer(0))
              else (StoreState(st.data[argv[1] := Hash(h[argv[2] := argv[3]])], st.ttl), Integer(1))
  {
    HashVerbs();
    CollectionRun(rules, st, "HSETNX", HSETNX, argv);
  }

  /** HDEL removes exactly the named fields and replies how many there were; a hash that
      becomes empty is removed, its TTL stays. */
  ghost predicate RemovesFields(st: StoreState, argv: seq<Bytes>, out: Out) {
    if |argv| < 2 then out == (st, Arity("hdel"))
    else if argv[1] !in st.data then out == (st, Integer(0))
    else if !st.data[argv[1]].Hash? then out == (st, WRONG_TYPE)
    else
      var h := st.data[argv[1]].fields;
      var h' := map f | f in h && !Named(argv, 2, f) :: h[f];
      && out.0 == StoreState(if h' == map[] then st.data - {argv[1]} else st.data[argv[1] := Hash(h')], st.ttl)
      && out.1 == Integer(|h| - |h'|)
  }

  lemma HdelRemovesFields(st: StoreState, argv: seq<Bytes>)
    ensures RemovesFields(st, argv, ApplyHdel(st, argv))
  {
    OperandsAreNamed(argv, 2);
    if |argv| >= 2 && argv[1] in st.data && st.data[argv[1]].Hash? {
      var h := st.data[argv[1]].fields;
      assert h - Operands(argv, 2) == map f | f in h && !Named(argv, 2, f) :: h[f];
    }
  }

  lemma HdelCommand(rules: Rules, st: StoreState, argv: seq<Bytes>)
    ensures RemovesFields(st, argv, rules.Apply(st, Command("HDEL", argv)))
  {
    HashVerbs();
    CollectionRun(rules, st, "HDEL", HDEL, argv);
    HdelRemovesFields(st, argv);
  }

  // ---------- sets ----------

  /** SADD leaves the old members and the named ones, and replies how many are new. */
  ghost predicate AddsMembers(st: StoreState, argv: seq<Bytes>, out: Out) {
    if |argv| < 2 then out == (st, Arity("sadd"))
    else if argv[1] in st.data && !st.data[argv[1]].Set? then out == (st, WRONG_TYPE)
    else
      var s := if argv[1] in st.data then st.data[argv[1]].members else {};
      && argv[1] in out.0.data && out.0.data[argv[1]].Set?
      && out.0 == StoreState(st.data[argv[1] := out.0.data[argv[1]]], st.ttl)
      && var s' := out.0.data[argv[1]].members;
         (forall x :: x in s' <==> x in s || Named(argv, 2, x)) && out.1 == Integer(|s'| - |s|)
  }

  lemma SaddAddsMembers(st: StoreState, argv: seq<Bytes>)
    ensures AddsMembers(st, argv, ApplySadd(st, argv))
  {
    OperandsAreNamed(argv, 2);
  }

  lemma SaddCommand(rules: Rules, st: StoreState, argv: seq<Bytes>)
    ensures AddsMembers(st, argv, rules.Apply(st, Command("SADD", argv)))
  {
    MemberVerbs();
    SaddAddsMembers(st, argv);
    CollectionRun(rules, st, "SADD", SADD, argv);
  }

  /** SREM removes exactly the named members and replies how many there were; a set that
      becomes empty is removed, its TTL stays. */
  ghost predicate RemovesMembers(st: StoreState, argv: seq<Bytes>, out: Out) {
    if |argv| < 2 then out == (st, Arity("srem"))
    else if argv[1] !in st.data then out == (st, Integer(0))
    else if !st.data[argv[1]].Set? then out == (st, WRONG_TYPE)
    else
      var s := st.data[argv[1]].members;
      var s' := set x | x in s && !Named(argv, 2, x);
      && out.0 == StoreState(if s' == {} then st.data - {argv[1]} else st.data[argv[1] := Value.Set(s')], st.ttl)
      && out.1 == Integer(|s| - |s'|)
  }

  lemma SremRemovesMembers(st: StoreState, argv: seq<Bytes>)
    ensures RemovesMembers(st, argv, ApplySrem(st, argv))
  {
    OperandsAreNamed(argv, 2);
    if |argv| >= 2 && argv[1] in st.data && st.data[argv[1]].Set? {
      var s := st.data[argv[1]].members;
      assert s - Operands(argv, 2) == set x | x in s && !Named(argv, 2, x);
    }
  }

  lemma SremCommand(rules: Rules, st: StoreState, argv: seq<Bytes>)
    ensures RemovesMembers(st, argv, rules.Apply(st, Command("SREM", argv)))
  {
    MemberVerbs();
    SremRemovesMembers(st, argv);
    CollectionRun(rules, st, "SREM", SREM, argv);
  }

  // ---------- the whole store ----------

  lemma FlushCommand(rules: Rules, st: StoreState, name: string, argv: seq<Bytes>)
    requires name == "FLUSHDB" || name == "FLUSHALL"
    ensures rules.Apply(st, Command(name, argv)) == (StoreState(map[], map[]), OK)
  {
    FlushVerb(name);
    CollectionRun(rules, st, name, FLUSH, argv);
  }

  predicate IsStoreWrite(name: string) {
    || name == "SET" || name == "SETNX" || name == "GETSET" || name == "APPEND" || name == "DEL" || name == "UNLINK"
    || name == "INCR" || name == "DECR" || name == "INCRBY" || name == "DECRBY" || name == "EXPIRE" || name == "PEXPIRE"
    || name == "EXPIREAT" || name == "PEXPIREAT" || name == "PERSIST" || name == "RENAME" || name == "HSET"
    || name == "HMSET" || name == "HSETNX" || name == "HDEL" || name == "HINCRBY" || name == "SADD" || name == "SREM"
    || name == "FLUSHDB" || name == "FLUSHALL"
  }

  lemma OtherVerb(name: string)
    requires !IsStoreWrite(name)
    ensures VerbOf(name) == OTHER(name)
  {
  }

  /** Every other command is refused and changes nothing. */
  lemma OtherCommand(rules: Rules, st: StoreState, name: string, argv: seq<Bytes>)
    requires !IsStoreWrite(name)
    ensures rules.Apply(st, Command(name, argv)) ==
            (st, Error(Ascii("ERR '" + name + "' is a write but not implemented by MemStore (RD-1); use the redis backend")))
  {
    OtherVerb(name);
    assert rules.ApplyVerb(st, OTHER(name), argv) == (st, NotImplemented(name));
  }
}
