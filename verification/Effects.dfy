/** Effect replication: a non-deterministic write is resolved once, at its origin,
    into a deterministic one. */
module Effects {
  import opened Wire
  import opened Text
  import opened Store
  import StoreCommands

  // ---------- ordered reads ----------

  /** Byte-wise lexicographic order, the iteration order of the source's maps and sets. */
  predicate Before(a: Bytes, b: Bytes)
    decreases |a|
  {
    if b == [] then false
    else if a == [] then true
    else a[0] < b[0] || (a[0] == b[0] && Before(a[1..], b[1..]))
  }

  lemma {:induction false} BeforeTotal(a: Bytes, b: Bytes)
    ensures a != b ==> Before(a, b) || Before(b, a)
    ensures !(Before(a, b) && Before(b, a))
    decreases |a|
  {
    if a != [] && b != [] {
      BeforeTotal(a[1..], b[1..]);
      assert a == [a[0]] + a[1..] && b == [b[0]] + b[1..];
    }
  }

  lemma {:induction false} BeforeTransitive(a: Bytes, b: Bytes, c: Bytes)
    requires Before(a, b) && Before(b, c)
    ensures Before(a, c)
    decreases |a|
  {
    if a != [] && a[0] == b[0] && b[0] == c[0] {
      BeforeTransitive(a[1..], b[1..], c[1..]);
    }
  }

  ghost function Least(s: set<Bytes>): (m: Bytes)
    requires s != {}
    ensures m in s && forall x :: x in s ==> x == m || Before(m, x)
  {
    var x :| x in s;
    if s == {x} then x else
      assert s - {x} != {};
      var m := Least(s - {x});
      BeforeTotal(x, m);
      assert forall y :: y in s && Before(x, m) && Before(m, y) ==> Before(x, y) by {
        forall y | y in s && Before(x, m) && Before(m, y) ensures Before(x, y) {
          BeforeTransitive(x, m, y);
        }
      }
      assert forall y :: y in s ==> y == x || y in s - {x};
      if Before(x, m) then x else m
  }

  /** The members of a set in iteration order. */
  ghost function Sorted(s: set<Bytes>): (l: seq<Bytes>)
    ensures |l| == |s|
    decreases |s|
  {
    if s == {} then [] else [Least(s)] + Sorted(s - {Least(s)})
  }

  function Elems(l: seq<Bytes>): set<Bytes> {
    set x | x in l
  }

  ghost predicate Ascending(l: seq<Bytes>) {
    forall i, j :: 0 <= i < j < |l| ==> Before(l[i], l[j])
  }

  lemma {:induction false} SortedLists(s: set<Bytes>)
    ensures Elems(Sorted(s)) == s && Ascending(Sorted(s))
    decreases |s|
  {
    if s != {} {
      SortedLists(s - {Least(s)});
      LeastInFront(s, Least(s), Sorted(s - {Least(s)}));
    }
  }

  lemma LeastInFront(s: set<Bytes>, m: Bytes, tail: seq<Bytes>)
    requires m in s && Elems(tail) == s - {m} && Ascending(tail)
    requires forall x :: x in s ==> x == m || Before(m, x)
    ensures Elems([m] + tail) == s && Ascending([m] + tail)
  {
    ElemsConcat([m], tail);
    assert Elems([m]) == {m};
    forall i, j | 0 <= i < j < |[m] + tail| ensures Before(([m] + tail)[i], ([m] + tail)[j]) {
      assert tail[j - 1] in Elems(tail);
    }
  }

  lemma ElemsConcat(a: seq<Bytes>, b: seq<Bytes>)
    ensures Elems(a + b) == Elems(a) + Elems(b)
  {
  }

  lemma NewElement(l: seq<Bytes>, i: nat, n: nat)
    requires Ascending(l) && i < |l| && n == i + 1
    ensures Elems(l[..n]) == Elems(l[..i]) + {l[i]} && l[i] !in Elems(l[..i])
  {
    ElemsConcat(l[..i], [l[i]]);
    assert l[..n] == l[..i] + [l[i]];
    assert Elems([l[i]]) == {l[i]};
    forall j | 0 <= j < i ensures l[j] != l[i] {
      BeforeTotal(l[j], l[i]);
    }
  }

  /** An ascending list has no repetitions, so a part of it counts its elements. */
  lemma {:induction false} AscendingCounts(l: seq<Bytes>, n: nat)
    requires Ascending(l) && n <= |l|
    ensures |Elems(l[..n])| == n
    decreases n
  {
    if n == 0 {
      assert Elems(l[..0]) == {};
    } else {
      var i := n - 1;
      AscendingCounts(l, i);
      NewElement(l, i, n);
      OneMore(Elems(l[..i]), l[i], Elems(l[..n]));
    }
  }

  lemma OneMore(before: set<Bytes>, x: Bytes, after: set<Bytes>)
    requires x !in before && after == before + {x}
    ensures |after| == |before| + 1
  {
  }

  lemma PartOfElems(l: seq<Bytes>, n: nat)
    requires n <= |l|
    ensures Elems(l[..n]) <= Elems(l)
  {
    ElemsConcat(l[..n], l[n..]);
    assert l == l[..n] + l[n..];
  }

  function Bulks(l: seq<Bytes>): seq<Reply> {
    seq(|l|, i requires 0 <= i < |l| => Bulk(l[i]))
  }

  /** The reads that effect resolution uses. */
  ghost function Query(st: StoreState, cmd: Command): Reply {
    var k := if |cmd.argv| > 1 then cmd.argv[1] else [];
    if cmd.name == "SMEMBERS" then
      if k !in st.data then Array([])
      else if st.data[k].Set? then Array(Bulks(Sorted(st.data[k].members)))
      else WrongType()
    else if cmd.name == "GET" then
      if k !in st.data then Nil
      else if st.data[k].Str? then Bulk(st.data[k].text)
      else WrongType()
    else Error(Ascii("ERR read not implemented"))
  }

  /** The in-memory store as a state machine. */
  ghost function MemMachine(rules: Rules): Machine<StoreState> {
    Machine(StoreState(map[], map[]), (st, cmd) => rules.Apply(st, cmd), (st, cmd) => Query(st, cmd))
  }

  // ---------- resolution ----------

  datatype Resolution = Immediate(reply: Reply) | Broadcast(argv: seq<Bytes>, clientReply: Reply)

  /** The bulk strings among the elements of an array reply. */
  function BulkData(items: seq<Reply>): seq<Bytes> {
    if items == [] then [] else
      var before := BulkData(items[..|items| - 1]);
      var last := items[|items| - 1];
      if last.Bulk? then before + [last.data] else before
  }

  function Min(a: nat, b: nat): nat {
    if a < b then a else b
  }

  /** The choice `resolve_spop` makes among the listed members. */
  function PopFrom(rules: Rules, argv: seq<Bytes>, members: seq<Bytes>): Resolution
    requires |argv| >= 2
  {
    if |argv| == 2 then
      if members == [] then Immediate(Nil)
      else Broadcast([Ascii("SREM"), argv[1], members[0]], Bulk(members[0]))
    else
      match rules.readInt(argv[2])
      case None => Immediate(NotAnInteger())
      case Some(count) =>
        var popped := members[..Min(if count < 0 then 0 else count, |members|)];
        if popped == [] then Immediate(Array([]))
        else Broadcast([Ascii("SREM"), argv[1]] + popped, Array(Bulks(popped)))
  }

  function SmembersOf(key: Bytes): Command {
    Command("SMEMBERS", [Ascii("SMEMBERS"), key])
  }

  /** `resolve_spop`. */
  function ResolveSpop<S>(m: Machine<S>, rules: Rules, s: S, argv: seq<Bytes>): Resolution {
    if |argv| < 2 then Immediate(WrongArgs("spop")) else
      var answer := m.query(s, SmembersOf(argv[1]));
      if answer.Error? then Immediate(answer)
      else PopFrom(rules, argv, if answer.Array? then BulkData(answer.items) else [])
  }

  lemma {:induction false} BulkDataOfBulks(l: seq<Bytes>)
    ensures BulkData(Bulks(l)) == l
  {
    if l != [] {
      BulkDataOfBulks(l[..|l| - 1]);
      assert Bulks(l)[..|l| - 1] == Bulks(l[..|l| - 1]);
    }
  }

  // ---------- the outcome of an SPOP, said directly ----------

  lemma SameFirst(a: seq<Bytes>, b: seq<Bytes>)
    requires Ascending(a) && Ascending(b) && Elems(a) == Elems(b) && a != [] && b != []
    ensures a[0] == b[0]
  {
    assert a[0] in Elems(b) && b[0] in Elems(a);
    var i :| 0 <= i < |b| && b[i] == a[0];
    var j :| 0 <= j < |a| && a[j] == b[0];
    BeforeTotal(a[0], b[0]);
  }

  /** A set has one ascending listing. */
  lemma {:induction false} OneListing(a: seq<Bytes>, b: seq<Bytes>)
    requires Ascending(a) && Ascending(b) && Elems(a) == Elems(b)
    ensures a == b
    decreases |a|
  {
    SomeElems(a);
    SomeElems(b);
    if a != [] {
      SameFirst(a, b);
      FirstOff(a);
      FirstOff(b);
      OneListing(a[1..], b[1..]);
      assert a == [a[0]] + a[1..] && b == [b[0]] + b[1..];
    }
  }

  lemma SomeElems(l: seq<Bytes>)
    ensures Elems(l) == {} <==> l == []
  {
    if l != [] {
      assert l[0] in Elems(l);
    }
  }

  lemma FirstOff(l: seq<Bytes>)
    requires Ascending(l) && l != []
    ensures Ascending(l[1..]) && Elems(l[1..]) == Elems(l) - {l[0]}
  {
    ElemsConcat(l[..1], l[1..]);
    assert l == l[..1] + l[1..];
    forall x | x in l[1..] ensures x != l[0] {
      var i :| 0 <= i < |l| - 1 && l[1..][i] == x;
      assert Before(l[0], l[i + 1]);
      BeforeTotal(l[0], x);
    }
    forall i, j | 0 <= i < j < |l[1..]| ensures Before(l[1..][i], l[1..][j]) {
      assert Before(l[i + 1], l[j + 1]);
    }
  }

  /** The listing of a set is the set in ascending order. */
  ghost predicate Lists(l: seq<Bytes>, st: StoreState, k: Bytes) {
    Ascending(l) && forall x :: x in l <==> k in st.data && st.data[k].Set? && x in st.data[k].members
  }

  /** SMEMBERS answers the members in ascending order. */
  lemma SmembersLists(st: StoreState, argv: seq<Bytes>, l: seq<Bytes>)
    requires |argv| >= 2 && Lists(l, st, argv[1])
    ensures Query(st, Command("SMEMBERS", argv)) ==
            if argv[1] in st.data && !st.data[argv[1]].Set? then StoreCommands.WRONG_TYPE
            else Array(seq(|l|, i requires 0 <= i < |l| => Bulk(l[i])))
  {
    assert Elems(l) == MembersAt(st, argv[1]);
    SortedLists(MembersAt(st, argv[1]));
    OneListing(Sorted(MembersAt(st, argv[1])), l);
  }

  /** GET answers what SET stored. */
  lemma GetAfterSet(rules: Rules, st: StoreState, set': seq<Bytes>, get: seq<Bytes>)
    requires |set'| >= 3 && |get| >= 2
    ensures var after := rules.Apply(st, Command("SET", set')).0;
            Query(after, Command("GET", get)) ==
            if get[1] == set'[1] then Bulk(set'[2]) else Query(st, Command("GET", get))
  {
    StoreCommands.SetCommand(rules, st, set');
  }

  lemma SpopListing(rules: Rules, st: StoreState, argv: seq<Bytes>, l: seq<Bytes>)
    requires |argv| >= 2 && Lists(l, st, argv[1])
    ensures ResolveSpop(MemMachine(rules), rules, st, argv) ==
            if argv[1] in st.data && !st.data[argv[1]].Set? then Immediate(WrongType()) else PopFrom(rules, argv, l)
  {
    assert Elems(l) == MembersAt(st, argv[1]);
    SortedLists(MembersAt(st, argv[1]));
    OneListing(Sorted(MembersAt(st, argv[1])), l);
    SpopPopsSorted(rules, st, argv);
  }

  /** SPOP without a count takes the least member and replies it by itself, or nothing
      at all; with a count it takes that many of the least members, as far as there are
      any, and replies an array of them, which may be empty. What is taken goes into an
      SREM of the same key. */
  lemma SpopOutcome(rules: Rules, st: StoreState, argv: seq<Bytes>, l: seq<Bytes>)
    requires |argv| >= 2 ==> Lists(l, st, argv[1])
    ensures var r := ResolveSpop(MemMachine(rules), rules, st, argv);
            if |argv| < 2 then r == Immediate(StoreCommands.Arity("spop"))
            else if argv[1] in st.data && !st.data[argv[1]].Set? then r == Immediate(StoreCommands.WRONG_TYPE)
            else if |argv| == 2 then
              r == if l == [] then Immediate(Nil) else Broadcast([Ascii("SREM"), argv[1], l[0]], Bulk(l[0]))
            else if rules.readInt(argv[2]).None? then r == Immediate(StoreCommands.NOT_AN_INTEGER)
            else if l == [] || rules.readInt(argv[2]).value <= 0 then r == Immediate(Array([]))
            else
              && r.Broadcast?
              && exists n: nat ::
                   && n <= |l| && (n == |l| || n == rules.readInt(argv[2]).value)
                   && n <= rules.readInt(argv[2]).value
                   && r.argv == [Ascii("SREM"), argv[1]] + l[..n]
                   && r.clientReply == Array(seq(n, i requires 0 <= i < n => Bulk(l[i])))
  {
    if |argv| >= 2 {
      SpopListing(rules, st, argv, l);
      if |argv| > 2 && rules.readInt(argv[2]).Some? && rules.readInt(argv[2]).value > 0 && l != [] {
        var n := Min(rules.readInt(argv[2]).value, |l|);
        assert Bulks(l[..n]) == seq(n, i requires 0 <= i < n => Bulk(l[i]));
      }
    }
  }

  // ---------- what the broadcast effect does ----------

  /** The members that a reply hands to the client. */
  ghost function Replied(reply: Reply): set<Bytes> {
    match reply
    case Bulk(d) => {d}
    case Array(items) => Elems(BulkData(items))
    case _ => {}
  }

  /** The number of members an SPOP asks for. */
  function Wanted(rules: Rules, argv: seq<Bytes>): nat {
    if |argv| <= 2 then 1
    else if rules.readInt(argv[2]).Some? && rules.readInt(argv[2]).value > 0 then rules.readInt(argv[2]).value
    else 0
  }

  lemma SmembersAnswer(rules: Rules, st: StoreState, key: Bytes)
    ensures MemMachine(rules).query(st, SmembersOf(key)) ==
            if key in st.data && !st.data[key].Set? then WrongType()
            else Array(Bulks(Sorted(MembersAt(st, key))))
  {
  }

  /** On the in-memory store, resolution pops from the sorted members. */
  lemma SpopPopsSorted(rules: Rules, st: StoreState, argv: seq<Bytes>)
    requires |argv| >= 2
    ensures ResolveSpop(MemMachine(rules), rules, st, argv) ==
            if argv[1] in st.data && !st.data[argv[1]].Set? then Immediate(WrongType())
            else PopFrom(rules, argv, Sorted(MembersAt(st, argv[1])))
  {
    SmembersAnswer(rules, st, argv[1]);
    BulkDataOfBulks(Sorted(MembersAt(st, argv[1])));
  }

  lemma PopIsPrefix(rules: Rules, argv: seq<Bytes>, members: seq<Bytes>)
    requires |argv| >= 2 && PopFrom(rules, argv, members).Broadcast?
    ensures var r := PopFrom(rules, argv, members);
            var popped := members[..Min(Wanted(rules, argv), |members|)];
            r.argv == [Ascii("SREM"), argv[1]] + popped && Replied(r.clientReply) == Elems(popped)
  {
    var popped := members[..Min(Wanted(rules, argv), |members|)];
    if |argv| == 2 {
      assert popped == [members[0]];
      assert Elems([members[0]]) == {members[0]};
    } else {
      BulkDataOfBulks(popped);
    }
  }

  lemma PopShape(rules: Rules, argv: seq<Bytes>, members: seq<Bytes>)
    requires |argv| >= 2 && Ascending(members) && PopFrom(rules, argv, members).Broadcast?
    ensures var r := PopFrom(rules, argv, members);
            && |r.argv| >= 2 && r.argv[0] == Ascii("SREM") && r.argv[1] == argv[1]
            && Operands(r.argv, 2) == Replied(r.clientReply)
            && Replied(r.clientReply) <= Elems(members)
            && |Replied(r.clientReply)| == Min(Wanted(rules, argv), |members|)
  {
    var n := Min(Wanted(rules, argv), |members|);
    PopIsPrefix(rules, argv, members);
    AscendingCounts(members, n);
    PartOfElems(members, n);
    OperandsAfterTwo(Ascii("SREM"), argv[1], members[..n]);
  }

  /** The broadcast of an SPOP is an SREM of exactly the replied members, which
      are `min(count, size)` members of the set at the origin. */
  lemma SpopBroadcast(rules: Rules, st: StoreState, argv: seq<Bytes>)
    requires ResolveSpop(MemMachine(rules), rules, st, argv).Broadcast?
    ensures var r := ResolveSpop(MemMachine(rules), rules, st, argv);
            && |argv| >= 2
            && |r.argv| >= 2 && r.argv[0] == Ascii("SREM") && r.argv[1] == argv[1]
            && Operands(r.argv, 2) == Replied(r.clientReply)
            && Replied(r.clientReply) <= MembersAt(st, argv[1])
            && |Replied(r.clientReply)| == Min(Wanted(rules, argv), |MembersAt(st, argv[1])|)
  {
    SpopPopsSorted(rules, st, argv);
    SortedLists(MembersAt(st, argv[1]));
    PopShape(rules, argv, Sorted(MembersAt(st, argv[1])));
  }

  lemma OperandsAfterTwo(a: Bytes, b: Bytes, l: seq<Bytes>)
    ensures Operands([a, b] + l, 2) == Elems(l)
  {
    var argv := [a, b] + l;
    OperandsAre(argv, 2);
    forall x ensures x in Operands(argv, 2) <==> x in l {
      if i :| 0 <= i < |l| && l[i] == x {
        assert argv[i + 2] == x;
      }
    }
  }

  /** The effect as the delivered command that every replica applies. */
  lemma SremIsApplied(rules: Rules, st: StoreState, argv: seq<Bytes>)
    requires |argv| >= 2 && argv[0] == Ascii("SREM")
    ensures ParseCommandLine(argv) == Some(Command("SREM", argv))
    ensures rules.Apply(st, Command("SREM", argv)) == ApplySrem(st, argv)
  {
    PlainName("SREM");
  }

  /** What an SREM does to one key and to all others. */
  lemma SremEffect(st: StoreState, argv: seq<Bytes>)
    requires |argv| >= 2
    ensures var (st', reply) := ApplySrem(st, argv);
            var s, gone := MembersAt(st, argv[1]), Operands(argv, 2);
            && MembersAt(st', argv[1]) == s - gone
            && (forall k :: k != argv[1] ==> SameAt(st, st', k))
            && (st' != st ==> argv[1] in st.data && st.data[argv[1]].Set?)
            && reply == if argv[1] in st.data && !st.data[argv[1]].Set? then WrongType() else Integer(|s * gone|)
  {
    var k, s, gone := argv[1], MembersAt(st, argv[1]), Operands(argv, 2);
    SplitBy(s, gone);
    if k in st.data && st.data[k].Set? {
      StoredLaws(st, k, Set(s - gone));
      ErasedLaws(st, k);
    } else {
      assert ApplySrem(st, argv).0 == st;
    }
  }

  lemma SplitBy(s: set<Bytes>, gone: set<Bytes>)
    ensures |s| - |s - gone| == |s * gone|
    ensures {} * gone == {} && {} - gone == {}
  {
    assert s == (s - gone) + (s * gone);
  }

  /** An SREM command, as the store machine applies it. */
  lemma SremRemoves(rules: Rules, st: StoreState, argv: seq<Bytes>, gone: set<Bytes>)
    requires |argv| >= 2 && argv[0] == Ascii("SREM") && Operands(argv, 2) == gone
    ensures var out := MemMachine(rules).apply(st, Command("SREM", argv));
            && MembersAt(out.0, argv[1]) == MembersAt(st, argv[1]) - gone
            && (forall k :: k != argv[1] ==> SameAt(st, out.0, k))
            && (out.0 != st ==> argv[1] in st.data && st.data[argv[1]].Set?)
            && (out.1.Integer? ==> out.1.n == |MembersAt(st, argv[1]) * gone|)
            && (!(argv[1] in st.data && !st.data[argv[1]].Set?) ==> out.1.Integer?)
  {
    SremIsApplied(rules, st, argv);
    SremEffect(st, argv);
  }

  /** Applied to the very state it was resolved on, the effect removes exactly the
      replied members, min(count, size) of them, and reports that number. */
  lemma SpopEffectAtOrigin(rules: Rules, st: StoreState, argv: seq<Bytes>)
    requires ResolveSpop(MemMachine(rules), rules, st, argv).Broadcast?
    ensures var r := ResolveSpop(MemMachine(rules), rules, st, argv);
            var out := MemMachine(rules).apply(st, Command("SREM", r.argv));
            && MembersAt(out.0, argv[1]) == MembersAt(st, argv[1]) - Replied(r.clientReply)
            && out.1 == Integer(|Replied(r.clientReply)|)
            && |Replied(r.clientReply)| == Min(Wanted(rules, argv), |MembersAt(st, argv[1])|)
            && forall k :: k != argv[1] ==> SameAt(st, out.0, k)
  {
    var r := ResolveSpop(MemMachine(rules), rules, st, argv);
    SpopBroadcast(rules, st, argv);
    assert !(argv[1] in st.data && !st.data[argv[1]].Set?) by {
      SpopPopsSorted(rules, st, argv);
    }
    var s, gone := MembersAt(st, argv[1]), Replied(r.clientReply);
    SremRemoves(rules, st, r.argv, gone);
    assert s * gone == gone;
  }

  /** Applied to any other state — after interleaved writes, on any replica — the
      effect still removes only replied members of that one key, whatever is left
      of them, and nothing else. */
  lemma SpopEffectElsewhere(rules: Rules, st: StoreState, argv: seq<Bytes>, elsewhere: StoreState)
    requires ResolveSpop(MemMachine(rules), rules, st, argv).Broadcast?
    ensures var r := ResolveSpop(MemMachine(rules), rules, st, argv);
            var out := MemMachine(rules).apply(elsewhere, Command("SREM", r.argv));
            && MembersAt(out.0, argv[1]) == MembersAt(elsewhere, argv[1]) - Replied(r.clientReply)
            && (forall k :: k != argv[1] ==> SameAt(elsewhere, out.0, k))
            && (out.0 != elsewhere ==> argv[1] in elsewhere.data && elsewhere.data[argv[1]].Set?)
            && (out.1.Integer? ==> out.1.n == |MembersAt(elsewhere, argv[1]) * Replied(r.clientReply)|)
  {
    var r := ResolveSpop(MemMachine(rules), rules, st, argv);
    SpopBroadcast(rules, st, argv);
    SremRemoves(rules, elsewhere, r.argv, Replied(r.clientReply));
  }

  lemma PopImmediateIff(rules: Rules, argv: seq<Bytes>, members: seq<Bytes>)
    requires |argv| >= 2
    ensures PopFrom(rules, argv, members).Immediate? <==> members == [] || Wanted(rules, argv) == 0
  {
  }

  /** An SPOP is answered at once, without a broadcast, exactly when there is
      nothing to remove or the command is malformed. */
  lemma SpopImmediateIff(rules: Rules, st: StoreState, argv: seq<Bytes>)
    ensures ResolveSpop(MemMachine(rules), rules, st, argv).Immediate? <==>
            || |argv| < 2
            || MembersAt(st, argv[1]) == {}
            || Wanted(rules, argv) == 0
  {
    if |argv| >= 2 {
      var s := MembersAt(st, argv[1]);
      SpopPopsSorted(rules, st, argv);
      PopImmediateIff(rules, argv, Sorted(s));
      assert Sorted(s) == [] <==> s == {};
    }
  }

  // ---------- two pops of one set ----------

  /** The members of `s` before `x` in iteration order. */
  ghost function Smaller(s: set<Bytes>, x: Bytes): set<Bytes> {
    set y | y in s && Before(y, x)
  }

  lemma SmallerIsPart(l: seq<Bytes>, i: nat)
    requires Ascending(l) && i < |l|
    ensures Smaller(Elems(l), l[i]) == Elems(l[..i])
  {
    forall j | 0 <= j < |l| ensures Before(l[j], l[i]) <==> j < i {
      BeforeTotal(l[j], l[i]);
    }
    forall y ensures y in Smaller(Elems(l), l[i]) <==> y in l[..i] {
    }
  }

  /** A pop of `n` members takes exactly those with fewer than `n` before them. */
  lemma PoppedIff(s: set<Bytes>, n: nat, x: Bytes)
    requires n <= |s|
    ensures x in Elems(Sorted(s)[..n]) <==> x in s && |Smaller(s, x)| < n
  {
    var l := Sorted(s);
    SortedLists(s);
    PartOfElems(l, n);
    if x in s {
      assert x in Elems(l);
      var i :| 0 <= i < |l| && l[i] == x;
      SmallerIsPart(l, i);
      AscendingCounts(l, i);
      if i < n {
        assert l[..n][i] == x;
      } else if x in l[..n] {
        var j :| 0 <= j < n && l[j] == x;
        BeforeTotal(l[j], l[i]);
      }
    }
  }

  lemma SmallerGrows(s: set<Bytes>, x: Bytes, y: Bytes)
    requires x == y || Before(x, y)
    ensures |Smaller(s, x)| <= |Smaller(s, y)|
  {
    forall z | z in Smaller(s, x) ensures z in Smaller(s, y) {
      if x != y {
        BeforeTransitive(z, x, y);
      }
    }
    SubsetSize(Smaller(s, x), Smaller(s, y));
  }

  lemma SubsetSize(a: set<Bytes>, b: set<Bytes>)
    requires a <= b
    ensures |a| <= |b|
  {
    assert b == a + (b - a);
  }

  /** Two pops, of `n1` members of one set and `n2` of another, meet exactly when both
      reach the least member that the sets share. */
  lemma PopsDisjointIff(s1: set<Bytes>, n1: nat, s2: set<Bytes>, n2: nat)
    requires n1 <= |s1| && n2 <= |s2|
    ensures Elems(Sorted(s1)[..n1]) !! Elems(Sorted(s2)[..n2]) <==>
            s1 !! s2 || |Smaller(s1, Least(s1 * s2))| >= n1 || |Smaller(s2, Least(s1 * s2))| >= n2
  {
    var p1, p2 := Elems(Sorted(s1)[..n1]), Elems(Sorted(s2)[..n2]);
    if s1 * s2 != {} {
      var m := Least(s1 * s2);
      PoppedIff(s1, n1, m);
      PoppedIff(s2, n2, m);
      forall x | x in p1 && x in p2 ensures m in p1 && m in p2 {
        PoppedIff(s1, n1, x);
        PoppedIff(s2, n2, x);
        assert x in s1 * s2;
        SmallerGrows(s1, m, x);
        SmallerGrows(s2, m, x);
      }
    } else {
      forall x ensures !(x in p1 && x in p2) {
        PoppedIff(s1, n1, x);
        PoppedIff(s2, n2, x);
        assert x !in s1 * s2;
      }
    }
  }

  lemma FewerSmaller(s: set<Bytes>, x: Bytes)
    requires x in s
    ensures |Smaller(s, x)| < |s|
  {
    BeforeTotal(x, x);
    SubsetSize(Smaller(s, x), s - {x});
  }

  /** The same for counts that may exceed the sets. */
  lemma BoundedPopsDisjointIff(s1: set<Bytes>, w1: nat, s2: set<Bytes>, w2: nat)
    ensures Elems(Sorted(s1)[..Min(w1, |s1|)]) !! Elems(Sorted(s2)[..Min(w2, |s2|)]) <==>
            s1 !! s2 || |Smaller(s1, Least(s1 * s2))| >= w1 || |Smaller(s2, Least(s1 * s2))| >= w2
  {
    PopsDisjointIff(s1, Min(w1, |s1|), s2, Min(w2, |s2|));
    if s1 * s2 != {} {
      FewerSmaller(s1, Least(s1 * s2));
      FewerSmaller(s2, Least(s1 * s2));
    }
  }

  /** What a broadcast SPOP replies. */
  lemma SpopReplies(rules: Rules, st: StoreState, argv: seq<Bytes>)
    requires ResolveSpop(MemMachine(rules), rules, st, argv).Broadcast?
    ensures |argv| >= 2
    ensures var s := MembersAt(st, argv[1]);
            Replied(ResolveSpop(MemMachine(rules), rules, st, argv).clientReply) ==
            Elems(Sorted(s)[..Min(Wanted(rules, argv), |s|)])
  {
    SpopPopsSorted(rules, st, argv);
    PopIsPrefix(rules, argv, Sorted(MembersAt(st, argv[1])));
  }

  /** Two SPOPs that are broadcast hand different members to their clients exactly
      when the sets they were resolved on share no member, or one of the two asks for
      too few members to reach the least one they share. */
  lemma SpopsReplyDisjointIff(rules: Rules, st1: StoreState, argv1: seq<Bytes>, st2: StoreState, argv2: seq<Bytes>)
    requires ResolveSpop(MemMachine(rules), rules, st1, argv1).Broadcast?
    requires ResolveSpop(MemMachine(rules), rules, st2, argv2).Broadcast?
    ensures |argv1| >= 2 && |argv2| >= 2
    ensures var s1, s2 := MembersAt(st1, argv1[1]), MembersAt(st2, argv2[1]);
            var r1 := ResolveSpop(MemMachine(rules), rules, st1, argv1).clientReply;
            var r2 := ResolveSpop(MemMachine(rules), rules, st2, argv2).clientReply;
            Replied(r1) !! Replied(r2) <==>
            || s1 !! s2
            || |Smaller(s1, Least(s1 * s2))| >= Wanted(rules, argv1)
            || |Smaller(s2, Least(s1 * s2))| >= Wanted(rules, argv2)
  {
    SpopReplies(rules, st1, argv1);
    SpopReplies(rules, st2, argv2);
    var s1, s2 := MembersAt(st1, argv1[1]), MembersAt(st2, argv2[1]);
    BoundedPopsDisjointIff(s1, Wanted(rules, argv1), s2, Wanted(rules, argv2));
  }

  /** So two SPOPs of the same key resolved before either effect is delivered, on the
      same state, always hand out a member twice; and once only removals lie between
      them, exactly if a member that the first handed out is still there. */
  lemma SpopsOfOneStateShare(rules: Rules, st1: StoreState, argv1: seq<Bytes>, st2: StoreState, argv2: seq<Bytes>)
    requires ResolveSpop(MemMachine(rules), rules, st1, argv1).Broadcast?
    requires ResolveSpop(MemMachine(rules), rules, st2, argv2).Broadcast?
    requires |argv1| >= 2 && |argv2| >= 2 && MembersAt(st2, argv2[1]) <= MembersAt(st1, argv1[1])
    ensures var r1 := ResolveSpop(MemMachine(rules), rules, st1, argv1).clientReply;
            var r2 := ResolveSpop(MemMachine(rules), rules, st2, argv2).clientReply;
            && (Replied(r1) !! Replied(r2) <==> Replied(r1) !! MembersAt(st2, argv2[1]))
            && (MembersAt(st2, argv2[1]) == MembersAt(st1, argv1[1]) ==> !(Replied(r1) !! Replied(r2)))
  {
    var s1, s2 := MembersAt(st1, argv1[1]), MembersAt(st2, argv2[1]);
    var n1, n2 := Min(Wanted(rules, argv1), |s1|), Min(Wanted(rules, argv2), |s2|);
    SpopReplies(rules, st1, argv1);
    SpopReplies(rules, st2, argv2);
    SpopImmediateIff(rules, st1, argv1);
    SpopImmediateIff(rules, st2, argv2);
    LaterPopDisjointIff(s1, n1, s2, n2);
  }

  lemma LaterPopDisjointIff(s1: set<Bytes>, n1: nat, s2: set<Bytes>, n2: nat)
    requires s2 <= s1 && 0 < n1 <= |s1| && 0 < n2 <= |s2|
    ensures var p1 := Elems(Sorted(s1)[..n1]);
            && (p1 !! Elems(Sorted(s2)[..n2]) <==> p1 !! s2)
            && (s1 == s2 ==> !(p1 !! s2))
  {
    var p1, m := Elems(Sorted(s1)[..n1]), Least(s2);
    assert s1 * s2 == s2;
    PopsDisjointIff(s1, n1, s2, n2);
    NoneBeforeLeast(s2);
    PoppedIff(s1, n1, m);
    forall x | x in p1 && x in s2 ensures m in p1 {
      PoppedIff(s1, n1, x);
      SmallerGrows(s1, m, x);
    }
  }

  lemma NoneBeforeLeast(s: set<Bytes>)
    requires s != {}
    ensures Smaller(s, Least(s)) == {}
  {
    forall y | y in s ensures !Before(y, Least(s)) {
      BeforeTotal(y, Least(s));
    }
  }
}
