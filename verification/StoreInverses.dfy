/** What store writes undo of each other, and what a pair list means. */
module StoreInverses {
  import opened Wire
  import opened Store

  lemma Overwritten(st: StoreState, k: Bytes, x: Value, y: Value)
    ensures Erased(Stored(st, k, x), k) == Erased(st, k)
    ensures Stored(Stored(st, k, x), k, y) == Stored(st, k, y)
  {
    assert st.data[k := x] - {k} == st.data - {k};
    assert st.data[k := x][k := y] == st.data[k := y];
  }

  lemma SremFromStored(st: StoreState, argv: seq<Bytes>, members: set<Bytes>)
    requires |argv| >= 2
    ensures var left := members - Operands(argv, 2);
            ApplySrem(Stored(st, argv[1], Set(members)), argv).0 ==
            if left == {} then Erased(st, argv[1]) else Stored(st, argv[1], Set(left))
  {
    Overwritten(st, argv[1], Set(members), Set(members - Operands(argv, 2)));
  }

  lemma SaddThenSrem(st: StoreState, argv: seq<Bytes>)
    requires |argv| >= 2 && !ApplySadd(st, argv).1.Error?
    ensures var left := MembersAt(st, argv[1]) - Operands(argv, 2);
            ApplySrem(ApplySadd(st, argv).0, argv).0 ==
            if left == {} then Erased(st, argv[1]) else Stored(st, argv[1], Set(left))
  {
    var s, ops := MembersAt(st, argv[1]), Operands(argv, 2);
    AddThenRemove(s, ops);
    SremFromStored(st, argv, s + ops);
    assert ApplySadd(st, argv).0 == Stored(st, argv[1], Set(s + ops));
  }

  /** SREM takes an SADD with the same operands back exactly when none of the
      members was there before and the key did not hold an empty set. */
  lemma SremUndoesSaddIff(st: StoreState, argv: seq<Bytes>)
    requires |argv| >= 2 && !ApplySadd(st, argv).1.Error?
    ensures ApplySrem(ApplySadd(st, argv).0, argv).0 == st <==>
            MembersAt(st, argv[1]) !! Operands(argv, 2) && (argv[1] in st.data ==> st.data[argv[1]] != Set({}))
  {
    var k, s, ops := argv[1], MembersAt(st, argv[1]), Operands(argv, 2);
    SaddThenSrem(st, argv);
    AddThenRemove(s, ops);
    if s - ops == {} {
      RemovedIsSame(st.data, k);
    } else {
      StoredIsSame(st.data, k, Set(s - ops));
    }
  }

  lemma AddThenRemove(s: set<Bytes>, ops: set<Bytes>)
    ensures s + ops - ops == s - ops
    ensures s - ops == s <==> s !! ops
  {
    if x :| x in s && x in ops {
      assert x !in s - ops;
    }
  }

  lemma RemovedIsSame(m: map<Bytes, Value>, k: Bytes)
    ensures m - {k} == m <==> k !in m
  {
    assert k !in m - {k};
  }

  lemma StoredIsSame(m: map<Bytes, Value>, k: Bytes, x: Value)
    ensures m[k := x] == m <==> k in m && m[k] == x
  {
    assert k in m[k := x] && m[k := x][k] == x;
  }

  /** Renaming back restores the store exactly when the target had neither a value
      nor a TTL, or was the key itself. */
  lemma RenameBackRestoresIff(rules: Rules, st: StoreState, name: Bytes, src: Bytes, dst: Bytes)
    requires src in st.data
    ensures var there := rules.ApplyKey(st, RENAME, [name, src, dst]);
            var back := rules.ApplyKey(there.0, RENAME, [name, dst, src]);
            && there.1 == Ok() && back.1 == Ok()
            && (back.0 == st <==> src == dst || (dst !in st.data && dst !in st.ttl))
  {
    var there := rules.ApplyKey(st, RENAME, [name, src, dst]).0;
    var back := rules.ApplyKey(there, RENAME, [name, dst, src]).0;
    if src == dst {
      assert there.data == st.data && there.ttl == st.ttl;
      assert back.data == st.data && back.ttl == st.ttl;
    } else {
      assert back.data == st.data - {dst};
      assert back.ttl == st.ttl - {dst};
      assert dst !in back.data && dst !in back.ttl;
      if dst !in st.data && dst !in st.ttl {
        assert back.data == st.data && back.ttl == st.ttl;
      }
    }
  }

  /** Position `i` is the last place where `pairs` names the field `f`. */
  ghost predicate LastNamed(pairs: seq<Bytes>, i: nat, f: Bytes) {
    && i % 2 == 0 && i + 1 < |pairs| && pairs[i] == f
    && forall j :: i < j < |pairs| && j % 2 == 0 ==> pairs[j] != f
  }

  /** Among repeated fields the last value wins, and fields not named are kept. */
  lemma {:induction false} LastValueWins(h: map<Bytes, Bytes>, pairs: seq<Bytes>, f: Bytes)
    requires |pairs| % 2 == 0
    ensures forall i: nat :: LastNamed(pairs, i, f) ==> f in PutPairs(h, pairs) && PutPairs(h, pairs)[f] == pairs[i + 1]
    ensures (forall i :: 0 <= i < |pairs| && i % 2 == 0 ==> pairs[i] != f) ==>
              (f in PutPairs(h, pairs) <==> f in h) && (f in h ==> PutPairs(h, pairs)[f] == h[f])
  {
    if |pairs| >= 2 {
      var n := |pairs| - 2;
      LastValueWins(h, pairs[..n], f);
      forall i: nat | LastNamed(pairs, i, f) ensures f in PutPairs(h, pairs) && PutPairs(h, pairs)[f] == pairs[i + 1] {
        if i < n {
          assert pairs[n] != f;
          assert LastNamed(pairs[..n], i, f);
        }
      }
      if forall i :: 0 <= i < |pairs| && i % 2 == 0 ==> pairs[i] != f {
        assert pairs[n] != f;
        assert forall i :: 0 <= i < n && i % 2 == 0 ==> pairs[..n][i] == pairs[i];
      }
    }
  }
}
