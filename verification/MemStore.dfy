/** The store as the source runs it: maps changed in place, operands handled in
    loops that count what they changed. */
module MemStores {
  import opened Wire
  import opened Store

  lemma MapRemoveOne<V>(m: map<Bytes, V>, k: Bytes)
    ensures |m - {k}| == if k in m then |m| - 1 else |m|
    ensures k !in m ==> m - {k} == m
  {
    assert (m - {k}).Keys == m.Keys - {k};
    if k !in m {
      assert m - {k} == m;
    }
  }

  lemma MapRemoveMore<V>(m: map<Bytes, V>, k: Bytes, gone: set<Bytes>)
    ensures m - {k} - gone == m - (gone + {k})
  {
  }

  lemma MapRemoveNone<V>(m: map<Bytes, V>)
    ensures m - {} == m
  {
  }

  lemma MapPutOne<V>(m: map<Bytes, V>, k: Bytes, v: V)
    ensures |m[k := v]| == if k in m then |m| else |m| + 1
  {
    assert m[k := v].Keys == m.Keys + {k};
    if k in m {
      assert m.Keys + {k} == m.Keys;
    }
  }

  // ---------- the operand loops ----------

  method AddMembers(s0: set<Bytes>, argv: seq<Bytes>) returns (s: set<Bytes>, added: nat)
    requires |argv| >= 2
    ensures s == s0 + Operands(argv, 2) && added == |s| - |s0|
  {
    s, added := s0, 0;
    for i := 2 to |argv|
      invariant s + Operands(argv, i) == s0 + Operands(argv, 2) && added == |s| - |s0|
    {
      if argv[i] !in s {
        s := s + {argv[i]};
        added := added + 1;
      }
    }
  }

  method RemoveMembers(s0: set<Bytes>, argv: seq<Bytes>) returns (s: set<Bytes>, removed: nat)
    requires |argv| >= 2
    ensures s == s0 - Operands(argv, 2) && removed == |s0| - |s|
  {
    s, removed := s0, 0;
    for i := 2 to |argv|
      invariant s - Operands(argv, i) == s0 - Operands(argv, 2) && removed == |s0| - |s|
    {
      if argv[i] in s {
        s := s - {argv[i]};
        removed := removed + 1;
      }
    }
  }

  method RemoveKeys<V>(h0: map<Bytes, V>, argv: seq<Bytes>, from: nat) returns (h: map<Bytes, V>, removed: int)
    requires from <= |argv|
    ensures h == h0 - Operands(argv, from) && removed == |h0| - |h|
  {
    h, removed := h0, 0;
    for i := from to |argv|
      invariant h - Operands(argv, i) == h0 - Operands(argv, from) && removed == |h0| - |h|
    {
      MapRemoveOne(h, argv[i]);
      MapRemoveMore(h, argv[i], Operands(argv, i + 1));
      if argv[i] in h {
        removed := removed + 1;
      }
      h := h - {argv[i]};
    }
    MapRemoveNone(h);
  }

  method PutFields(h0: map<Bytes, Bytes>, pairs: seq<Bytes>) returns (h: map<Bytes, Bytes>, added: nat)
    requires |pairs| % 2 == 0
    ensures h == PutPairs(h0, pairs) && added == |h| - |h0|
  {
    h, added := h0, 0;
    var i := 0;
    while i + 1 < |pairs|
      invariant i <= |pairs| && i % 2 == 0
      invariant h == PutPairs(h0, pairs[..i]) && added == |h| - |h0|
    {
      MapPutOne(h, pairs[i], pairs[i + 1]);
      assert pairs[..i + 2][..i] == pairs[..i];
      if pairs[i] !in h {
        added := added + 1;
      }
      h := h[pairs[i] := pairs[i + 1]];
      i := i + 2;
    }
    assert pairs[..i] == pairs;
  }

  class MemStore {
    const rules: Rules
    var data: map<Bytes, Value>
    var ttl: map<Bytes, int>

    function View(): StoreState
      reads this
    {
      StoreState(data, ttl)
    }

    constructor (rules: Rules)
      ensures View() == StoreState(map[], map[]) && this.rules == rules
    {
      this.rules := rules;
      data, ttl := map[], map[];
    }

    method Del(argv: seq<Bytes>) returns (reply: Reply)
      modifies this
      ensures (View(), reply) == ApplyDel(old(View()), argv)
    {
      if |argv| == 0 {
        MapRemoveNone(data);
        MapRemoveNone(ttl);
        return Integer(0);
      }
      var ttl', _ := RemoveKeys(ttl, argv, 1);
      var data', removed := RemoveKeys(data, argv, 1);
      data, ttl := data', ttl';
      reply := Integer(removed);
    }

    method Sadd(argv: seq<Bytes>) returns (reply: Reply)
      modifies this
      ensures (View(), reply) == ApplySadd(old(View()), argv)
    {
      if |argv| < 2 {
        return WrongArgs("sadd");
      }
      var k := argv[1];
      if k in data && !data[k].Set? {
        return WrongType();
      }
      var s, added := AddMembers(if k in data then data[k].members else {}, argv);
      data := data[k := Set(s)];
      reply := Integer(added);
    }

    method Srem(argv: seq<Bytes>) returns (reply: Reply)
      modifies this
      ensures (View(), reply) == ApplySrem(old(View()), argv)
    {
      if |argv| < 2 {
        return WrongArgs("srem");
      }
      var k := argv[1];
      if k !in data {
        return Integer(0);
      }
      if !data[k].Set? {
        return WrongType();
      }
      var s, removed := RemoveMembers(data[k].members, argv);
      data := if s == {} then data - {k} else data[k := Set(s)];
      reply := Integer(removed);
    }

    method Hdel(argv: seq<Bytes>) returns (reply: Reply)
      modifies this
      ensures (View(), reply) == ApplyHdel(old(View()), argv)
    {
      if |argv| < 2 {
        return WrongArgs("hdel");
      }
      var k := argv[1];
      if k !in data {
        return Integer(0);
      }
      if !data[k].Hash? {
        return WrongType();
      }
      var h, removed := RemoveKeys(data[k].fields, argv, 2);
      data := if h == map[] then data - {k} else data[k := Hash(h)];
      reply := Integer(removed);
    }

    method Hset(v: Verb, argv: seq<Bytes>) returns (reply: Reply)
      modifies this
      ensures (View(), reply) == ApplyHset(old(View()), v, argv)
    {
      if |argv| < 4 || (|argv| - 2) % 2 != 0 {
        return WrongArgs("hset");
      }
      var k := argv[1];
      if k in data && !data[k].Hash? {
        return WrongType();
      }
      var h, added := PutFields(if k in data then data[k].fields else map[], argv[2..]);
      data := data[k := Hash(h)];
      reply := if v == HMSET then Ok() else Integer(added);
    }

    method Incr(v: Verb, argv: seq<Bytes>) returns (reply: Reply)
      modifies this
      ensures (View(), reply) == rules.ApplyIncr(old(View()), v, argv)
    {
      if |argv| < 2 {
        return WrongArgs("incr");
      }
      var delta := rules.Delta(v, argv);
      if delta.None? {
        return NotAnInteger();
      }
      reply := IncrKey(argv[1], delta.value);
    }

    method IncrKey(k: Bytes, delta: int) returns (reply: Reply)
      modifies this
      ensures (View(), reply) == rules.IncrBy(old(View()), k, delta)
    {
      var cur := 0;
      if k in data {
        if !data[k].Str? {
          return WrongType();
        }
        var parsed := rules.readInt(data[k].text);
        if parsed.None? {
          return NotAnInteger();
        }
        cur := parsed.value;
      }
      var next := CheckedAdd(cur, delta);
      if next.None? {
        return Overflow();
      }
      data := data[k := Str(rules.printInt(next.value))];
      reply := Integer(next.value);
    }

    method Hincrby(argv: seq<Bytes>) returns (reply: Reply)
      modifies this
      ensures (View(), reply) == rules.ApplyHincrby(old(View()), argv)
    {
      if |argv| < 4 {
        return WrongArgs("hincrby");
      }
      var k, f := argv[1], argv[2];
      var delta := rules.readInt(argv[3]);
      if delta.None? {
        return NotAnInteger();
      }
      if k !in data {
        data := data[k := Hash(map[])];
      }
      if !data[k].Hash? {
        return WrongType();
      }
      var h := data[k].fields;
      assert data == old(data)[k := Hash(h)];
      var cur := 0;
      if f in h {
        var parsed := rules.readInt(h[f]);
        if parsed.None? {
          return Error(Ascii("ERR hash value is not an integer"));
        }
        cur := parsed.value;
      }
      var next := CheckedAdd(cur, delta.value);
      if next.None? {
        return Overflow();
      }
      data := data[k := Hash(h[f := rules.printInt(next.value)])];
      assert data == old(data)[k := Hash(h[f := rules.printInt(next.value)])];
      reply := Integer(next.value);
    }

    method Hsetnx(argv: seq<Bytes>) returns (reply: Reply)
      modifies this
      ensures (View(), reply) == ApplyHsetnx(old(View()), argv)
    {
      if |argv| < 4 {
        return WrongArgs("hsetnx");
      }
      var k, f, x := argv[1], argv[2], argv[3];
      if k in data && !data[k].Hash? {
        return WrongType();
      }
      var h := if k in data then data[k].fields else map[];
      if f in h {
        return Integer(0);
      }
      data := data[k := Hash(h[f := x])];
      reply := Integer(1);
    }

    method StringWrite(v: Verb, argv: seq<Bytes>) returns (reply: Reply)
      requires v.SET? || v.SETNX? || v.GETSET? || v.APPEND?
      modifies this
      ensures (View(), reply) == ApplyString(old(View()), v, argv)
    {
      if |argv| < 3 {
        return WrongArgs(if v.SET? then "set" else if v.SETNX? then "setnx" else if v.GETSET? then "getset" else "append");
      }
      var k, x := argv[1], argv[2];
      match v
      case SET =>
        data, ttl := data[k := Str(x)], ttl - {k};
        reply := Ok();
      case SETNX =>
        if k in data {
          return Integer(0);
        }
        data := data[k := Str(x)];
        reply := Integer(1);
      case GETSET =>
        var before := if k in data then Some(data[k]) else None;
        data := data[k := Str(x)];
        if before.Some? && !before.value.Str? {
          return WrongType();
        }
        ttl := ttl - {k};
        reply := if before.Some? then Bulk(before.value.text) else Nil;
      case APPEND =>
        if k in data && !data[k].Str? {
          return WrongType();
        }
        var text := (if k in data then data[k].text else []) + x;
        data := data[k := Str(text)];
        reply := Integer(|text|);
    }

    method KeyWrite(v: Verb, argv: seq<Bytes>) returns (reply: Reply)
      requires v.EXPIRE? || v.PERSIST? || v.RENAME?
      modifies this
      ensures (View(), reply) == rules.ApplyKey(old(View()), v, argv)
    {
      match v
      case EXPIRE =>
        if |argv| < 2 {
          return WrongArgs("expire");
        }
        if argv[1] !in data {
          return Integer(0);
        }
        var secs := if |argv| > 2 then rules.readInt(argv[2]) else None;
        ttl := ttl[argv[1] := if secs.Some? then secs.value else 0];
        reply := Integer(1);
      case PERSIST =>
        if |argv| < 2 {
          return WrongArgs("persist");
        }
        if argv[1] !in ttl {
          return Integer(0);
        }
        ttl := ttl - {argv[1]};
        reply := Integer(1);
      case RENAME =>
        if |argv| < 3 {
          return WrongArgs("rename");
        }
        var src, dst := argv[1], argv[2];
        if src !in data {
          return Error(Ascii("ERR no such key"));
        }
        var x := data[src];
        data := data - {src};
        var t := if src in ttl then Some(ttl[src]) else None;
        ttl := ttl - {src};
        data := data[dst := x];
        ttl := if t.Some? then ttl[dst := t.value] else ttl - {dst};
        reply := Ok();
    }

    /** `apply`: dispatch on the command. */
    method ApplyCommand(cmd: Command) returns (reply: Reply)
      modifies this
      ensures (View(), reply) == rules.Apply(old(View()), cmd)
    {
      var v := VerbOf(cmd.name);
      if rules.OnCollections(v) {
        reply := CollectionWrite(v, cmd.argv);
      } else {
        reply := ScalarWrite(v, cmd.argv);
      }
    }

    method ScalarWrite(v: Verb, argv: seq<Bytes>) returns (reply: Reply)
      requires !rules.OnCollections(v)
      modifies this
      ensures (View(), reply) == rules.ApplyScalar(old(View()), v, argv)
    {
      if v.INCR? || v.DECR? || v.INCRBY? || v.DECRBY? {
        reply := Incr(v, argv);
      } else if v.HSET? || v.HMSET? {
        reply := Hset(v, argv);
      } else {
        reply := SingleWrite(v, argv);
      }
    }

    method SingleWrite(v: Verb, argv: seq<Bytes>) returns (reply: Reply)
      requires rules.OnSingle(v)
      modifies this
      ensures (View(), reply) == rules.ApplySingle(old(View()), v, argv)
    {
      if v.EXPIRE? || v.PERSIST? || v.RENAME? {
        reply := KeyWrite(v, argv);
      } else {
        reply := StringWrite(v, argv);
      }
    }

    method CollectionWrite(v: Verb, argv: seq<Bytes>) returns (reply: Reply)
      requires rules.OnCollections(v)
      modifies this
      ensures (View(), reply) == rules.ApplyCollection(old(View()), v, argv)
    {
      match v
      case DEL => reply := Del(argv);
      case HSETNX => reply := Hsetnx(argv);
      case HDEL => reply := Hdel(argv);
      case HINCRBY => reply := Hincrby(argv);
      case SADD => reply := Sadd(argv);
      case SREM => reply := Srem(argv);
      case FLUSH =>
        data, ttl := map[], map[];
        reply := Ok();
      case OTHER(name) => reply := NotImplemented(name);
    }
  }
}
