/** Apply-side write dedup: one watermark and out-of-order window per origin. */
module Dedup {
  import opened Wire

  datatype OriginDedup = OriginDedup(watermark: nat, recent: set<nat>)

  type DedupState = map<ProcId, OriginDedup>

  predicate IsDup(od: OriginDedup, id: nat) {
    id < od.watermark || id in od.recent
  }

  /** The ids this record stands for. */
  function Ids(od: OriginDedup): set<nat> {
    (set i: nat | 0 <= i < od.watermark && IsDup(od, i)) + od.recent
  }

  /** Nothing in the window touches the watermark. */
  ghost predicate Swept(od: OriginDedup) {
    forall x :: x in od.recent ==> od.watermark < x
  }

  /** Advance the watermark over the contiguous part of the window. */
  function Sweep(watermark: nat, recent: set<nat>): OriginDedup
    decreases recent
  {
    if watermark in recent then Sweep(watermark + 1, recent - {watermark})
    else OriginDedup(watermark, recent)
  }

  function Record(od: OriginDedup, id: nat): OriginDedup {
    Sweep(od.watermark, od.recent + {id})
  }

  function OriginOf(d: DedupState, origin: ProcId): OriginDedup {
    if origin in d then d[origin] else OriginDedup(0, {})
  }

  /** The dedup decision and the state after it. */
  function FirstSeen(d: DedupState, origin: ProcId, id: nat): (bool, DedupState) {
    var od := OriginOf(d, origin);
    if IsDup(od, id) then (false, d[origin := od])
    else (true, d[origin := Record(od, id)])
  }

  /** The unbounded set of (origin, id) pairs the state stands for. */
  ghost function Applied(d: DedupState): set<OpKey> {
    set o, i | o in d && i in Ids(d[o]) :: (o, i)
  }

  ghost predicate Canonical(d: DedupState) {
    forall o :: o in d ==> Swept(d[o]) && Ids(d[o]) != {}
  }

  // ---------- one origin ----------

  lemma {:induction false} SweepKeepsIds(watermark: nat, recent: set<nat>)
    requires forall x :: x in recent ==> watermark <= x
    ensures Swept(Sweep(watermark, recent))
    ensures Ids(Sweep(watermark, recent)) == Ids(OriginDedup(watermark, recent))
    decreases recent
  {
    if watermark in recent {
      SweepKeepsIds(watermark + 1, recent - {watermark});
      assert Ids(OriginDedup(watermark + 1, recent - {watermark})) == Ids(OriginDedup(watermark, recent));
    }
  }

  lemma RecordAddsOneId(od: OriginDedup, id: nat)
    requires Swept(od) && !IsDup(od, id)
    ensures Swept(Record(od, id)) && Ids(Record(od, id)) == Ids(od) + {id}
  {
    SweepKeepsIds(od.watermark, od.recent + {id});
  }

  /** The representation of a set of ids is unique. */
  lemma OriginCanonical(a: OriginDedup, b: OriginDedup)
    requires Swept(a) && Swept(b) && Ids(a) == Ids(b)
    ensures a == b
  {
    assert a.watermark !in Ids(a) && b.watermark !in Ids(b);
    assert a.watermark !in Ids(b) && b.watermark !in Ids(a);
    assert a.watermark == b.watermark;
    forall x ensures x in a.recent <==> x in b.recent {
      assert x in a.recent ==> x in Ids(b);
      assert x in b.recent ==> x in Ids(a);
    }
  }

  // ---------- all origins ----------

  /** One call answers and updates exactly as insertion into an unbounded set. */
  lemma FirstSeenIsSetInsert(d: DedupState, origin: ProcId, id: nat)
    requires Canonical(d)
    ensures FirstSeen(d, origin, id).0 <==> (origin, id) !in Applied(d)
    ensures Canonical(FirstSeen(d, origin, id).1)
    ensures Applied(FirstSeen(d, origin, id).1) == Applied(d) + {(origin, id)}
  {
    var od := OriginOf(d, origin);
    assert Swept(od);
    assert IsDup(od, id) <==> id in Ids(od);
    assert (origin, id) in Applied(d) <==> IsDup(od, id);
    var d' := FirstSeen(d, origin, id).1;
    if IsDup(od, id) {
      assert d' == d;
    } else {
      RecordAddsOneId(od, id);
      assert d'[origin] == Record(od, id);
      forall k | k in Applied(d') ensures k in Applied(d) + {(origin, id)} {
        if k.0 == origin {
          assert k.1 in Ids(od) + {id};
        } else {
          assert d'[k.0] == d[k.0];
        }
      }
      forall k | k in Applied(d) + {(origin, id)} ensures k in Applied(d') {
        if k.0 == origin {
          assert k.1 in Ids(d'[origin]);
        } else {
          assert d'[k.0] == d[k.0];
        }
      }
    }
  }

  /** Two states standing for the same applied set are the same state. */
  lemma DedupCanonical(a: DedupState, b: DedupState)
    requires Canonical(a) && Canonical(b) && Applied(a) == Applied(b)
    ensures a == b
  {
    KeysCovered(a, b);
    KeysCovered(b, a);
    forall o | o in a ensures a[o] == b[o] {
      forall i ensures i in Ids(a[o]) <==> i in Ids(b[o]) {
        assert (o, i) in Applied(a) <==> i in Ids(a[o]);
        assert (o, i) in Applied(b) <==> i in Ids(b[o]);
      }
      OriginCanonical(a[o], b[o]);
    }
  }

  lemma KeysCovered(a: DedupState, b: DedupState)
    requires Canonical(a) && Applied(a) <= Applied(b)
    ensures a.Keys <= b.Keys
  {
    forall o | o in a ensures o in b {
      var i :| i in Ids(a[o]);
      assert (o, i) in Applied(a);
    }
  }

  // ---------- whole call sequences ----------

  /** Answers and final state of a sequence of `first_seen` calls from a fresh state. */
  function Calls(keys: seq<OpKey>): (seq<bool>, DedupState) {
    if keys == [] then ([], map[]) else
      var (answers, d) := Calls(keys[..|keys| - 1]);
      var k := keys[|keys| - 1];
      var (isNew, d') := FirstSeen(d, k.0, k.1);
      (answers + [isNew], d')
  }

  function SetOf(keys: seq<OpKey>): set<OpKey> {
    set k | k in keys
  }

  lemma {:induction false} CallsApplyASet(keys: seq<OpKey>)
    ensures |Calls(keys).0| == |keys|
    ensures Canonical(Calls(keys).1) && Applied(Calls(keys).1) == SetOf(keys)
  {
    if keys != [] {
      var before := keys[..|keys| - 1];
      var k := keys[|keys| - 1];
      CallsApplyASet(before);
      FirstSeenIsSetInsert(Calls(before).1, k.0, k.1);
      assert keys == before + [k];
      assert SetOf(keys) == SetOf(before) + {k};
    }
  }

  /** For every call sequence the i-th answer says whether the i-th pair is new. */
  lemma {:induction false} CallsAnswerAsASet(keys: seq<OpKey>, i: nat)
    requires i < |keys|
    ensures |Calls(keys).0| == |keys|
    ensures Calls(keys).0[i] <==> keys[i] !in keys[..i]
  {
    CallsApplyASet(keys);
    var before := keys[..|keys| - 1];
    if i < |before| {
      CallsAnswerAsASet(before, i);
      assert keys[..i] == before[..i];
    } else {
      CallsApplyASet(before);
      FirstSeenIsSetInsert(Calls(before).1, keys[i].0, keys[i].1);
      assert keys[..i] == before;
      assert keys[i] in before <==> keys[i] in SetOf(before);
    }
  }

  /** The arrival order leaves no trace: only the set of pairs matters. */
  lemma CallsForgetOrder(ks: seq<OpKey>, ls: seq<OpKey>)
    requires forall k :: k in ks <==> k in ls
    ensures Calls(ks).1 == Calls(ls).1
  {
    CallsApplyASet(ks);
    CallsApplyASet(ls);
    assert SetOf(ks) == SetOf(ls);
    DedupCanonical(Calls(ks).1, Calls(ls).1);
  }

  // ---------- size of the window ----------

  lemma {:induction false} RangeSize(lo: nat, hi: nat, s: set<nat>)
    requires lo <= hi && forall x :: x in s ==> lo < x <= hi
    ensures |s| <= hi - lo
    decreases hi - lo
  {
    if lo < hi {
      RangeSize(lo, hi - 1, s - {hi});
    } else {
      assert s == {};
    }
  }

  /** The window never holds more than the gap up to the largest applied id. */
  lemma WindowBound(od: OriginDedup, largest: nat)
    requires Swept(od) && forall i :: i in Ids(od) ==> i <= largest
    ensures od.watermark <= largest + 1
    ensures od.recent != {} ==> |od.recent| <= largest - od.watermark
  {
    if od.watermark > 0 {
      assert od.watermark - 1 in Ids(od);
    }
    if od.recent != {} {
      var x :| x in od.recent;
      assert x in Ids(od);
      RangeSize(od.watermark, largest, od.recent);
    }
  }

  /** How many different ids of `origin` occur. */
  function CountOf(keys: seq<OpKey>, origin: ProcId): nat {
    if keys == [] then 0 else
      var before := keys[..|keys| - 1];
      var k := keys[|keys| - 1];
      CountOf(before, origin) + (if k.0 == origin && k !in before then 1 else 0)
  }

  /** Each origin's first deliveries arrive in id order from 0. */
  ghost predicate FifoPerOrigin(keys: seq<OpKey>) {
    forall i :: 0 <= i < |keys| && keys[i] !in keys[..i] ==> keys[i].1 == CountOf(keys[..i], keys[i].0)
  }

  /** Under per-origin FIFO the window is empty after every step and the
      watermark counts that origin's applied operations. */
  lemma {:induction false} FifoKeepsWindowEmpty(keys: seq<OpKey>, origin: ProcId)
    requires FifoPerOrigin(keys)
    ensures OriginOf(Calls(keys).1, origin) == OriginDedup(CountOf(keys, origin), {})
  {
    if keys == [] {
    } else {
      var before := keys[..|keys| - 1];
      var k := keys[|keys| - 1];
      assert FifoPerOrigin(before) by {
        forall i | 0 <= i < |before| && before[i] !in before[..i]
          ensures before[i].1 == CountOf(before[..i], before[i].0)
        {
          assert keys[..i] == before[..i];
        }
      }
      FifoKeepsWindowEmpty(before, origin);
      FifoKeepsWindowEmpty(before, k.0);
      CallsApplyASet(before);
      FirstSeenIsSetInsert(Calls(before).1, k.0, k.1);
      var w := CountOf(before, k.0);
      assert k in before <==> k in Applied(Calls(before).1);
      assert keys[..|keys| - 1] == before;
      if k !in before {
        assert k.1 == w;
        assert {} + {w} - {w} == {};
        assert Sweep(w, {w}) == Sweep(w + 1, {w} - {w}) == OriginDedup(w + 1, {});
        assert {} + {w} == {w};
      }
    }
  }

  // ---------- the mutable form ----------

  /** `OriginDedup::record`: insert, then drain the window under the watermark. */
  method RecordId(od: OriginDedup, id: nat) returns (r: OriginDedup)
    ensures r == Record(od, id)
    ensures Swept(od) && !IsDup(od, id) ==> Swept(r) && Ids(r) == Ids(od) + {id}
  {
    var watermark, recent := od.watermark, od.recent + {id};
    while watermark in recent
      invariant Sweep(watermark, recent) == Record(od, id)
      decreases recent
    {
      recent := recent - {watermark};
      watermark := watermark + 1;
    }
    r := OriginDedup(watermark, recent);
    if Swept(od) && !IsDup(od, id) {
      RecordAddsOneId(od, id);
    }
  }

  class WriteDedup {
    var origins: DedupState

    constructor ()
      ensures origins == map[]
    {
      origins := map[];
    }

    /** Adopt the dedup state of a snapshot. */
    method Restore(d: DedupState)
      modifies this
      ensures origins == d
    {
      origins := d;
    }

    /** On a canonical state (every reachable one) this is insertion into the set
        of applied pairs; the answer says whether the pair was new. */
    method FirstSeenOp(origin: ProcId, id: nat) returns (isNew: bool)
      modifies this
      ensures (isNew, origins) == FirstSeen(old(origins), origin, id)
      ensures Canonical(old(origins)) ==>
                && Canonical(origins)
                && (isNew <==> (origin, id) !in Applied(old(origins)))
                && Applied(origins) == Applied(old(origins)) + {(origin, id)}
    {
      if Canonical(origins) {
        FirstSeenIsSetInsert(origins, origin, id);
      }
      var od := OriginOf(origins, origin);
      origins := origins[origin := od];
      if IsDup(od, id) {
        return false;
      }
      var recorded := RecordId(od, id);
      origins := origins[origin := recorded];
      assert origins == old(origins)[origin := recorded];
      isNew := true;
    }
  }
}
