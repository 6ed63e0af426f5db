/** The bounded log of applied effects that a survivor serves to a rejoiner. */
module DeliveredLog {
  import opened Wire

  const DEFAULT_CAP: nat := 262144

  datatype Entry = Entry(index: nat, op: WriteOp)

  datatype Log = Log(entries: seq<Entry>, head: nat, cap: nat)

  function Max1(cap: nat): nat {
    if cap == 0 then 1 else cap
  }

  function NewLog(cap: nat): Log {
    Log([], 0, Max1(cap))
  }

  function ResumedAt(index: nat, cap: nat): Log {
    Log([], index, Max1(cap))
  }

  /** Keep the newest `cap` entries. */
  function Evict(entries: seq<Entry>, cap: nat): seq<Entry> {
    if |entries| <= cap then entries else entries[|entries| - cap..]
  }

  function Append(l: Log, op: WriteOp): Log {
    Log(Evict(l.entries + [Entry(l.head, op)], l.cap), l.head + 1, l.cap)
  }

  function LowWater(l: Log): nat {
    if l.entries == [] then l.head else l.entries[0].index
  }

  predicate CanServeFrom(l: Log, x: nat) {
    LowWater(l) <= x <= l.head
  }

  /** The retained entries with index at least `x`, oldest first. */
  function Filter(entries: seq<Entry>, x: nat): seq<Entry> {
    if entries == [] then [] else
      var before := Filter(entries[..|entries| - 1], x);
      var e := entries[|entries| - 1];
      if x <= e.index then before + [e] else before
  }

  function EntriesFrom(l: Log, x: nat): seq<Entry> {
    Filter(l.entries, x)
  }

  // ---------- what a log says about the history it was fed ----------

  /** `hist[lo..]` as indexed entries. */
  function Slice(hist: seq<WriteOp>, lo: nat): seq<Entry>
    requires lo <= |hist|
  {
    seq(|hist| - lo, i requires 0 <= i < |hist| - lo => Entry(lo + i, hist[lo + i]))
  }

  /** The log holds exactly the last `min(cap, |hist| - base)` operations of
      `hist`, where `base` is the index at which it was started or resumed. */
  ghost predicate Tracks(l: Log, hist: seq<WriteOp>, base: nat) {
    && 1 <= l.cap
    && l.head == |hist|
    && base <= |hist|
    && |l.entries| == (if |hist| - base <= l.cap then |hist| - base else l.cap)
    && l.entries == Slice(hist, |hist| - |l.entries|)
  }

  lemma ResumedTracks(hist: seq<WriteOp>, cap: nat)
    ensures Tracks(ResumedAt(|hist|, cap), hist, |hist|)
  {
    assert Slice(hist, |hist|) == [];
  }

  lemma AppendTracks(l: Log, hist: seq<WriteOp>, base: nat, op: WriteOp)
    requires Tracks(l, hist, base)
    ensures Tracks(Append(l, op), hist + [op], base)
  {
    var grown := l.entries + [Entry(l.head, op)];
    var lo := |hist| - |l.entries|;
    assert grown == Slice(hist + [op], lo);
    var l' := Append(l, op);
    assert l'.entries == Slice(hist + [op], |hist| + 1 - |l'.entries|);
  }

  /** The oldest retained index is the head minus the number retained. */
  lemma LowWaterOf(l: Log, hist: seq<WriteOp>, base: nat)
    requires Tracks(l, hist, base)
    ensures LowWater(l) == l.head - |l.entries|
  {
  }

  lemma {:induction false} FilterSlice(entries: seq<Entry>, x: nat, lo: nat)
    requires forall i :: 0 <= i < |entries| ==> entries[i].index == lo + i
    ensures Filter(entries, x) ==
            if x <= lo then entries else if lo + |entries| <= x then [] else entries[x - lo..]
  {
    if entries == [] {
    } else {
      var before := entries[..|entries| - 1];
      FilterSlice(before, x, lo);
      assert entries == before + [entries[|entries| - 1]];
      if lo < x < lo + |entries| {
        assert entries[x - lo..] == before[x - lo..] + [entries[|entries| - 1]];
      }
    }
  }

  /** Below the head, the filter returns the suffix of the retained window. */
  lemma EntriesFromIsSuffix(l: Log, hist: seq<WriteOp>, base: nat, x: nat)
    requires Tracks(l, hist, base)
    ensures EntriesFrom(l, x) ==
            if |hist| <= x then [] else Slice(hist, if x < LowWater(l) then LowWater(l) else x)
  {
    var lo := |hist| - |l.entries|;
    LowWaterOf(l, hist, base);
    FilterSlice(l.entries, x, lo);
    if lo < x < |hist| {
      assert l.entries[x - lo..] == Slice(hist, x);
    }
  }

  /** `can_serve_from(x)` holds exactly when `x` is not ahead of the head and the
      returned tail is the whole history from `x` on. */
  lemma CanServeIffTailComplete(l: Log, hist: seq<WriteOp>, base: nat, x: nat)
    requires Tracks(l, hist, base)
    ensures CanServeFrom(l, x) <==> x <= |hist| && EntriesFrom(l, x) == Slice(hist, x)
  {
    EntriesFromIsSuffix(l, hist, base, x);
    LowWaterOf(l, hist, base);
    if x <= |hist| && x < LowWater(l) {
      assert |Slice(hist, x)| != |EntriesFrom(l, x)|;
    }
    if x == |hist| {
      assert Slice(hist, x) == [];
    }
  }

  // ---------- without the operations before the start ----------

  /** The log holds exactly the newest of the operations `since` that were appended
      after it was started or resumed at index `base`. */
  ghost predicate TracksSince(l: Log, base: nat, since: seq<WriteOp>) {
    && 1 <= l.cap
    && l.head == base + |since|
    && |l.entries| == (if |since| <= l.cap then |since| else l.cap)
    && forall i :: 0 <= i < |l.entries| ==>
         l.entries[i] == Entry(l.head - |l.entries| + i, since[|since| - |l.entries| + i])
  }

  /** What came before the start does not matter: the log tracks every history that
      ends in `since` after `base` operations. */
  lemma TracksAnyPast(l: Log, past: seq<WriteOp>, since: seq<WriteOp>)
    ensures TracksSince(l, |past|, since) <==> Tracks(l, past + since, |past|)
  {
    var hist := past + since;
    if TracksSince(l, |past|, since) {
      assert l.entries == Slice(hist, |hist| - |l.entries|);
    }
    if Tracks(l, hist, |past|) {
      assert l.entries == Slice(hist, |hist| - |l.entries|);
    }
  }

  lemma AppendTracksSince(l: Log, base: nat, since: seq<WriteOp>, op: WriteOp)
    requires TracksSince(l, base, since)
    ensures TracksSince(Append(l, op), base, since + [op])
  {
    var past := seq(base, _ => op);
    TracksAnyPast(l, past, since);
    AppendTracks(l, past + since, base, op);
    assert past + since + [op] == past + (since + [op]);
    TracksAnyPast(Append(l, op), past, since + [op]);
  }

  // ---------- the mutable form ----------

  /** `since` is a ghost record of what was appended after `base`. */
  class RingLog {
    var entries: seq<Entry>
    var head: nat
    const cap: nat
    ghost var base: nat
    ghost var since: seq<WriteOp>

    ghost predicate Valid()
      reads this
    {
      TracksSince(View(), base, since)
    }

    function View(): Log
      reads this
    {
      Log(entries, head, cap)
    }

    constructor (cap: nat)
      ensures Valid() && View() == NewLog(cap) && base == 0 && since == []
      ensures this.cap == if cap == 0 then 1 else cap
    {
      this.entries, this.head, this.cap := [], 0, Max1(cap);
      base, since := 0, [];
    }

    /** Restart the log right after importing a snapshot taken at `index`. */
    method Resume(index: nat)
      requires 1 <= cap
      modifies this
      ensures Valid() && View() == ResumedAt(index, cap) && base == index && since == []
    {
      entries, head := [], index;
      base, since := index, [];
    }

    method AppendOp(op: WriteOp) returns (index: nat)
      requires Valid()
      modifies this
      ensures Valid() && View() == Append(old(View()), op)
      ensures index == old(head) && base == old(base) && since == old(since) + [op]
    {
      AppendTracksSince(View(), base, since, op);
      index := head;
      entries := entries + [Entry(index, op)];
      head := head + 1;
      ghost var grown := entries;
      while |entries| > cap
        invariant Evict(entries, cap) == Evict(grown, cap)
        modifies `entries
        decreases |entries|
      {
        entries := entries[1..];
      }
      since := since + [op];
    }

    /** The tail from `x`, and whether it is complete: whatever history of `base`
        operations came before, the tail is then all of it from `x` on. */
    method Tail(x: nat) returns (tail: seq<Entry>, complete: bool)
      requires Valid()
      ensures tail == EntriesFrom(View(), x)
      ensures forall past: seq<WriteOp> :: |past| == base ==>
                (complete <==> x <= |past + since| && tail == Slice(past + since, x))
    {
      forall past: seq<WriteOp> | |past| == base
        ensures CanServeFrom(View(), x) <==> x <= |past + since| && EntriesFrom(View(), x) == Slice(past + since, x)
      {
        TracksAnyPast(View(), past, since);
        CanServeIffTailComplete(View(), past + since, base, x);
      }
      tail := [];
      for i := 0 to |entries|
        invariant tail == Filter(entries[..i], x)
      {
        assert entries[..i + 1][..i] == entries[..i];
        if x <= entries[i].index {
          tail := tail + [entries[i]];
        }
      }
      assert entries[..|entries|] == entries;
      complete := LowWater(View()) <= x && x <= head;
    }
  }
}
