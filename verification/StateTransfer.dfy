/** Rejoin: what a survivor sends to a peer that has applied `have` operations,
    and what the peer's state is after applying it, in full or up to a failure. */
module StateTransfer {
  import opened Wire
  import opened Dedup
  import opened DeliveredLog
  import opened Replication

  /** The survivor's reconfiguration view. */
  datatype View = View(installed: nat, dead: set<ProcId>)

  datatype Snapshot<S> = Snapshot(store: S, dedup: DedupState, index: nat, view: Option<View>)

  /** The snapshot part as the receiver sees it: absent, undecodable as a whole,
      decodable except for the store bytes, or good. */
  datatype SnapPart<S> = NoSnap | BadSnap | BadStore | Snap(s: Snapshot<S>)

  datatype TailFrame = Frame(e: Entry) | BadFrame

  datatype Transfer<S> = Transfer(snap: SnapPart<S>, tail: seq<TailFrame>)

  datatype Outcome<S> = Outcome(node: Node<S>, applied: nat, ok: bool)

  function Frames(es: seq<Entry>): seq<TailFrame> {
    seq(|es|, i requires 0 <= i < |es| => Frame(es[i]))
  }

  function Export<S>(nd: Node<S>, view: Option<View>): Snapshot<S> {
    Snapshot(nd.store, nd.dedup, nd.log.head, view)
  }

  /** `build_state_transfer_lazy`. */
  function Build<S>(nd: Node<S>, have: nat, view: Option<View>): Transfer<S> {
    if have > 0 && LowWater(nd.log) <= have <= nd.log.head then
      Transfer(NoSnap, Frames(EntriesFrom(nd.log, have)))
    else
      var snap := Export(nd, view);
      Transfer(Snap(snap), Frames(EntriesFrom(nd.log, snap.index)))
  }

  /** Replay tail frames through dedup, stopping at the first undecodable one. */
  function ApplyTail<S>(m: Machine<S>, nd: Node<S>, tail: seq<TailFrame>): Outcome<S> {
    if tail == [] then Outcome(nd, 0, true) else
      var r := ApplyTail(m, nd, tail[..|tail| - 1]);
      var f := tail[|tail| - 1];
      if !r.ok then r
      else if f.BadFrame? then r.(ok := false)
      else
        var (nd', reply) := Deliver(m, r.node, f.e.op);
        Outcome(nd', r.applied + (if reply.Some? then 1 else 0), true)
  }

  function Import<S>(nd: Node<S>, s: Snapshot<S>): Node<S> {
    Node(s.store, s.dedup, ResumedAt(s.index, nd.log.cap))
  }

  function ApplyTransfer<S>(m: Machine<S>, nd: Node<S>, x: Transfer<S>): Outcome<S> {
    match x.snap
    case NoSnap => ApplyTail(m, nd, x.tail)
    case Snap(s) => ApplyTail(m, Import(nd, s), x.tail)
    case _ => Outcome(nd, 0, false)
  }

  // ---------- what a transfer built from a survivor contains ----------

  /** `frames` are the operations `hist[from..]`, in order. */
  ghost predicate TailOf(frames: seq<TailFrame>, hist: seq<WriteOp>, from: nat) {
    && from + |frames| <= |hist|
    && forall i :: 0 <= i < |frames| ==> frames[i] == Frame(Entry(from + i, hist[from + i]))
  }

  /** `s` is the state after exactly the first `s.index` operations of `hist`. */
  ghost predicate SnapshotOf<S>(m: Machine<S>, s: Snapshot<S>, hist: seq<WriteOp>) {
    && s.index <= |hist|
    && s.store == Replay(m, hist[..s.index])
    && Canonical(s.dedup)
    && Applied(s.dedup) == Keys(hist[..s.index])
  }

  /** A transfer that answers `have` truthfully with respect to the order `hist`. */
  ghost predicate Answers<S>(m: Machine<S>, x: Transfer<S>, hist: seq<WriteOp>, have: nat) {
    match x.snap
    case NoSnap => have > 0 && TailOf(x.tail, hist, have)
    case Snap(s) => SnapshotOf(m, s, hist) && x.tail == []
    case _ => false
  }

  /** The choice the survivor makes: incremental exactly inside the retained
      window (and never for 0); a snapshot always comes with an empty tail. */
  lemma BuildShape<S>(m: Machine<S>, nd: Node<S>, hist: seq<WriteOp>, base: nat, have: nat, view: Option<View>)
    requires AtFrom(m, nd, hist, base)
    ensures Build(nd, have, view).snap.Snap? <==>
              have == 0 || have > |hist| || have < |hist| - |nd.log.entries|
    ensures Build(nd, have, view).snap.Snap? ==>
              && Build(nd, have, view).tail == []
              && var s := Build(nd, have, view).snap.s;
                 && s.store == nd.store && s.dedup == nd.dedup && s.index == |hist| && s.view == view
                 && s == Export(nd, view)
    ensures !Build(nd, have, view).snap.Snap? ==>
              Build(nd, have, view) == Transfer(NoSnap, Frames(Slice(hist, have)))
  {
    LowWaterOf(nd.log, hist, base);
    EntriesFromIsSuffix(nd.log, hist, base, have);
    EntriesFromIsSuffix(nd.log, hist, base, |hist|);
    assert Frames([]) == [];
    if have == |hist| {
      assert Slice(hist, have) == [];
    }
  }

  lemma BuildAnswers<S>(m: Machine<S>, nd: Node<S>, hist: seq<WriteOp>, have: nat, view: Option<View>)
    requires At(m, nd, hist)
    ensures Answers(m, Build(nd, have, view), hist, have)
  {
    var base :| AtFrom(m, nd, hist, base);
    BuildShape(m, nd, hist, base, have, view);
    assert hist[..|hist|] == hist;
  }

  /** A truthful answer stays truthful as the order grows. */
  lemma AnswersStable<S>(m: Machine<S>, x: Transfer<S>, hist: seq<WriteOp>, more: seq<WriteOp>, have: nat)
    requires Answers(m, x, hist, have)
    ensures Answers(m, x, hist + more, have)
  {
    if x.snap.Snap? {
      assert (hist + more)[..x.snap.s.index] == hist[..x.snap.s.index];
    }
  }

  // ---------- applying it ----------

  function Max(a: nat, b: nat): nat {
    if a < b then b else a
  }

  /** An order in which every operation occurs once. */
  ghost predicate Distinct(hist: seq<WriteOp>) {
    forall i, j :: 0 <= i < j < |hist| ==> Key(hist[i]) != Key(hist[j])
  }

  lemma PrefixMembership(hist: seq<WriteOp>, h: nat, i: nat)
    requires Distinct(hist) && h <= |hist| && i < |hist|
    ensures Key(hist[i]) in Keys(hist[..h]) <==> i < h
  {
    var p := hist[..h];
    if i < h {
      assert p[i] == hist[i];
    } else {
      assert forall j :: 0 <= j < |p| ==> p[j] == hist[j];
    }
  }

  /** Delivering operation `i` of the order to a node at a position not before
      `i`: absorbed when already passed, otherwise one step forward. */
  lemma DeliverAtIndex<S>(m: Machine<S>, nd: Node<S>, hist: seq<WriteOp>, h: nat, base: nat, i: nat)
    requires Distinct(hist) && i <= h <= |hist| && i < |hist|
    requires AtFrom(m, nd, hist[..h], base)
    ensures AtFrom(m, Deliver(m, nd, hist[i]).0, hist[..Max(h, i + 1)], base)
    ensures Deliver(m, nd, hist[i]).1 == if i == h then Some(ReplyAt(m, hist, h)) else None
  {
    PrefixMembership(hist, h, i);
    DeliverStep(m, nd, hist[..h], base, hist[i]);
    if i == h {
      assert hist[..h] + [hist[i]] == hist[..i + 1];
      assert hist[..i + 1][..i] == hist[..i];
    }
  }

  /** The same, with what was already passed counted from `h`. */
  lemma FrameAdvances<S>(m: Machine<S>, nd: Node<S>, hist: seq<WriteOp>, h: nat, base: nat, i: nat)
    requires Distinct(hist) && h <= |hist| && i < |hist| && AtFrom(m, nd, hist[..Max(h, i)], base)
    ensures AtFrom(m, Deliver(m, nd, hist[i]).0, hist[..Max(h, i + 1)], base)
    ensures Deliver(m, nd, hist[i]).1.Some? <==> h <= i
  {
    DeliverAtIndex(m, nd, hist, Max(h, i), base, i);
    assert Max(Max(h, i), i + 1) == Max(h, i + 1);
  }

  /** A peer at position `h` that replays any part of `hist[from..]` with
      `from <= h` ends at the further of the two positions: overlapping frames
      are absorbed, missing ones are applied in order. */
  lemma {:induction false} TailAdvances<S>(m: Machine<S>, nd: Node<S>, hist: seq<WriteOp>, h: nat, base: nat, tail: seq<TailFrame>, from: nat)
    requires Distinct(hist) && h <= |hist| && AtFrom(m, nd, hist[..h], base)
    requires from <= h && TailOf(tail, hist, from)
    ensures ApplyTail(m, nd, tail).ok
    ensures AtFrom(m, ApplyTail(m, nd, tail).node, hist[..Max(h, from + |tail|)], base)
    ensures ApplyTail(m, nd, tail).applied == Max(h, from + |tail|) - h
  {
    if tail == [] {
    } else {
      var k := |tail| - 1;
      TailAdvances(m, nd, hist, h, base, tail[..k], from);
      assert tail[k] == Frame(Entry(from + k, hist[from + k]));
      FrameAdvances(m, ApplyTail(m, nd, tail[..k]).node, hist, h, base, from + k);
    }
  }

  /** The frames up to the first undecodable one are the ones applied. */
  lemma {:induction false} TailStopsAtBadFrame<S>(m: Machine<S>, nd: Node<S>, tail: seq<TailFrame>, k: nat)
    requires k < |tail| && tail[k].BadFrame?
    requires forall i :: 0 <= i < k ==> tail[i].Frame?
    ensures ApplyTail(m, nd, tail) == ApplyTail(m, nd, tail[..k]).(ok := false)
  {
    var before := tail[..|tail| - 1];
    if k < |tail| - 1 {
      TailStopsAtBadFrame(m, nd, before, k);
      assert before[..k] == tail[..k];
    } else {
      GoodTailIsOk(m, nd, before);
      assert tail[..k] == before;
    }
  }

  lemma {:induction false} GoodTailIsOk<S>(m: Machine<S>, nd: Node<S>, tail: seq<TailFrame>)
    requires forall i :: 0 <= i < |tail| ==> tail[i].Frame?
    ensures ApplyTail(m, nd, tail).ok
  {
    if tail != [] {
      GoodTailIsOk(m, nd, tail[..|tail| - 1]);
    }
  }

  /** `y` is `x` damaged in transit: some part no longer decodes. */
  ghost predicate Damaged<S>(x: Transfer<S>, y: Transfer<S>) {
    && (y.snap == x.snap || (x.snap.Snap? && (y.snap.BadSnap? || y.snap.BadStore?)))
    && |y.tail| == |x.tail|
    && forall i :: 0 <= i < |y.tail| ==> y.tail[i] == x.tail[i] || y.tail[i].BadFrame?
  }

  /** The state of a rejoiner within a catch-up round that asked for `have`:
      either it has never been synchronised (any store at all, nothing applied,
      and it asked for 0), or it is at some position not behind `have`. */
  ghost predicate RejoinerOk<S>(m: Machine<S>, nd: Node<S>, synced: bool, have: nat, hist: seq<WriteOp>) {
    && 1 <= nd.log.cap
    && (!synced ==> have == 0 && nd.log.head == 0)
    && (synced ==> have <= nd.log.head <= |hist| && At(m, nd, hist[..nd.log.head]))
  }

  /** Whatever arrives in answer to `have` — intact or damaged at any frame,
      from a survivor ahead, behind or overlapping — the rejoiner stays in a
      prefix state, and an intact answer synchronises it. */
  lemma TransferKeepsRejoiner<S>(m: Machine<S>, nd: Node<S>, synced: bool, have: nat, hist: seq<WriteOp>, x: Transfer<S>, y: Transfer<S>)
    requires Distinct(hist) && RejoinerOk(m, nd, synced, have, hist)
    requires Answers(m, x, hist, have) && Damaged(x, y)
    ensures ApplyTransfer(m, nd, y).ok <==> y == x
    ensures ApplyTransfer(m, nd, y).ok ==>
              RejoinerOk(m, ApplyTransfer(m, nd, y).node, true, 0, hist)
    ensures !ApplyTransfer(m, nd, y).ok ==>
              RejoinerOk(m, ApplyTransfer(m, nd, y).node, synced, have, hist)
    ensures x.snap.Snap? && y == x ==> ApplyTransfer(m, nd, y).node.log.head == x.snap.s.index
    ensures x.snap.NoSnap? ==>
              nd.log.head <= ApplyTransfer(m, nd, y).node.log.head
  {
    var r := ApplyTransfer(m, nd, y);
    if x.snap.Snap? {
      if y.snap.Snap? {
        ImportIsAt(m, nd, x.snap.s, hist);
      }
    } else {
      assert synced;
      var h := nd.log.head;
      var base :| AtFrom(m, nd, hist[..h], base);
      var k := FirstBad(y.tail);
      assert TailOf(y.tail[..k], hist, have);
      TailAdvances(m, nd, hist, h, base, y.tail[..k], have);
      if k < |y.tail| {
        TailStopsAtBadFrame(m, nd, y.tail, k);
      } else {
        assert y.tail[..k] == y.tail;
        assert y.tail == x.tail;
      }
      assert r.node == ApplyTail(m, nd, y.tail[..k]).node;
    }
  }

  lemma ImportIsAt<S>(m: Machine<S>, nd: Node<S>, s: Snapshot<S>, hist: seq<WriteOp>)
    requires SnapshotOf(m, s, hist)
    ensures AtFrom(m, Import(nd, s), hist[..s.index], s.index)
  {
    ResumedTracks(hist[..s.index], nd.log.cap);
  }

  /** When an answer takes a synchronised rejoiner back: it holds a state of the order
      already, yet a survivor that is behind it answers with an older snapshot, and
      the transfer succeeds. For the first survivor of a round, who is asked with the
      rejoiner's own position, this is exactly a survivor behind that position. */
  lemma AnswerMovesBackIff<S>(m: Machine<S>, survivor: Node<S>, peer: Node<S>, hist: seq<WriteOp>, have: nat, view: Option<View>)
    requires Distinct(hist) && RejoinerOk(m, peer, true, have, hist)
    requires survivor.log.head <= |hist| && At(m, survivor, hist[..survivor.log.head])
    ensures var h, s := peer.log.head, survivor.log.head;
            var r := ApplyTransfer(m, peer, Build(survivor, have, view));
            && r.ok
            && (r.node.log.head < h <==> s < h && (have == 0 || have < LowWater(survivor.log) || s < have))
            && (have == h ==> (r.node.log.head < h <==> s < have))
  {
    var h, s := peer.log.head, survivor.log.head;
    var x := Build(survivor, have, view);
    var base :| AtFrom(m, survivor, hist[..s], base);
    BuildShape(m, survivor, hist[..s], base, have, view);
    LowWaterOf(survivor.log, hist[..s], base);
    BuildAnswers(m, survivor, hist[..s], have, view);
    AnswersStable(m, x, hist[..s], hist[s..], have);
    assert hist[..s] + hist[s..] == hist;
    TransferKeepsRejoiner(m, peer, true, have, hist, x, x);
  }

  function FirstBad(tail: seq<TailFrame>): (k: nat)
    ensures k <= |tail| && (k < |tail| ==> tail[k].BadFrame?)
    ensures forall i :: 0 <= i < k ==> tail[i].Frame?
  {
    if tail == [] then 0 else
      var k := FirstBad(tail[..|tail| - 1]);
      if k < |tail| - 1 then k
      else if tail[|tail| - 1].BadFrame? then |tail| - 1 else |tail|
  }

  // ---------- what a transfer does, said directly ----------

  /** A tail as a stream, frames that do not decode being skipped. */
  function AsStream(tail: seq<TailFrame>): seq<Payload> {
    seq(|tail|, i requires 0 <= i < |tail| => if tail[i].Frame? then Op(tail[i].e.op) else Garbage)
  }

  /** Everything in the transfer decodes. */
  predicate Decodes<S>(x: Transfer<S>) {
    && !x.snap.BadSnap? && !x.snap.BadStore?
    && forall i :: 0 <= i < |x.tail| ==> x.tail[i].Frame?
  }

  lemma {:induction false} GoodTailDelivers<S>(m: Machine<S>, nd: Node<S>, tail: seq<TailFrame>)
    requires forall i :: 0 <= i < |tail| ==> tail[i].Frame?
    ensures ApplyTail(m, nd, tail).ok && ApplyTail(m, nd, tail).node == DeliverAll(m, nd, AsStream(tail))
  {
    if tail != [] {
      var before := tail[..|tail| - 1];
      GoodTailDelivers(m, nd, before);
      assert AsStream(tail)[..|tail| - 1] == AsStream(before);
    }
  }

  /** A snapshot that decodes replaces store and dedup state and restarts the log at its
      index; one that does not stops everything. Then the frames of the tail are
      delivered up to the first that does not decode. The transfer counts as applied
      exactly if all of it decodes. */
  lemma TransferMeans<S>(m: Machine<S>, nd: Node<S>, x: Transfer<S>)
    ensures var r := ApplyTransfer(m, nd, x);
            var part := x.tail[..FirstBad(x.tail)];
            && (r.ok <==> Decodes(x))
            && (x.snap.NoSnap? ==> r.node == DeliverAll(m, nd, AsStream(part)))
            && (x.snap.Snap? ==>
                  var s := x.snap.s;
                  r.node == DeliverAll(m, Node(s.store, s.dedup, Log([], s.index, Max1(nd.log.cap))), AsStream(part)))
            && (x.snap.BadSnap? || x.snap.BadStore? ==> r.node == nd)
  {
    var k := FirstBad(x.tail);
    if x.snap.NoSnap? || x.snap.Snap? {
      var start := if x.snap.Snap? then Import(nd, x.snap.s) else nd;
      GoodTailDelivers(m, start, x.tail[..k]);
      if k < |x.tail| {
        TailStopsAtBadFrame(m, start, x.tail, k);
      } else {
        assert x.tail[..k] == x.tail;
      }
    }
  }

  lemma TailTwice<S>(m: Machine<S>, peer: Node<S>, hist: seq<WriteOp>, have: nat, base: nat, tail: seq<TailFrame>)
    requires Distinct(hist) && have <= |hist| && AtFrom(m, peer, hist[..have], base)
    requires TailOf(tail, hist, have) && have + |tail| == |hist|
    ensures ApplyTail(m, peer, tail).ok && At(m, ApplyTail(m, peer, tail).node, hist)
    ensures ApplyTail(m, peer, tail).applied == |tail|
    ensures ApplyTail(m, ApplyTail(m, peer, tail).node, tail) == Outcome(ApplyTail(m, peer, tail).node, 0, true)
  {
    assert hist[..|hist|] == hist;
    TailAdvances(m, peer, hist, have, base, tail, have);
    var nd := ApplyTail(m, peer, tail).node;
    TailAdvances(m, nd, hist, |hist|, base, tail, have);
    TailKeepsCap(m, nd, tail);
    HistoryDeterminesNode(m, nd, ApplyTail(m, nd, tail).node, hist, base);
  }

  /** What a completed exchange means: the survivor's position and state. */
  ghost predicate Caught<S>(m: Machine<S>, survivor: Node<S>, r: Outcome<S>, hist: seq<WriteOp>) {
    && r.ok
    && At(m, r.node, hist)
    && r.node.store == survivor.store
    && r.node.dedup == survivor.dedup
    && r.node.log.head == survivor.log.head
  }

  /** The complete exchange: a peer at `have` (or any peer when the answer is a
      snapshot) ends with the survivor's store, dedup and head, and applying the
      tail a second time applies nothing. */
  lemma TransferCatchesUp<S>(m: Machine<S>, survivor: Node<S>, peer: Node<S>, hist: seq<WriteOp>, have: nat, view: Option<View>)
    requires Distinct(hist) && At(m, survivor, hist)
    requires 0 < have <= |hist| ==> At(m, peer, hist[..have])
    ensures var x := Build(survivor, have, view);
            var r := ApplyTransfer(m, peer, x);
            && Caught(m, survivor, r, hist)
            && (x.snap.NoSnap? ==> r.applied == survivor.log.head - have)
            && ApplyTail(m, r.node, x.tail) == Outcome(r.node, 0, true)
  {
    var base :| AtFrom(m, survivor, hist, base);
    var x := Build(survivor, have, view);
    BuildShape(m, survivor, hist, base, have, view);
    if x.snap.Snap? {
      CaughtBySnapshot(m, survivor, peer, hist, x.snap.s);
    } else {
      CaughtByTail(m, survivor, peer, hist, have, x.tail);
    }
  }

  lemma CaughtBySnapshot<S>(m: Machine<S>, survivor: Node<S>, peer: Node<S>, hist: seq<WriteOp>, s: Snapshot<S>)
    requires At(m, survivor, hist) && s == Export(survivor, s.view)
    ensures Caught(m, survivor, Outcome(Import(peer, s), 0, true), hist)
  {
    assert hist[..|hist|] == hist;
    ImportIsAt(m, peer, s, hist);
    assert AtFrom(m, Import(peer, s), hist, |hist|);
  }

  lemma CaughtByTail<S>(m: Machine<S>, survivor: Node<S>, peer: Node<S>, hist: seq<WriteOp>, have: nat, tail: seq<TailFrame>)
    requires Distinct(hist) && At(m, survivor, hist) && have <= |hist| && At(m, peer, hist[..have])
    requires TailOf(tail, hist, have) && have + |tail| == |hist|
    ensures Caught(m, survivor, ApplyTail(m, peer, tail), hist)
    ensures ApplyTail(m, peer, tail).applied == |tail|
    ensures ApplyTail(m, ApplyTail(m, peer, tail).node, tail) == Outcome(ApplyTail(m, peer, tail).node, 0, true)
  {
    var b :| AtFrom(m, peer, hist[..have], b);
    TailTwice(m, peer, hist, have, b, tail);
    SameHistorySameState(m, ApplyTail(m, peer, tail).node, survivor, hist);
  }

  lemma {:induction false} TailKeepsCap<S>(m: Machine<S>, nd: Node<S>, tail: seq<TailFrame>)
    ensures ApplyTail(m, nd, tail).node.log.cap == nd.log.cap
  {
    if tail != [] {
      TailKeepsCap(m, nd, tail[..|tail| - 1]);
    }
  }
}
