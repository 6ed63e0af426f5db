/** Exactly when a node may take up the ring's stream, as a promotion does. */
module Resuming {
  import opened Wire
  import opened Dedup
  import opened DeliveredLog
  import opened Replication
  import opened StateTransfer
  import opened Cluster

  /** A ring that skips nothing: what lies before the cursor the node has applied. */
  predicate NoGap(order: seq<Payload>, cursor: nat, h: nat) {
    cursor <= |order| && |Fresh({}, order[..cursor])| <= h <= |Fresh({}, order)|
  }

  /** The node has applied the operations of some prefix of the order. */
  ghost predicate OnTrack<S>(node: Node<S>, total: seq<WriteOp>) {
    exists g :: 0 <= g <= |total| && Applied(node.dedup) == Keys(total[..g])
  }

  /** Every delivery from `cursor` on leaves the node on track. */
  ghost predicate StaysOnTrack<S>(m: Machine<S>, node: Node<S>, order: seq<Payload>, cursor: nat)
    requires cursor <= |order|
  {
    forall j :: cursor <= j <= |order| ==> OnTrack(DeliverAll(m, node, order[cursor..j]), Fresh({}, order))
  }

  /** Every delivery from `cursor` on leaves the node in a prefix state. */
  ghost predicate StaysPrefix<S>(m: Machine<S>, node: Node<S>, order: seq<Payload>, cursor: nat)
    requires cursor <= |order|
  {
    forall j :: cursor <= j <= |order| ==> InPrefix(m, DeliverAll(m, node, order[cursor..j]), Fresh({}, order))
  }

  ghost predicate InPrefix<S>(m: Machine<S>, node: Node<S>, total: seq<WriteOp>) {
    exists g :: 0 <= g <= |total| && At(m, node, total[..g])
  }

  ghost predicate SameKeys(a: seq<WriteOp>, b: seq<WriteOp>) {
    |a| == |b| && forall i :: 0 <= i < |a| ==> Key(a[i]) == Key(b[i])
  }

  /** `Resumable` up to the keys of the operations. */
  ghost predicate ResumableByKeys(order: seq<Payload>, cursor: nat, h: nat) {
    var total := Fresh({}, order);
    cursor <= |order| && h <= |total| && SameKeys(Fresh(Keys(total[..h]), order[cursor..]), total[h..])
  }

  // ---------- keys of parts ----------

  lemma {:induction false} SameKeysSameSet(a: seq<WriteOp>, b: seq<WriteOp>)
    requires SameKeys(a, b)
    ensures Keys(a) == Keys(b)
  {
    if a != [] {
      var n := |a| - 1;
      SameKeysSameSet(a[..n], b[..n]);
      KeysAppend(a[..n], a[n]);
      KeysAppend(b[..n], b[n]);
      assert a == a[..n] + [a[n]] && b == b[..n] + [b[n]];
    }
  }

  // ---------- lists of operations that follow the order ----------

  /** On top of the first `h` operations, `part` makes up some prefix of the order. */
  ghost predicate Fits(total: seq<WriteOp>, h: nat, part: seq<WriteOp>)
    requires h <= |total|
  {
    exists g :: 0 <= g <= |total| && Keys(total[..h]) + Keys(part) == Keys(total[..g])
  }

  ghost predicate PartsFit(total: seq<WriteOp>, h: nat, news: seq<WriteOp>)
    requires h <= |total|
  {
    forall i :: 0 <= i <= |news| ==> Fits(total, h, news[..i])
  }

  /** No operation repeats `known` or an earlier one. */
  ghost predicate AllNew(known: set<OpKey>, news: seq<WriteOp>) {
    forall i :: 0 <= i < |news| ==> Key(news[i]) !in known + Keys(news[..i])
  }

  /** `news` is what follows position `h` in the order, up to keys. */
  ghost predicate Follows(total: seq<WriteOp>, h: nat, news: seq<WriteOp>) {
    h + |news| <= |total| && SameKeys(news, total[h..h + |news|])
  }

  lemma FollowingKeys(total: seq<WriteOp>, h: nat, news: seq<WriteOp>)
    requires Follows(total, h, news)
    ensures Keys(total[..h]) + Keys(news) == Keys(total[..h + |news|])
  {
    SameKeysSameSet(news, total[h..h + |news|]);
    KeysOfConcat(total[..h], total[h..h + |news|]);
    assert total[..h + |news|] == total[..h] + total[h..h + |news|];
  }

  lemma FollowingFits(total: seq<WriteOp>, h: nat, news: seq<WriteOp>)
    requires Follows(total, h, news)
    ensures PartsFit(total, h, news)
  {
    forall i | 0 <= i <= |news| ensures Fits(total, h, news[..i]) {
      FollowingKeys(total, h, news[..i]);
    }
  }

  lemma KeysMonotone(total: seq<WriteOp>, g: nat, h: nat)
    requires g <= h <= |total|
    ensures Keys(total[..g]) <= Keys(total[..h])
  {
    KeysOfConcat(total[..g], total[g..h]);
    assert total[..h] == total[..g] + total[g..h];
  }

  /** If one more key leads from a prefix to a prefix, it is the next one's. */
  lemma NextKey(total: seq<WriteOp>, h: nat, k: OpKey, g: nat)
    requires Distinct(total) && h <= |total| && g <= |total|
    requires k !in Keys(total[..h]) && Keys(total[..h]) + {k} == Keys(total[..g])
    ensures h < |total| && Key(total[h]) == k
  {
    assert k in Keys(total[..g]);
    if g <= h {
      KeysMonotone(total, g, h);
    } else {
      PrefixMembership(total, g, h);
      PrefixMembership(total, h, h);
    }
  }

  lemma OneMoreFollows(total: seq<WriteOp>, h: nat, before: seq<WriteOp>, op: WriteOp)
    requires Distinct(total) && Follows(total, h, before)
    requires Key(op) !in Keys(total[..h]) + Keys(before) && Fits(total, h, before + [op])
    ensures Follows(total, h, before + [op])
  {
    var k := h + |before|;
    assert Keys(total[..k]) == Keys(total[..h]) + Keys(before) by {
      FollowingKeys(total, h, before);
    }
    KeysAppend(before, op);
    var g :| 0 <= g <= |total| && Keys(total[..h]) + Keys(before + [op]) == Keys(total[..g]);
    assert Keys(total[..h]) + (Keys(before) + {Key(op)}) == Keys(total[..h]) + Keys(before) + {Key(op)};
    NextKey(total, k, Key(op), g);
    FollowsOn(total, h, before, op);
  }

  lemma FollowsOn(total: seq<WriteOp>, h: nat, before: seq<WriteOp>, op: WriteOp)
    requires Follows(total, h, before) && h + |before| < |total| && Key(total[h + |before|]) == Key(op)
    ensures Follows(total, h, before + [op])
  {
  }

  lemma {:induction false} FittingFollows(total: seq<WriteOp>, h: nat, news: seq<WriteOp>)
    requires Distinct(total) && h <= |total| && AllNew(Keys(total[..h]), news)
    requires PartsFit(total, h, news)
    ensures Follows(total, h, news)
  {
    if news != [] {
      var n := |news| - 1;
      var before := news[..n];
      assert AllNew(Keys(total[..h]), before) && PartsFit(total, h, before) by {
        assert forall i :: 0 <= i <= n ==> before[..i] == news[..i];
      }
      FittingFollows(total, h, before);
      assert news == before + [news[n]] && news[..n + 1] == news;
      OneMoreFollows(total, h, before, news[n]);
    }
  }

  /** One more operation than the order can follow does not fit, whatever the order
      goes on with, unless the list had reached the end of the order. */
  lemma FollowsToTheEnd(total: seq<WriteOp>, h: nat, news: seq<WriteOp>, last: WriteOp)
    requires Follows(total, h, news) && Follows(total + [last], h, news + [last])
    requires Key(last) !in Keys(total)
    ensures h + |news| == |total|
  {
    var n := |news|;
    assert forall i :: 0 <= i < |total| ==> Key(total[i]) in Keys(total);
    assert Key((news + [last])[n]) == Key((total + [last])[h..h + n + 1][n]);
  }

  // ---------- streams as such lists ----------

  /** The stream passes through every number of new operations. */
  lemma {:induction false} Reaches(known: set<OpKey>, ps: seq<Payload>, i: nat) returns (j: nat)
    requires i <= |Fresh(known, ps)|
    ensures j <= |ps| && Fresh(known, ps[..j]) == Fresh(known, ps)[..i]
  {
    if i == |Fresh(known, ps)| {
      j := |ps|;
      assert ps[..j] == ps;
    } else {
      var before := ps[..|ps| - 1];
      j := Reaches(known, before, i);
      assert before[..j] == ps[..j];
    }
  }

  lemma {:induction false} FreshAllNew(known: set<OpKey>, ps: seq<Payload>)
    ensures AllNew(known, Fresh(known, ps))
  {
    if ps != [] {
      var before := Fresh(known, ps[..|ps| - 1]);
      FreshAllNew(known, ps[..|ps| - 1]);
      forall i | 0 <= i < |Fresh(known, ps)|
        ensures Key(Fresh(known, ps)[i]) !in known + Keys(Fresh(known, ps)[..i])
      {
        assert Fresh(known, ps)[..i] == before[..i];
        assert before[..|before|] == before;
      }
    }
  }

  lemma FitsIsOnTrack<S>(m: Machine<S>, node: Node<S>, total: seq<WriteOp>, h: nat, base: nat, ps: seq<Payload>)
    requires h <= |total| && AtFrom(m, node, total[..h], base)
    ensures OnTrack(DeliverAll(m, node, ps), total) <==> Fits(total, h, Fresh(Keys(total[..h]), ps))
  {
    DeliverAllIsFresh(m, node, total[..h], base, ps);
    KeysOfConcat(total[..h], Fresh(Keys(total[..h]), ps));
  }

  lemma OnTrackFits<S>(m: Machine<S>, node: Node<S>, order: seq<Payload>, cursor: nat, h: nat, base: nat)
    requires cursor <= |order| && h <= |Fresh({}, order)| && AtFrom(m, node, Fresh({}, order)[..h], base)
    requires StaysOnTrack(m, node, order, cursor)
    ensures PartsFit(Fresh({}, order), h, Fresh(Keys(Fresh({}, order)[..h]), order[cursor..]))
  {
    var total, ps := Fresh({}, order), order[cursor..];
    var news := Fresh(Keys(total[..h]), ps);
    forall i | 0 <= i <= |news| ensures Fits(total, h, news[..i]) {
      var j := Reaches(Keys(total[..h]), ps, i);
      assert order[cursor..cursor + j] == ps[..j];
      FitsIsOnTrack(m, node, total, h, base, order[cursor..cursor + j]);
    }
  }

  lemma FitsOnTrack<S>(m: Machine<S>, node: Node<S>, order: seq<Payload>, cursor: nat, h: nat, base: nat)
    requires cursor <= |order| && h <= |Fresh({}, order)| && AtFrom(m, node, Fresh({}, order)[..h], base)
    requires PartsFit(Fresh({}, order), h, Fresh(Keys(Fresh({}, order)[..h]), order[cursor..]))
    ensures StaysOnTrack(m, node, order, cursor)
  {
    var total, ps := Fresh({}, order), order[cursor..];
    var news := Fresh(Keys(total[..h]), ps);
    forall j | cursor <= j <= |order| ensures OnTrack(DeliverAll(m, node, order[cursor..j]), total) {
      assert order[cursor..j] == ps[..j - cursor];
      FreshPrefix(Keys(total[..h]), ps, j - cursor);
      var part := Fresh(Keys(total[..h]), ps[..j - cursor]);
      assert part == news[..|part|];
      FitsIsOnTrack(m, node, total, h, base, order[cursor..j]);
    }
  }

  /** A node stays on track exactly when the new operations of its stream are what
      follows in the order. */
  lemma OnTrackIffFollows<S>(m: Machine<S>, node: Node<S>, order: seq<Payload>, cursor: nat, h: nat, base: nat)
    requires cursor <= |order| && h <= |Fresh({}, order)| && AtFrom(m, node, Fresh({}, order)[..h], base)
    ensures StaysOnTrack(m, node, order, cursor) <==>
            Follows(Fresh({}, order), h, Fresh(Keys(Fresh({}, order)[..h]), order[cursor..]))
  {
    var total := Fresh({}, order);
    var news := Fresh(Keys(total[..h]), order[cursor..]);
    FreshIsDistinct({}, order);
    FreshAllNew(Keys(total[..h]), order[cursor..]);
    if StaysOnTrack(m, node, order, cursor) {
      OnTrackFits(m, node, order, cursor, h, base);
      FittingFollows(total, h, news);
    }
    if Follows(total, h, news) {
      FollowingFits(total, h, news);
      FitsOnTrack(m, node, order, cursor, h, base);
    }
  }

  // ---------- growing orders ----------

  lemma ResumableByKeysGrows(order: seq<Payload>, more: seq<Payload>, cursor: nat, h: nat)
    requires ResumableByKeys(order, cursor, h)
    ensures ResumableByKeys(order + more, cursor, h)
  {
    var total := Fresh({}, order);
    var known := Keys(total[..h]);
    GrownOrder(order, more, h);
    GrownStream(known, order, more, cursor);
    SameKeysSameSet(Fresh(known, order[cursor..]), total[h..]);
    SplitKeys(total, h);
  }

  lemma {:induction false} UnusedId(keys: set<OpKey>) returns (id: nat)
    ensures forall k :: k in keys ==> k.1 < id
  {
    if k :| k in keys {
      id := UnusedId(keys - {k});
      id := if id <= k.1 then k.1 + 1 else id;
    } else {
      id := 0;
    }
  }

  /** A new operation at the end of the order is new to the stream as well. */
  lemma NewAtTheEnd(known: set<OpKey>, order: seq<Payload>, cursor: nat, last: WriteOp)
    requires cursor <= |order|
    requires Key(last) !in known + Keys(Fresh(known, order[cursor..]))
    ensures Fresh(known, (order + [Op(last)])[cursor..]) == Fresh(known, order[cursor..]) + [last]
  {
    GrownStream(known, order, [Op(last)], cursor);
    FreshOne(known + Keys(Fresh(known, order[cursor..])), Op(last));
  }

  /** A stream that brings too little goes wrong at the next new operation. */
  lemma TooLittle(order: seq<Payload>, cursor: nat, h: nat, last: WriteOp)
    requires cursor <= |order| && h <= |Fresh({}, order)| && Key(last) !in Keys(Fresh({}, order))
    requires Follows(Fresh({}, order), h, Fresh(Keys(Fresh({}, order)[..h]), order[cursor..]))
    requires Follows(Fresh({}, order + [Op(last)]), h, Fresh(Keys(Fresh({}, order)[..h]), (order + [Op(last)])[cursor..]))
    ensures ResumableByKeys(order, cursor, h)
  {
    var total := Fresh({}, order);
    var known := Keys(total[..h]);
    var news := Fresh(known, order[cursor..]);
    assert Key(last) !in known + Keys(news) by {
      FollowingKeys(total, h, news);
      KeysMonotone(total, h + |news|, |total|);
      assert total[..|total|] == total;
    }
    NewAtTheEnd(known, order, cursor, last);
    assert Fresh({}, order + [Op(last)]) == total + [last] by {
      FreshAppend({}, order, Op(last));
    }
    FollowsToTheEnd(total, h, news, last);
    assert total[h..h + |news|] == total[h..];
  }

  /** The exact condition, up to keys: however the ring goes on, every delivery
      leaves the node with the operations of a prefix of the order, if and only if
      the stream from its cursor brings the keys that it lacks, in order. */
  lemma OnTrackIffResumable<S>(m: Machine<S>, node: Node<S>, order: seq<Payload>, cursor: nat, h: nat, base: nat)
    requires cursor <= |order| && h <= |Fresh({}, order)| && AtFrom(m, node, Fresh({}, order)[..h], base)
    ensures ResumableByKeys(order, cursor, h) <==> forall more :: StaysOnTrack(m, node, order + more, cursor)
  {
    var total := Fresh({}, order);
    if ResumableByKeys(order, cursor, h) {
      forall more ensures StaysOnTrack(m, node, order + more, cursor) {
        ResumableByKeysGrows(order, more, cursor, h);
        GrownOrder(order, more, h);
        ToTheEndFollows(order + more, cursor, h);
        OnTrackIffFollows(m, node, order + more, cursor, h, base);
      }
    }
    if forall more :: StaysOnTrack(m, node, order + more, cursor) {
      var id := UnusedId(Keys(total));
      var last := WriteOp(0, id, [], None);
      assert StaysOnTrack(m, node, order + [], cursor) && order + [] == order;
      assert StaysOnTrack(m, node, order + [Op(last)], cursor);
      GrownOrder(order, [Op(last)], h);
      OnTrackIffFollows(m, node, order, cursor, h, base);
      OnTrackIffFollows(m, node, order + [Op(last)], cursor, h, base);
      TooLittle(order, cursor, h, last);
    }
  }

  lemma ToTheEndFollows(order: seq<Payload>, cursor: nat, h: nat)
    requires ResumableByKeys(order, cursor, h)
    ensures Follows(Fresh({}, order), h, Fresh(Keys(Fresh({}, order)[..h]), order[cursor..]))
  {
    var total := Fresh({}, order);
    assert total[h..|total|] == total[h..];
  }

  // ---------- the operations themselves ----------

  /** A log that holds something says which operation was applied last. */
  lemma LastLogged(l: Log, hist: seq<WriteOp>, base: nat, other: seq<WriteOp>, otherBase: nat)
    requires Tracks(l, hist, base) && Tracks(l, other, otherBase) && base < |hist|
    ensures |other| == |hist| && other[|hist| - 1] == hist[|hist| - 1]
  {
    var last := l.entries[|l.entries| - 1];
    assert last == Slice(hist, |hist| - |l.entries|)[|l.entries| - 1];
    assert last == Slice(other, |other| - |l.entries|)[|l.entries| - 1];
  }

  /** In a prefix state, the operation applied last is the one of its position. */
  lemma LastIsNext<S>(m: Machine<S>, node: Node<S>, hist: seq<WriteOp>, base: nat, ps: seq<Payload>, total: seq<WriteOp>)
    requires AtFrom(m, node, hist, base) && Fresh(Keys(hist), ps) != []
    requires InPrefix(m, DeliverAll(m, node, ps), total)
    ensures var news := Fresh(Keys(hist), ps);
            |hist + news| <= |total| && total[|hist + news| - 1] == news[|news| - 1]
  {
    var now, node' := hist + Fresh(Keys(hist), ps), DeliverAll(m, node, ps);
    DeliverAllIsFresh(m, node, hist, base, ps);
    var g :| 0 <= g <= |total| && At(m, node', total[..g]);
    var b :| AtFrom(m, node', total[..g], b);
    LastLogged(node'.log, now, base, total[..g], b);
  }

  /** A node that stays in prefix states applies the very operations that follow. */
  lemma PrefixBringsOps<S>(m: Machine<S>, node: Node<S>, order: seq<Payload>, cursor: nat, h: nat, base: nat, i: nat)
    requires ResumableByKeys(order, cursor, h) && AtFrom(m, node, Fresh({}, order)[..h], base)
    requires StaysPrefix(m, node, order, cursor) && h + i < |Fresh({}, order)|
    ensures Fresh(Keys(Fresh({}, order)[..h]), order[cursor..])[i] == Fresh({}, order)[h + i]
  {
    var total := Fresh({}, order);
    var j := Reaches(Keys(total[..h]), order[cursor..], i + 1);
    var part := order[cursor..cursor + j];
    assert part == order[cursor..][..j];
    assert InPrefix(m, DeliverAll(m, node, part), total);
    LastIsNext(m, node, total[..h], base, part, total);
  }

  lemma PrefixIsResumable<S>(m: Machine<S>, node: Node<S>, order: seq<Payload>, cursor: nat, h: nat, base: nat)
    requires ResumableByKeys(order, cursor, h) && AtFrom(m, node, Fresh({}, order)[..h], base)
    requires StaysPrefix(m, node, order, cursor)
    ensures Resumable(order, cursor, h)
  {
    var total := Fresh({}, order);
    var news := Fresh(Keys(total[..h]), order[cursor..]);
    forall i | 0 <= i < |news| ensures news[i] == total[h..][i] {
      PrefixBringsOps(m, node, order, cursor, h, base, i);
    }
  }

  lemma ResumableStaysPrefix<S>(m: Machine<S>, node: Node<S>, order: seq<Payload>, cursor: nat, h: nat, base: nat)
    requires Resumable(order, cursor, h) && AtFrom(m, node, Fresh({}, order)[..h], base)
    ensures StaysPrefix(m, node, order, cursor)
  {
    var total, ps := Fresh({}, order), order[cursor..];
    var known := Keys(total[..h]);
    forall j | cursor <= j <= |order| ensures InPrefix(m, DeliverAll(m, node, order[cursor..j]), total) {
      assert order[cursor..j] == ps[..j - cursor];
      FreshPrefix(known, ps, j - cursor);
      PartInPrefix(m, node, total, h, base, ps[..j - cursor]);
    }
  }

  lemma PartInPrefix<S>(m: Machine<S>, node: Node<S>, total: seq<WriteOp>, h: nat, base: nat, ps: seq<Payload>)
    requires h <= |total| && AtFrom(m, node, total[..h], base) && Fresh(Keys(total[..h]), ps) <= total[h..]
    ensures InPrefix(m, DeliverAll(m, node, ps), total)
  {
    var part := Fresh(Keys(total[..h]), ps);
    DeliverAllIsFresh(m, node, total[..h], base, ps);
    assert total[..h] + part == total[..h + |part|];
    assert AtFrom(m, DeliverAll(m, node, ps), total[..h + |part|], base);
  }

  /** A resumable stream takes the node to the end of the order. */
  lemma ResumableReachesEnd<S>(m: Machine<S>, node: Node<S>, order: seq<Payload>, cursor: nat, h: nat, base: nat)
    requires Resumable(order, cursor, h) && AtFrom(m, node, Fresh({}, order)[..h], base)
    ensures AtFrom(m, DeliverAll(m, node, order[cursor..]), Fresh({}, order), base)
  {
    var total := Fresh({}, order);
    DeliverAllIsFresh(m, node, total[..h], base, order[cursor..]);
    assert total[..h] + total[h..] == total;
  }

  /** The exact condition: however the ring goes on, every delivery leaves the node
      in a prefix state of the one order, if and only if the stream from its cursor
      can be resumed. */
  lemma PrefixKeptIffResumable<S>(m: Machine<S>, node: Node<S>, order: seq<Payload>, cursor: nat, h: nat, base: nat)
    requires cursor <= |order| && h <= |Fresh({}, order)| && AtFrom(m, node, Fresh({}, order)[..h], base)
    ensures Resumable(order, cursor, h) <==> forall more :: StaysPrefix(m, node, order + more, cursor)
  {
    if Resumable(order, cursor, h) {
      forall more ensures StaysPrefix(m, node, order + more, cursor) {
        ResumableGrows(order, more, cursor, h);
        GrownOrder(order, more, h);
        ResumableStaysPrefix(m, node, order + more, cursor, h, base);
      }
    }
    if forall more :: StaysPrefix(m, node, order + more, cursor) {
      forall more ensures StaysOnTrack(m, node, order + more, cursor) {
        assert StaysPrefix(m, node, order + more, cursor);
        PrefixIsOnTrack(m, node, order + more, cursor);
      }
      OnTrackIffResumable(m, node, order, cursor, h, base);
      assert StaysPrefix(m, node, order + [], cursor) && order + [] == order;
      PrefixIsResumable(m, node, order, cursor, h, base);
    }
  }

  lemma PrefixIsOnTrack<S>(m: Machine<S>, node: Node<S>, order: seq<Payload>, cursor: nat)
    requires cursor <= |order| && StaysPrefix(m, node, order, cursor)
    ensures StaysOnTrack(m, node, order, cursor)
  {
    forall j | cursor <= j <= |order| ensures OnTrack(DeliverAll(m, node, order[cursor..j]), Fresh({}, order)) {
      assert InPrefix(m, DeliverAll(m, node, order[cursor..j]), Fresh({}, order));
    }
  }

  // ---------- rings that skip nothing, and single deliveries ----------

  lemma FrontKnown(known: set<OpKey>, a: seq<Payload>, b: seq<Payload>)
    requires Keys(Fresh({}, a)) <= known
    ensures Fresh(known, a) == []
    ensures Fresh(known, a + b) == Fresh(known, b)
  {
    FreshCoversSeen({}, a);
    KnownIsOld(known, a);
    FreshConcat(known, a, b);
    assert Keys([]) == {} && known + {} == known;
  }

  lemma {:induction false} KnownIsOld(known: set<OpKey>, a: seq<Payload>)
    requires Seen(a) <= known
    ensures Fresh(known, a) == []
  {
    if a != [] {
      SeenAppend(a[..|a| - 1], a[|a| - 1]);
      assert a == a[..|a| - 1] + [a[|a| - 1]];
      KnownIsOld(known, a[..|a| - 1]);
    }
  }

  /** A ring that skips nothing can be resumed. */
  lemma NoGapIsResumable(order: seq<Payload>, cursor: nat, h: nat)
    requires NoGap(order, cursor, h)
    ensures Resumable(order, cursor, h)
  {
    var total, front := Fresh({}, order), Fresh({}, order[..cursor]);
    var known := Keys(total[..h]);
    FreshPrefix({}, order, cursor);
    KeysOfConcat(front, total[|front|..h]);
    assert total[..h] == front + total[|front|..h];
    assert order == order[..cursor] + order[cursor..];
    FrontKnown(known, order[..cursor], order[cursor..]);
    PassedPart(order, h);
  }

  lemma TwoOps(a: WriteOp, b: WriteOp)
    requires Key(a) != Key(b)
    ensures Fresh({}, [Op(a), Op(b)]) == [a, b]
  {
    FreshHead({}, Op(a), [Op(b)]);
    FreshOne({} + {Key(a)}, Op(b));
    assert [Op(a), Op(b)] == [Op(a)] + [Op(b)];
  }

  lemma Twice(ps: seq<Payload>)
    ensures Fresh({}, ps + ps) == Fresh({}, ps)
  {
    FreshConcat({}, ps, ps);
    assert {} + Keys(Fresh({}, ps)) == Keys(Fresh({}, ps));
    FrontKnown(Keys(Fresh({}, ps)), ps, []);
  }

  /** And so can one that skipped operations but delivers them again in order. */
  lemma RedeliveredGapIsResumable(a: WriteOp, b: WriteOp)
    requires Key(a) != Key(b)
    ensures var order := [Op(a), Op(b), Op(a), Op(b)];
            Resumable(order, 2, 0) && !NoGap(order, 2, 0)
  {
    var twice := [Op(a), Op(b)];
    var order := [Op(a), Op(b), Op(a), Op(b)];
    TwoOps(a, b);
    Twice(twice);
    assert order == twice + twice && order[..2] == twice && order[2..] == twice;
    assert Keys([a, b][..0]) == {};
  }

  /** Read from the start, a stream brings a node at `h` what it lacks. */
  lemma {:induction false} PassedPart(order: seq<Payload>, h: nat)
    requires h <= |Fresh({}, order)|
    ensures Fresh(Keys(Fresh({}, order)[..h]), order) == Fresh({}, order)[h..]
  {
    var total := Fresh({}, order);
    if order != [] {
      var before, p := order[..|order| - 1], order[|order| - 1];
      var was := Fresh({}, before);
      if h <= |was| {
        PassedPart(before, h);
        assert total[..h] == was[..h];
        SplitKeys(was, h);
      } else {
        assert total[..h] == total && order[..|order|] == order;
        FrontKnown(Keys(total), order, []);
      }
    }
  }

  /** One delivery: the operation at position `i` of the order leaves a node at
      position `h` in some prefix state if and only if `i` is not beyond `h`. */
  lemma PrefixKeptIffNotAhead<S>(m: Machine<S>, node: Node<S>, total: seq<WriteOp>, h: nat, i: nat)
    requires Distinct(total) && h <= |total| && i < |total| && At(m, node, total[..h])
    ensures i <= h <==> exists g :: 0 <= g <= |total| && At(m, Deliver(m, node, total[i]).0, total[..g])
  {
    var base :| AtFrom(m, node, total[..h], base);
    var node' := Deliver(m, node, total[i]).0;
    if i <= h {
      DeliverAtIndex(m, node, total, h, base, i);
      assert At(m, node', total[..Max(h, i + 1)]);
    } else {
      PrefixMembership(total, h, i);
      DeliverStep(m, node, total[..h], base, total[i]);
      KeysAppend(total[..h], total[i]);
      PrefixMembership(total, h, h);
      PrefixMembership(total, h + 1, h);
      forall g | 0 <= g <= |total| ensures !At(m, node', total[..g]) {
        assert node'.log.head == h + 1;
        assert Key(total[h]) !in Applied(node'.dedup);
      }
    }
  }
}
