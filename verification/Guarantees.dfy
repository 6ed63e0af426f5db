/** What clients may rely on in every run whose promotions are covered. */
module Guarantees {
  import opened Wire
  import opened Dedup
  import opened Replication
  import opened Driver
  import opened Cluster
  import opened Safety
  import opened Promotion

  /** Every promotion of the run started from a state that covers everything ever
      broadcast under the promoted node. A run without promotions is one. */
  ghost predicate CoveredPromotions<S(!new)>(m: Machine<S>, c0: Cluster<S>, steps: seq<Step<S>>)
    requires ValidRun(m, c0, steps)
    decreases |steps|
  {
    steps == [] ||
    var k := |steps| - 1;
    && CoveredPromotions(m, c0, steps[..k])
    && (steps[k].Promote? ==> OwnCovered(After(m, c0, steps), steps[k].n))
  }

  // ---------- the invariant ----------

  ghost predicate AllTrusted<S>(c: Cluster<S>) {
    forall n :: IsActive(c, n) ==> Trusted(c, n)
  }

  /** The client was answered for its own write, which its node, if it is active, has
      applied. */
  ghost predicate Honored<S>(c: Cluster<S>, a: Ack) {
    && a.mine == a.answer.op && a.mine in c.sent && a.mine.origin == a.node
    && (IsActive(c, a.node) ==> Key(a.mine) in Applied(c.members[a.node].driver.node.dedup))
  }

  /** No two acknowledgements are for the same broadcast, nor even for the same id. */
  ghost predicate AckedOnce(acks: seq<Ack>) {
    forall i, j :: 0 <= i < j < |acks| ==> Key(acks[i].mine) != Key(acks[j].mine)
  }

  ghost predicate Kept<S>(c: Cluster<S>) {
    AllTrusted(c) && AckedOnce(c.acks) && forall i :: 0 <= i < |c.acks| ==> Honored(c, c.acks[i])
  }

  lemma InitKept<S>(m: Machine<S>, c: Cluster<S>)
    requires Init(m, c)
    ensures Kept(c)
  {
  }

  /** A node that stays active keeps what it has applied. */
  lemma AppliedGrows<S(!new)>(m: Machine<S>, c: Cluster<S>, n: ProcId, s: Step<S>)
    requires Inv(m, c) && Enabled(m, c, s) && IsActive(c, n) && s != Step.Crash(n)
    ensures IsActive(Next(m, c, s), n)
    ensures var node, node' := c.members[n].driver.node, Next(m, c, s).members[n].driver.node;
            node.log.head <= node'.log.head && Applied(node.dedup) <= Applied(node'.dedup)
  {
    assert MemberOk(m, c.order, c.sent, n, c.members[n]);
    if s == DeliverNext(n) {
      var Active(d, cursor) := c.members[n];
      PumpNode(m, d, c.order[cursor]);
      DeliverKeepsPrefix(m, d.node, c.order, cursor);
      if c.order[cursor].Op? {
        FirstSeenIsSetInsert(d.node.dedup, c.order[cursor].op.origin, c.order[cursor].op.requestId);
      }
    } else if s.ClientWrite? {
    } else {
      OtherStepsFrame(m, c, n, s);
    }
  }

  lemma NextAllTrusted<S(!new)>(m: Machine<S>, c: Cluster<S>, s: Step<S>)
    requires Inv(m, c) && AllTrusted(c) && Enabled(m, c, s)
    requires s.Promote? ==> OwnCovered(Next(m, c, s), s.n)
    ensures AllTrusted(Next(m, c, s))
  {
    forall n | IsActive(Next(m, c, s), n) ensures Trusted(Next(m, c, s), n) {
      if IsActive(c, n) {
        assert s != Step.Crash(n);
        TrustedNext(m, c, n, s);
      } else {
        OnlyPromotionActivates(m, c, n, s);
      }
    }
  }

  lemma OnlyPromotionActivates<S(!new)>(m: Machine<S>, c: Cluster<S>, n: ProcId, s: Step<S>)
    requires Enabled(m, c, s) && !IsActive(c, n) && IsActive(Next(m, c, s), n)
    ensures s.Promote? && s.n == n
    ensures Next(m, c, s).members[n].driver == Start(n, Next(m, c, s).members[n].driver.node)
    ensures Next(m, c, s).acks == c.acks && Next(m, c, s).sent == c.sent
  {
  }

  /** Only deliveries acknowledge. */
  lemma OnlyDeliveryAcks<S(!new)>(m: Machine<S>, c: Cluster<S>, s: Step<S>)
    requires Enabled(m, c, s) && !s.DeliverNext?
    ensures Next(m, c, s).acks == c.acks && c.sent <= Next(m, c, s).sent
  {
  }

  /** An acknowledgement kept by one step of the cluster. */
  lemma StillHonored<S(!new)>(m: Machine<S>, c: Cluster<S>, s: Step<S>, a: Ack)
    requires Inv(m, c) && Enabled(m, c, s) && Honored(c, a)
    requires s.Promote? ==> OwnCovered(Next(m, c, s), s.n)
    ensures Honored(Next(m, c, s), a)
  {
    var c' := Next(m, c, s);
    NextExtends(m, c, s);
    if IsActive(c', a.node) {
      if IsActive(c, a.node) {
        assert s != Step.Crash(a.node);
        AppliedGrows(m, c, a.node, s);
      } else {
        OnlyPromotionActivates(m, c, a.node, s);
      }
    }
  }

  /** What a delivery that answers a client tells about the operation. */
  lemma AnsweringDelivery<S>(m: Machine<S>, d: Driver<S>, p: Payload)
    requires Accounted(d) && Canonical(d.node.dedup) && |Pump(m, d, p).answers| != |d.answers|
    ensures p.Op? && p.op.origin == d.id && p.op.requestId < |d.issued|
    ensures Key(p.op) !in Applied(d.node.dedup) && Key(p.op) in Applied(Pump(m, d, p).node.dedup)
    ensures NewAcks(d.id, d, Pump(m, d, p)) ==
            [Ack(d.id, d.issued[p.op.requestId].op, Pump(m, d, p).answers[|d.answers|])]
    ensures Pump(m, d, p).answers[|d.answers|].op == p.op
  {
    FirstSeenIsSetInsert(d.node.dedup, p.op.origin, p.op.requestId);
  }

  lemma NewAckHonored<S(!new)>(m: Machine<S>, c: Cluster<S>, n: ProcId)
    requires Inv(m, c) && Kept(c) && IsActive(c, n) && c.members[n].cursor < |c.order|
    requires var d := c.members[n].driver;
             |Pump(m, d, c.order[c.members[n].cursor]).answers| != |d.answers|
    ensures var c' := DeliverTo(m, c, n);
            && |c'.acks| == |c.acks| + 1 && Honored(c', c'.acks[|c.acks|])
            && forall i :: 0 <= i < |c.acks| ==> Key(c.acks[i].mine) != Key(c'.acks[|c.acks|].mine)
  {
    var Active(d, cursor) := c.members[n];
    var p := c.order[cursor];
    assert MemberOk(m, c.order, c.sent, n, c.members[n]);
    AnsweringDelivery(m, d, p);
    assert p.op in c.sent && Known(c.sent, n, d);
    forall i | 0 <= i < |c.acks| ensures Key(c.acks[i].mine) != Key(p.op) {
      assert Honored(c, c.acks[i]);
    }
  }

  lemma OneMoreAck(acks: seq<Ack>, a: Ack)
    requires AckedOnce(acks) && forall i :: 0 <= i < |acks| ==> Key(acks[i].mine) != Key(a.mine)
    ensures AckedOnce(acks + [a])
  {
  }

  /** A delivery acknowledges at most once: for the client's own write, and under an id
      that was not acknowledged before. */
  lemma DeliveryKept<S(!new)>(m: Machine<S>, c: Cluster<S>, n: ProcId)
    requires Inv(m, c) && Kept(c) && IsActive(c, n) && c.members[n].cursor < |c.order|
    ensures Kept(DeliverTo(m, c, n))
  {
    var d, c' := c.members[n].driver, DeliverTo(m, c, n);
    NextAllTrusted(m, c, DeliverNext(n));
    forall i | 0 <= i < |c.acks| ensures Honored(c', c.acks[i]) {
      StillHonored(m, c, DeliverNext(n), c.acks[i]);
    }
    if |Pump(m, d, c.order[c.members[n].cursor]).answers| != |d.answers| {
      NewAckHonored(m, c, n);
      var a := c'.acks[|c.acks|];
      assert c'.acks == c.acks + [a];
      OneMoreAck(c.acks, a);
    } else {
      assert c'.acks == c.acks;
    }
  }

  lemma NextKept<S(!new)>(m: Machine<S>, c: Cluster<S>, s: Step<S>)
    requires Inv(m, c) && Kept(c) && Enabled(m, c, s)
    requires s.Promote? ==> OwnCovered(Next(m, c, s), s.n)
    ensures Kept(Next(m, c, s))
  {
    if s.DeliverNext? {
      DeliveryKept(m, c, s.n);
    } else {
      NextAllTrusted(m, c, s);
      OnlyDeliveryAcks(m, c, s);
      forall i | 0 <= i < |c.acks| ensures Honored(Next(m, c, s), c.acks[i]) {
        StillHonored(m, c, s, c.acks[i]);
      }
    }
  }

  lemma {:induction false} RunKept<S(!new)>(m: Machine<S>, c0: Cluster<S>, steps: seq<Step<S>>)
    requires Init(m, c0) && ValidRun(m, c0, steps) && CoveredPromotions(m, c0, steps)
    ensures Kept(After(m, c0, steps))
    decreases |steps|
  {
    if steps == [] {
      InitKept(m, c0);
    } else {
      var k := |steps| - 1;
      RunKept(m, c0, steps[..k]);
      RunInv(m, c0, steps[..k]);
      NextKept(m, After(m, c0, steps[..k]), steps[k]);
    }
  }

  // ---------- what clients may rely on ----------

  /** In every run whose promotions are covered, an acknowledged client's own write is
      in the order and its reply is the one its position earned. */
  lemma OwnWriteAcked<S(!new)>(m: Machine<S>, c0: Cluster<S>, steps: seq<Step<S>>, i: nat)
    requires Init(m, c0) && ValidRun(m, c0, steps) && CoveredPromotions(m, c0, steps)
    requires i < |After(m, c0, steps).acks|
    ensures var c := After(m, c0, steps);
            var a := c.acks[i];
            && a.answer.at < |Total(c)|
            && Total(c)[a.answer.at] == a.mine
            && a.answer.reply == ReplyAt(m, Total(c), a.answer.at)
  {
    RunInv(m, c0, steps);
    RunKept(m, c0, steps);
    var c := After(m, c0, steps);
    assert AckOk(m, Total(c), c.sent, c.acks[i]) && Honored(c, c.acks[i]);
  }

  /** In every such run, a write acknowledged before another one is broadcast comes
      before it in the order. */
  lemma RealTimeOrder<S(!new)>(m: Machine<S>, c0: Cluster<S>, steps: seq<Step<S>>, k: nat, i: nat, later: nat)
    requires Init(m, c0) && ValidRun(m, c0, steps) && CoveredPromotions(m, c0, steps) && k <= |steps|
    requires ValidRun(m, c0, steps[..k]) && i < |After(m, c0, steps[..k]).acks|
    requires later < |Total(After(m, c0, steps))|
    requires Total(After(m, c0, steps))[later] !in After(m, c0, steps[..k]).sent
    ensures var a := After(m, c0, steps[..k]).acks[i];
            a.answer.at < later && Total(After(m, c0, steps))[a.answer.at] == a.mine
  {
    AckedBeforeIssuedIsOrderedBefore(m, c0, steps, k, i, later);
    RunExtends(m, c0, steps, k);
    assert After(m, c0, steps).acks[i] == After(m, c0, steps[..k]).acks[i];
    OwnWriteAcked(m, c0, steps, i);
  }

  /** In every such run each broadcast is acknowledged at most once, over all
      incarnations of its node. */
  lemma EachWriteAckedOnce<S(!new)>(m: Machine<S>, c0: Cluster<S>, steps: seq<Step<S>>, i: nat, j: nat)
    requires Init(m, c0) && ValidRun(m, c0, steps) && CoveredPromotions(m, c0, steps)
    requires i < j < |After(m, c0, steps).acks|
    ensures var acks := After(m, c0, steps).acks;
            acks[i].mine != acks[j].mine && acks[i].answer.at != acks[j].answer.at
  {
    RunKept(m, c0, steps);
    OwnWriteAcked(m, c0, steps, i);
    OwnWriteAcked(m, c0, steps, j);
  }

  /** Runs in which no node is promoted after it has written are such runs. */
  lemma {:induction false} NoPromotionAfterWriteIsCovered<S(!new)>(m: Machine<S>, c0: Cluster<S>, steps: seq<Step<S>>)
    requires Init(m, c0) && ValidRun(m, c0, steps) && NoPromotionAfterWrite(steps)
    ensures CoveredPromotions(m, c0, steps)
    decreases |steps|
  {
    if steps != [] {
      var k := |steps| - 1;
      NoPromotionAfterWriteIsCovered(m, c0, steps[..k]);
      if steps[k].Promote? {
        var n := steps[k].n;
        forall op | op in After(m, c0, steps[..k]).sent ensures op.origin != n {
          SentByWrite(m, c0, steps[..k], op);
          var i :| 0 <= i < k && steps[..k][i].ClientWrite? && steps[..k][i].n == op.origin;
          assert steps[i].ClientWrite?;
        }
        assert After(m, c0, steps).sent == After(m, c0, steps[..k]).sent;
      }
    }
  }

  // ---------- reading one's writes ----------

  /** `n` is active and has applied the position `at` of the order. */
  ghost predicate Past<S>(c: Cluster<S>, n: ProcId, at: nat) {
    IsActive(c, n) && at < c.members[n].driver.node.log.head
  }

  lemma AckerIsPast<S(!new)>(m: Machine<S>, c: Cluster<S>, s: Step<S>)
    requires Inv(m, c) && Enabled(m, c, s) && |c.acks| < |Next(m, c, s).acks|
    ensures var a := Next(m, c, s).acks[|c.acks|];
            Past(Next(m, c, s), a.node, a.answer.at)
  {
    if !s.DeliverNext? {
      OnlyDeliveryAcks(m, c, s);
    } else {
      var Active(d, cursor) := c.members[s.n];
      assert MemberOk(m, c.order, c.sent, s.n, c.members[s.n]);
      PumpNode(m, d, c.order[cursor]);
      DeliverKeepsPrefix(m, d.node, c.order, cursor);
    }
  }

  lemma {:induction false} StaysPast<S(!new)>(m: Machine<S>, c0: Cluster<S>, steps: seq<Step<S>>, k: nat, n: ProcId, at: nat)
    requires Init(m, c0) && ValidRun(m, c0, steps) && k <= |steps| && ValidRun(m, c0, steps[..k])
    requires Past(After(m, c0, steps[..k]), n, at)
    requires forall j :: k <= j < |steps| ==> steps[j] != Step.Crash(n)
    ensures Past(After(m, c0, steps), n, at)
    decreases |steps|
  {
    if k == |steps| {
      assert steps[..k] == steps;
    } else {
      var before := steps[..|steps| - 1];
      assert before[..k] == steps[..k];
      StaysPast(m, c0, before, k, n, at);
      RunInv(m, c0, before);
      AppliedGrows(m, After(m, c0, before), n, steps[|steps| - 1]);
    }
  }

  /** While the node that acknowledged a write stays up, its store is the replay of the
      order beyond the operation that the client was answered for. In runs whose
      promotions are covered this is the client's write. */
  lemma ReadYourWrites<S(!new)>(m: Machine<S>, c0: Cluster<S>, steps: seq<Step<S>>, k: nat)
    requires Init(m, c0) && ValidRun(m, c0, steps) && k < |steps|
    requires ValidRun(m, c0, steps[..k]) && ValidRun(m, c0, steps[..k + 1])
    requires |After(m, c0, steps[..k]).acks| < |After(m, c0, steps[..k + 1]).acks|
    requires var n := After(m, c0, steps[..k + 1]).acks[|After(m, c0, steps[..k]).acks|].node;
             forall j :: k < j < |steps| ==> steps[j] != Step.Crash(n)
    ensures var a := After(m, c0, steps[..k + 1]).acks[|After(m, c0, steps[..k]).acks|];
            var c := After(m, c0, steps);
            && Past(c, a.node, a.answer.at)
            && var node := c.members[a.node].driver.node;
               && node.log.head <= |Total(c)| && node.store == Replay(m, Total(c)[..node.log.head])
               && Total(c)[a.answer.at] == a.answer.op
               && (CoveredPromotions(m, c0, steps) ==> a.answer.op == a.mine)
  {
    var i := |After(m, c0, steps[..k]).acks|;
    var a := After(m, c0, steps[..k + 1]).acks[i];
    assert steps[..k + 1][..k] == steps[..k];
    RunInv(m, c0, steps[..k]);
    AckerIsPast(m, After(m, c0, steps[..k]), steps[k]);
    StaysPast(m, c0, steps, k + 1, a.node, a.answer.at);
    RunInv(m, c0, steps);
    RunExtends(m, c0, steps, k + 1);
    var c := After(m, c0, steps);
    assert c.acks[i] == a && AckOk(m, Total(c), c.sent, c.acks[i]);
    CaughtUpIsPrefix(m, c, a.node);
    if CoveredPromotions(m, c0, steps) {
      OwnWriteAcked(m, c0, steps, i);
    }
  }
}
