/** What a promoted node can promise its clients, although its ids restart at 0: the
    exact condition for its answers to be right, and for every client to be served. */
module Promotion {
  import opened Wire
  import opened Dedup
  import opened Replication
  import opened Driver
  import opened Cluster
  import opened Safety

  /** Everything ever broadcast under `n` is in the inherited dedup state. */
  ghost predicate OwnCovered<S>(c: Cluster<S>, n: ProcId)
    requires IsActive(c, n)
  {
    forall op :: op in c.sent && op.origin == n ==> Key(op) in Applied(c.members[n].driver.node.dedup)
  }

  /** Every answer of this incarnation was for the write that its client issued. */
  ghost predicate RightAnswers<S>(d: Driver<S>) {
    forall i :: 0 <= i < |d.answers| ==>
      d.answers[i].requestId < |d.issued| && d.answers[i].op == d.issued[d.answers[i].requestId].op
  }

  // ---------- covered: every answer is right ----------

  /** What is broadcast under `n` is applied already or was issued by this incarnation. */
  ghost predicate Known<S>(sent: set<WriteOp>, n: ProcId, d: Driver<S>) {
    forall op :: op in sent && op.origin == n && Key(op) !in Applied(d.node.dedup) ==>
      op.requestId < |d.issued| && d.issued[op.requestId].op == op
  }

  ghost predicate Trusted<S>(c: Cluster<S>, n: ProcId) {
    IsActive(c, n) && Known(c.sent, n, c.members[n].driver) && RightAnswers(c.members[n].driver)
  }

  /** Delivering something that was broadcast answers only for known writes. */
  lemma KnownDelivery<S>(m: Machine<S>, sent: set<WriteOp>, d: Driver<S>, op: WriteOp)
    requires Canonical(d.node.dedup) && Known(sent, d.id, d) && RightAnswers(d) && op in sent
    ensures var d' := Pump(m, d, Op(op));
            d'.issued == d.issued && RightAnswers(d') && Applied(d.node.dedup) <= Applied(d'.node.dedup)
  {
    FirstSeenIsSetInsert(d.node.dedup, op.origin, op.requestId);
  }

  lemma TrustedDelivery<S>(m: Machine<S>, c: Cluster<S>, n: ProcId)
    requires Inv(m, c) && Trusted(c, n) && c.members[n].cursor < |c.order|
    ensures Trusted(DeliverTo(m, c, n), n)
  {
    assert MemberOk(m, c.order, c.sent, n, c.members[n]);
    var Active(d, cursor) := c.members[n];
    if c.order[cursor].Op? {
      KnownDelivery(m, c.sent, d, c.order[cursor].op);
    }
  }

  lemma TrustedWrite<S>(m: Machine<S>, c: Cluster<S>, n: ProcId, k: ProcId, client: nat, argv: seq<Bytes>, clientReply: Option<Reply>)
    requires Inv(m, c) && Trusted(c, n) && IsActive(c, k)
    ensures Trusted(WriteAt(c, k, client, argv, clientReply), n)
  {
    assert MemberOk(m, c.order, c.sent, n, c.members[n]);
    assert MemberOk(m, c.order, c.sent, k, c.members[k]);
  }

  /** The other steps leave an active node and the set of broadcasts alone. */
  lemma OtherStepsFrame<S(!new)>(m: Machine<S>, c: Cluster<S>, n: ProcId, s: Step<S>)
    requires IsActive(c, n) && Enabled(m, c, s)
    requires !s.ClientWrite? && s != Step.Crash(n) && s != DeliverNext(n)
    ensures Next(m, c, s).sent == c.sent && IsActive(Next(m, c, s), n)
    ensures Next(m, c, s).members[n] == c.members[n]
  {
    match s
    case Order(p) =>
    case _ =>
  }

  lemma TrustedNext<S(!new)>(m: Machine<S>, c: Cluster<S>, n: ProcId, s: Step<S>)
    requires Inv(m, c) && Trusted(c, n) && Enabled(m, c, s) && s != Step.Crash(n)
    ensures Trusted(Next(m, c, s), n)
  {
    if s.ClientWrite? {
      TrustedWrite(m, c, n, s.n, s.client, s.argv, s.clientReply);
    } else if s == DeliverNext(n) {
      TrustedDelivery(m, c, n);
    } else {
      OtherStepsFrame(m, c, n, s);
    }
  }

  lemma {:induction false} TrustedRun<S(!new)>(m: Machine<S>, c: Cluster<S>, n: ProcId, steps: seq<Step<S>>)
    requires Inv(m, c) && Trusted(c, n) && ValidRun(m, c, steps) && Step.Crash(n) !in steps
    ensures Inv(m, After(m, c, steps)) && Trusted(After(m, c, steps), n)
    decreases |steps|
  {
    if steps != [] {
      var before := steps[..|steps| - 1];
      TrustedRun(m, c, n, before);
      TrustedNext(m, After(m, c, before), n, steps[|steps| - 1]);
      NextInv(m, After(m, c, before), steps[|steps| - 1]);
    }
  }

  // ---------- not covered: some run answers wrongly ----------

  /** Between `c` and `c'` only writes of `n` were issued, the last under id `r`. */
  ghost predicate IssuedUpTo<S>(c: Cluster<S>, c': Cluster<S>, n: ProcId, r: nat, argv: seq<Bytes>) {
    && IsActive(c, n) && IsActive(c', n) && c'.order == c.order && c.sent <= c'.sent
    && c'.members[n].driver.node == c.members[n].driver.node
    && r in c'.members[n].driver.pending
    && r < |c'.members[n].driver.issued|
    && c'.members[n].driver.issued[r].op == WriteOp(n, r, argv, None)
  }

  lemma IssueOne<S(!new)>(m: Machine<S>, c0: Cluster<S>, steps: seq<Step<S>>, n: ProcId, argv: seq<Bytes>)
      returns (longer: seq<Step<S>>)
    requires ValidRun(m, c0, steps) && Step.Crash(n) !in steps
    requires Inv(m, After(m, c0, steps)) && IsActive(After(m, c0, steps), n)
    ensures ValidRun(m, c0, longer) && Step.Crash(n) !in longer && Inv(m, After(m, c0, longer))
    ensures var c, c' := After(m, c0, steps), After(m, c0, longer);
            && IssuedUpTo(c, c', n, c.members[n].driver.nextRid, argv)
            && c'.members[n].driver.nextRid == c.members[n].driver.nextRid + 1
  {
    var c := After(m, c0, steps);
    assert MemberOk(m, c.order, c.sent, n, c.members[n]);
    longer := Grow(m, c0, steps, Step.ClientWrite(n, 0, argv, None));
    WriteInv(m, c, n, 0, argv, None);
  }

  /** Client writes until id `r` is the last one issued. */
  lemma {:induction false} IssueUpTo<S(!new)>(m: Machine<S>, c0: Cluster<S>, steps: seq<Step<S>>, n: ProcId, r: nat, argv: seq<Bytes>)
      returns (longer: seq<Step<S>>)
    requires ValidRun(m, c0, steps) && Step.Crash(n) !in steps
    requires Inv(m, After(m, c0, steps)) && IsActive(After(m, c0, steps), n)
    requires After(m, c0, steps).members[n].driver.nextRid <= r
    ensures ValidRun(m, c0, longer) && Step.Crash(n) !in longer && Inv(m, After(m, c0, longer))
    ensures IssuedUpTo(After(m, c0, steps), After(m, c0, longer), n, r, argv)
    decreases r - After(m, c0, steps).members[n].driver.nextRid
  {
    var c := After(m, c0, steps);
    var one := IssueOne(m, c0, steps, n, argv);
    if c.members[n].driver.nextRid == r {
      longer := one;
    } else {
      longer := IssueUpTo(m, c0, one, n, r, argv);
      IssuedFurther(c, After(m, c0, one), After(m, c0, longer), n, c.members[n].driver.nextRid, r, argv);
    }
  }

  lemma IssuedFurther<S>(c: Cluster<S>, c1: Cluster<S>, c2: Cluster<S>, n: ProcId, r1: nat, r2: nat, argv: seq<Bytes>)
    requires IssuedUpTo(c, c1, n, r1, argv) && IssuedUpTo(c1, c2, n, r2, argv)
    ensures IssuedUpTo(c, c2, n, r2, argv)
  {
  }

  lemma NotAtEnd<S>(m: Machine<S>, d: Driver<S>, order: seq<Payload>, sent: set<WriteOp>, n: ProcId, cursor: nat, r: nat)
    requires MemberOk(m, order, sent, n, Active(d, cursor))
    requires (n, r) !in Applied(d.node.dedup) && (n, r) in Keys(Fresh({}, order))
    ensures cursor < |order|
  {
    var total := Fresh({}, order);
    assert order[..|order|] == order && total[..|total|] == total;
    assert cursor == |order| ==> d.node.log.head == |total|;
    var base :| AtFrom(m, d.node, total[..d.node.log.head], base);
  }

  /** A delivery under another key leaves the wait as it is. */
  lemma OtherDelivery<S>(m: Machine<S>, d: Driver<S>, op: WriteOp, r: nat)
    requires Canonical(d.node.dedup) && r in d.pending && Key(op) != (d.id, r)
    requires (d.id, r) !in Applied(d.node.dedup)
    ensures var d' := Pump(m, d, Op(op));
            r in d'.pending && (d.id, r) !in Applied(d'.node.dedup) && d'.issued == d.issued
  {
    FirstSeenIsSetInsert(d.node.dedup, op.origin, op.requestId);
  }

  /** A new delivery under the key waited for answers the client, for that operation. */
  lemma KeyDelivery<S>(m: Machine<S>, d: Driver<S>, op: WriteOp, r: nat)
    requires Canonical(d.node.dedup) && r in d.pending && r < |d.issued| && Key(op) == (d.id, r)
    requires (d.id, r) !in Applied(d.node.dedup) && d.issued[r].op != op
    ensures !RightAnswers(Pump(m, d, Op(op)))
  {
    FirstSeenIsSetInsert(d.node.dedup, op.origin, op.requestId);
    assert Pump(m, d, Op(op)).answers[|d.answers|].op == op;
  }

  /** One delivery to a node waiting under `r` for a write that the order does not
      contain: either it is answered for something else, or it keeps waiting. */
  lemma DeliverOne<S>(m: Machine<S>, d: Driver<S>, order: seq<Payload>, sent: set<WriteOp>, n: ProcId, cursor: nat, r: nat)
    requires MemberOk(m, order, sent, n, Active(d, cursor)) && cursor < |order|
    requires r in d.pending && d.issued[r].op !in Fresh({}, order)
    requires (n, r) !in Applied(d.node.dedup)
    ensures var d' := Pump(m, d, order[cursor]);
            || !RightAnswers(d')
            || (r in d'.pending && (n, r) !in Applied(d'.node.dedup) && d'.issued == d.issued)
  {
    var p := order[cursor];
    if p.Op? {
      if Key(p.op) == (n, r) {
        FirstSeenIsSetInsert(d.node.dedup, p.op.origin, p.op.requestId);
        DeliverKeepsPrefix(m, d.node, order, cursor);
        assert p.op in Fresh({}, order);
        KeyDelivery(m, d, p.op, r);
      } else {
        OtherDelivery(m, d, p.op, r);
      }
    }
  }

  /** Deliver until the order's operation with key `(n, r)` is reached: the client
      waiting under `r` is then answered for it. */
  lemma {:induction false} DeliverUntilAnswered<S(!new)>(m: Machine<S>, c0: Cluster<S>, steps: seq<Step<S>>, n: ProcId, r: nat)
      returns (longer: seq<Step<S>>)
    requires ValidRun(m, c0, steps) && Step.Crash(n) !in steps
    requires Inv(m, After(m, c0, steps)) && IsActive(After(m, c0, steps), n)
    requires var c := After(m, c0, steps);
             var d := c.members[n].driver;
             && r in d.pending && r < |d.issued| && d.issued[r].op !in Total(c)
             && (n, r) !in Applied(d.node.dedup) && (n, r) in Keys(Total(c))
    ensures ValidRun(m, c0, longer) && Step.Crash(n) !in longer
    ensures IsActive(After(m, c0, longer), n) && !RightAnswers(After(m, c0, longer).members[n].driver)
    decreases |After(m, c0, steps).order| - After(m, c0, steps).members[n].cursor
  {
    var c := After(m, c0, steps);
    assert MemberOk(m, c.order, c.sent, n, c.members[n]);
    NotAtEnd(m, c.members[n].driver, c.order, c.sent, n, c.members[n].cursor, r);
    DeliverInv(m, c, n);
    DeliverOne(m, c.members[n].driver, c.order, c.sent, n, c.members[n].cursor, r);
    longer := Grow(m, c0, steps, Step.DeliverNext(n));
    if RightAnswers(DeliverTo(m, c, n).members[n].driver) {
      longer := DeliverUntilAnswered(m, c0, longer, n, r);
    }
  }

  /** Have the ring order an older broadcast, unless its key is in the order already. */
  lemma OrderOlder<S(!new)>(m: Machine<S>, c0: Cluster<S>, steps: seq<Step<S>>, n: ProcId, older: WriteOp, mine: WriteOp)
      returns (longer: seq<Step<S>>)
    requires ValidRun(m, c0, steps) && Step.Crash(n) !in steps && Inv(m, After(m, c0, steps))
    requires older in After(m, c0, steps).sent && mine != older && mine !in Total(After(m, c0, steps))
    ensures ValidRun(m, c0, longer) && Step.Crash(n) !in longer
    ensures var c' := After(m, c0, longer);
            && Inv(m, c') && c'.members == After(m, c0, steps).members
            && Key(older) in Keys(Total(c')) && mine !in Total(c')
  {
    var c := After(m, c0, steps);
    if Key(older) in Keys(Total(c)) {
      longer := steps;
    } else {
      longer := Grow(m, c0, steps, Step.Order(Op(older)));
      NextInv(m, c, Step.Order(Op(older)));
      FreshAppend({}, c.order, Op(older));
      KeysAppend(Total(c), older);
    }
  }

  /** An uncovered broadcast leads to a wrong answer: let the clients of `n` write
      until its id is taken again, have the ring order it, and deliver. */
  lemma UncoveredMisanswers<S(!new)>(m: Machine<S>, c: Cluster<S>, n: ProcId, older: WriteOp, argv: seq<Bytes>) returns (steps: seq<Step<S>>)
    requires Inv(m, c) && IsActive(c, n) && c.members[n].driver.issued == []
    requires older in c.sent && older.origin == n && Key(older) !in Applied(c.members[n].driver.node.dedup)
    requires WriteOp(n, older.requestId, argv, None) !in c.sent
    ensures ValidRun(m, c, steps) && Step.Crash(n) !in steps
    ensures IsActive(After(m, c, steps), n) && !RightAnswers(After(m, c, steps).members[n].driver)
  {
    var r := older.requestId;
    var mine := WriteOp(n, r, argv, None);
    assert mine !in Total(c) by {
      FreshWasSent(c.order, c.sent);
    }
    assert MemberOk(m, c.order, c.sent, n, c.members[n]);
    steps := IssueUpTo(m, c, [], n, r, argv);
    steps := OrderOlder(m, c, steps, n, older, mine);
    steps := DeliverUntilAnswered(m, c, steps, n, r);
  }

  lemma {:induction false} LongerThanAll(sent: set<WriteOp>) returns (k: nat)
    ensures forall op :: op in sent ==> |op.argv| < k
  {
    if sent == {} {
      k := 0;
    } else {
      var op :| op in sent;
      k := LongerThanAll(sent - {op});
      k := if k <= |op.argv| then |op.argv| + 1 else k;
    }
  }

  lemma UncoveredIsUnsafe<S(!new)>(m: Machine<S>, c: Cluster<S>, n: ProcId) returns (steps: seq<Step<S>>)
    requires Inv(m, c) && IsActive(c, n) && c.members[n].driver.issued == [] && !OwnCovered(c, n)
    ensures ValidRun(m, c, steps) && Step.Crash(n) !in steps
    ensures IsActive(After(m, c, steps), n) && !RightAnswers(After(m, c, steps).members[n].driver)
  {
    var older :| older in c.sent && older.origin == n && Key(older) !in Applied(c.members[n].driver.node.dedup);
    var k := LongerThanAll(c.sent);
    var argv: seq<Bytes> := seq(k, _ => []);
    assert |WriteOp(n, older.requestId, argv, None).argv| == k;
    steps := UncoveredMisanswers(m, c, n, older, argv);
  }

  /** `steps` is a run from `c` in which `n` does not crash again. */
  ghost predicate Continues<S(!new)>(m: Machine<S>, c: Cluster<S>, n: ProcId, steps: seq<Step<S>>) {
    ValidRun(m, c, steps) && Step.Crash(n) !in steps
  }

  /** Exactly when the answers of a promoted node are right: every answer of the new
      incarnation is for the client's own write, in every continuation without another
      crash of the node, if and only if the seeded dedup state covers everything the
      node's earlier incarnations ever broadcast. */
  lemma AnswersRightIffCovered<S(!new)>(m: Machine<S>, c: Cluster<S>, n: ProcId)
    requires Inv(m, c) && IsActive(c, n)
    requires c.members[n].driver == Start(n, c.members[n].driver.node)
    ensures OwnCovered(c, n) <==>
            forall steps :: Continues(m, c, n, steps) ==>
              IsActive(After(m, c, steps), n) && RightAnswers(After(m, c, steps).members[n].driver)
  {
    if OwnCovered(c, n) {
      assert Trusted(c, n);
      forall steps | Continues(m, c, n, steps)
        ensures IsActive(After(m, c, steps), n) && RightAnswers(After(m, c, steps).members[n].driver)
      {
        TrustedRun(m, c, n, steps);
      }
    } else {
      var steps := UncoveredIsUnsafe(m, c, n);
      assert Continues(m, c, n, steps);
    }
  }

  // ---------- no write is lost either ----------

  /** Every answer is right, and no client waits under an id that was applied already:
      such a client is never answered and its write is dropped. */
  ghost predicate Serves<S>(d: Driver<S>) {
    && RightAnswers(d)
    && forall r :: r in d.pending ==> (d.id, r) !in Applied(d.node.dedup)
  }

  /** Everything ever broadcast under `n` was issued by this incarnation. */
  ghost predicate AllOwn<S>(sent: set<WriteOp>, n: ProcId, d: Driver<S>) {
    forall op :: op in sent && op.origin == n ==> op.requestId < |d.issued| && d.issued[op.requestId].op == op
  }

  ghost predicate Serving<S>(c: Cluster<S>, n: ProcId) {
    IsActive(c, n) && AllOwn(c.sent, n, c.members[n].driver) && Serves(c.members[n].driver)
  }

  /** A delivery ends the wait under the key that it applies. */
  lemma WaitEnds<S>(m: Machine<S>, d: Driver<S>, op: WriteOp)
    requires Canonical(d.node.dedup) && Serves(d)
    ensures forall r :: r in Pump(m, d, Op(op)).pending ==> (d.id, r) !in Applied(Pump(m, d, Op(op)).node.dedup)
    ensures Pump(m, d, Op(op)).issued == d.issued && Pump(m, d, Op(op)).id == d.id
  {
    FirstSeenIsSetInsert(d.node.dedup, op.origin, op.requestId);
  }

  lemma ServingDelivery<S>(m: Machine<S>, c: Cluster<S>, n: ProcId)
    requires Inv(m, c) && Serving(c, n) && c.members[n].cursor < |c.order|
    ensures Serving(DeliverTo(m, c, n), n)
  {
    assert MemberOk(m, c.order, c.sent, n, c.members[n]);
    var Active(d, cursor) := c.members[n];
    if c.order[cursor].Op? {
      KnownDelivery(m, c.sent, d, c.order[cursor].op);
      WaitEnds(m, d, c.order[cursor].op);
    }
  }

  /** What a node has applied was broadcast. */
  lemma AppliedWasSent<S>(m: Machine<S>, c: Cluster<S>, n: ProcId, k: OpKey)
    requires Inv(m, c) && IsActive(c, n) && k in Applied(c.members[n].driver.node.dedup)
    ensures exists op :: op in c.sent && Key(op) == k
  {
    assert MemberOk(m, c.order, c.sent, n, c.members[n]);
    var h := c.members[n].driver.node.log.head;
    FreshWasSent(c.order, c.sent);
    var i :| 0 <= i < h && Key(Total(c)[..h][i]) == k;
    assert Total(c)[i] in c.sent;
  }

  /** A write of the node itself: its id was not applied, since nothing was broadcast
      under it. */
  lemma ServingOwnWrite<S>(m: Machine<S>, c: Cluster<S>, n: ProcId, client: nat, argv: seq<Bytes>, clientReply: Option<Reply>)
    requires Inv(m, c) && Serving(c, n)
    ensures Serving(WriteAt(c, n, client, argv, clientReply), n)
  {
    assert MemberOk(m, c.order, c.sent, n, c.members[n]);
    var d := c.members[n].driver;
    if (n, d.nextRid) in Applied(d.node.dedup) {
      AppliedWasSent(m, c, n, (n, d.nextRid));
    }
    var d' := Broadcast(d, client, argv, clientReply);
    assert d'.node == d.node && d'.answers == d.answers;
    assert AllOwn(WriteAt(c, n, client, argv, clientReply).sent, n, d');
  }

  lemma ServingOtherWrite<S>(m: Machine<S>, c: Cluster<S>, n: ProcId, k: ProcId, client: nat, argv: seq<Bytes>, clientReply: Option<Reply>)
    requires Inv(m, c) && Serving(c, n) && IsActive(c, k) && k != n
    ensures Serving(WriteAt(c, k, client, argv, clientReply), n)
  {
    assert MemberOk(m, c.order, c.sent, k, c.members[k]);
  }

  lemma ServingNext<S(!new)>(m: Machine<S>, c: Cluster<S>, n: ProcId, s: Step<S>)
    requires Inv(m, c) && Serving(c, n) && Enabled(m, c, s) && s != Step.Crash(n)
    ensures Serving(Next(m, c, s), n)
  {
    if s.ClientWrite? {
      if s.n == n {
        ServingOwnWrite(m, c, n, s.client, s.argv, s.clientReply);
      } else {
        ServingOtherWrite(m, c, n, s.n, s.client, s.argv, s.clientReply);
      }
    } else if s == DeliverNext(n) {
      ServingDelivery(m, c, n);
    } else {
      OtherStepsFrame(m, c, n, s);
    }
  }

  lemma {:induction false} ServingRun<S(!new)>(m: Machine<S>, c: Cluster<S>, n: ProcId, steps: seq<Step<S>>)
    requires Inv(m, c) && Serving(c, n) && ValidRun(m, c, steps) && Step.Crash(n) !in steps
    ensures Inv(m, After(m, c, steps)) && Serving(After(m, c, steps), n)
    decreases |steps|
  {
    if steps != [] {
      var before := steps[..|steps| - 1];
      ServingRun(m, c, n, before);
      ServingNext(m, After(m, c, before), n, steps[|steps| - 1]);
      NextInv(m, After(m, c, before), steps[|steps| - 1]);
    }
  }

  /** After any earlier broadcast of the node, some run answers wrongly or leaves a
      client waiting for good. */
  lemma EarlierBroadcastHarms<S(!new)>(m: Machine<S>, c: Cluster<S>, n: ProcId, older: WriteOp) returns (steps: seq<Step<S>>)
    requires Inv(m, c) && IsActive(c, n) && c.members[n].driver == Start(n, c.members[n].driver.node)
    requires older in c.sent && older.origin == n
    ensures ValidRun(m, c, steps) && Step.Crash(n) !in steps
    ensures IsActive(After(m, c, steps), n) && !Serves(After(m, c, steps).members[n].driver)
  {
    if OwnCovered(c, n) {
      assert MemberOk(m, c.order, c.sent, n, c.members[n]);
      steps := IssueUpTo(m, c, [], n, older.requestId, []);
      var c' := After(m, c, steps);
      assert MemberOk(m, c'.order, c'.sent, n, c'.members[n]);
      assert (n, older.requestId) in Applied(c'.members[n].driver.node.dedup);
    } else {
      steps := UncoveredIsUnsafe(m, c, n);
    }
  }

  /** Exactly when a promotion serves its clients: in every continuation without
      another crash of the node all its answers are right and no write is dropped, if
      and only if the node had never broadcast before. */
  lemma PromotionServesIffNeverWrote<S(!new)>(m: Machine<S>, c: Cluster<S>, n: ProcId)
    requires Inv(m, c) && IsActive(c, n)
    requires c.members[n].driver == Start(n, c.members[n].driver.node)
    ensures NeverWrote(c, n) <==>
            forall steps :: Continues(m, c, n, steps) ==>
              IsActive(After(m, c, steps), n) && Serves(After(m, c, steps).members[n].driver)
  {
    if NeverWrote(c, n) {
      assert Serving(c, n);
      forall steps | Continues(m, c, n, steps)
        ensures IsActive(After(m, c, steps), n) && Serves(After(m, c, steps).members[n].driver)
      {
        ServingRun(m, c, n, steps);
      }
    } else {
      var older :| older in c.sent && older.origin == n;
      var steps := EarlierBroadcastHarms(m, c, n, older);
      assert Continues(m, c, n, steps);
    }
  }
}
