/** What clients and operators may rely on, read off the cluster invariant. */
module Safety {
  import opened Wire
  import opened Dedup
  import opened DeliveredLog
  import opened Replication
  import opened StateTransfer
  import opened Driver
  import opened Cluster

  /** Active, or a rejoiner that has completed at least one transfer. */
  predicate CaughtUp<S>(c: Cluster<S>, n: ProcId) {
    n in c.members && (c.members[n].Active? || (c.members[n].Passive? && c.members[n].synced))
  }

  function NodeOf<S>(c: Cluster<S>, n: ProcId): Node<S>
    requires CaughtUp(c, n)
  {
    if c.members[n].Active? then c.members[n].driver.node else c.members[n].node
  }

  /** `t` extends what `s` had ordered, broadcast and acknowledged. */
  ghost predicate Extends<S>(s: Cluster<S>, t: Cluster<S>) {
    Total(s) <= Total(t) && s.sent <= t.sent && s.acks <= t.acks
  }

  // ---------- prefix states and agreement ----------

  lemma CaughtUpIsPrefix<S>(m: Machine<S>, c: Cluster<S>, n: ProcId)
    requires Inv(m, c) && CaughtUp(c, n)
    ensures NodeOf(c, n).log.head <= |Total(c)|
    ensures At(m, NodeOf(c, n), Total(c)[..NodeOf(c, n).log.head])
  {
    assert MemberOk(m, c.order, c.sent, n, c.members[n]);
  }

  /** State-machine replication: in every run, the store of every caught-up node
      is the replay of the first `head` operations of one order, and two such
      nodes at equal heads have equal stores and equal dedup states. */
  lemma Agreement<S(!new)>(m: Machine<S>, c0: Cluster<S>, steps: seq<Step<S>>, a: ProcId, b: ProcId)
    requires Init(m, c0) && ValidRun(m, c0, steps)
    requires CaughtUp(After(m, c0, steps), a) && CaughtUp(After(m, c0, steps), b)
    ensures var c := After(m, c0, steps);
            var x, y := NodeOf(c, a), NodeOf(c, b);
            && x.log.head <= |Total(c)|
            && x.store == Replay(m, Total(c)[..x.log.head])
            && (x.log.head == y.log.head ==> x.store == y.store && x.dedup == y.dedup)
  {
    var c := After(m, c0, steps);
    RunInv(m, c0, steps);
    CaughtUpIsPrefix(m, c, a);
    CaughtUpIsPrefix(m, c, b);
    var x, y := NodeOf(c, a), NodeOf(c, b);
    if x.log.head == y.log.head {
      SameHistorySameState(m, x, y, Total(c)[..x.log.head]);
    }
  }

  /** Convergence: an active node that has consumed the whole stream has applied the
      whole order, so any two such nodes have equal stores. */
  lemma Convergence<S(!new)>(m: Machine<S>, c0: Cluster<S>, steps: seq<Step<S>>, n: ProcId)
    requires Init(m, c0) && ValidRun(m, c0, steps) && IsActive(After(m, c0, steps), n)
    requires After(m, c0, steps).members[n].cursor == |After(m, c0, steps).order|
    ensures var c := After(m, c0, steps);
            var node := c.members[n].driver.node;
            && node.log.head == |Total(c)|
            && node.store == Replay(m, Total(c))
            && Applied(node.dedup) == Keys(Total(c))
  {
    RunInv(m, c0, steps);
    var c := After(m, c0, steps);
    assert MemberOk(m, c.order, c.sent, n, c.members[n]);
    EndOfStream(c.order, c.members[n].driver.node.log.head);
  }

  lemma EndOfStream(order: seq<Payload>, h: nat)
    requires Resumable(order, |order|, h)
    ensures h == |Fresh({}, order)| && Fresh({}, order)[..h] == Fresh({}, order)
  {
    assert order[|order|..] == [];
    assert |Fresh({}, order)[h..]| == 0;
  }

  // ---------- nothing ordered or acknowledged is ever taken back ----------

  lemma NextExtends<S(!new)>(m: Machine<S>, c: Cluster<S>, s: Step<S>)
    requires Enabled(m, c, s)
    ensures Extends(c, Next(m, c, s))
  {
    if s.Order? {
      FreshPrefix({}, c.order + [s.p], |c.order|);
      assert (c.order + [s.p])[..|c.order|] == c.order;
    }
  }

  lemma {:induction false} RunExtends<S(!new)>(m: Machine<S>, c: Cluster<S>, steps: seq<Step<S>>, k: nat)
    requires ValidRun(m, c, steps) && k <= |steps|
    ensures ValidRun(m, c, steps[..k]) && Extends(After(m, c, steps[..k]), After(m, c, steps))
    decreases |steps|
  {
    if k == |steps| {
      assert steps[..k] == steps;
    } else {
      var before := steps[..|steps| - 1];
      RunExtends(m, c, before, k);
      assert before[..k] == steps[..k];
      NextExtends(m, After(m, c, before), steps[|steps| - 1]);
    }
  }

  /** Durability: an operation whose delivery answered a client at any point of a
      run keeps its place in the order at every later point, and every caught-up
      node that has passed this place has applied it, with the replied result. */
  lemma AckIsDurable<S(!new)>(m: Machine<S>, c0: Cluster<S>, steps: seq<Step<S>>, k: nat, i: nat, n: ProcId)
    requires Init(m, c0) && ValidRun(m, c0, steps) && k <= |steps|
    requires ValidRun(m, c0, steps[..k]) && i < |After(m, c0, steps[..k]).acks|
    requires CaughtUp(After(m, c0, steps), n)
    ensures var a := After(m, c0, steps[..k]).acks[i].answer;
            var c := After(m, c0, steps);
            && a.at < |Total(c)| && Total(c)[a.at] == a.op
            && a.reply == ReplyAt(m, Total(c), a.at)
            && (a.at < NodeOf(c, n).log.head ==> Key(a.op) in Applied(NodeOf(c, n).dedup))
  {
    var s, c := After(m, c0, steps[..k]), After(m, c0, steps);
    RunExtends(m, c0, steps, k);
    RunInv(m, c0, steps);
    var a := s.acks[i];
    assert c.acks[i] == a;
    assert AckOk(m, Total(c), c.sent, a);
    CaughtUpIsPrefix(m, c, n);
    FreshIsDistinct({}, c.order);
    PrefixMembership(Total(c), NodeOf(c, n).log.head, a.answer.at);
  }

  // ---------- whose write is acknowledged ----------

  /** No two different broadcasts share an (origin, id) pair. */
  ghost predicate UniqueKeys(sent: set<WriteOp>) {
    forall a, b :: a in sent && b in sent && Key(a) == Key(b) ==> a == b
  }

  /** While broadcast ids are unique, an acknowledged client's own write is in
      the order and its reply is the one its position earned. */
  lemma AckIsForOwnWrite<S(!new)>(m: Machine<S>, c0: Cluster<S>, steps: seq<Step<S>>, i: nat)
    requires Init(m, c0) && ValidRun(m, c0, steps)
    requires UniqueKeys(After(m, c0, steps).sent)
    requires i < |After(m, c0, steps).acks|
    ensures var c := After(m, c0, steps);
            var a := c.acks[i];
            && a.answer.at < |Total(c)|
            && Total(c)[a.answer.at] == a.mine
            && a.answer.reply == ReplyAt(m, Total(c), a.answer.at)
  {
    var c := After(m, c0, steps);
    RunInv(m, c0, steps);
    var a := c.acks[i];
    assert AckOk(m, Total(c), c.sent, a);
    FreshWasSent(c.order, c.sent);
  }

  /** Real-time order: an operation whose delivery answered a client before another
      write is broadcast comes before that write in the order, in every run. */
  lemma AckedBeforeIssuedIsOrderedBefore<S(!new)>(m: Machine<S>, c0: Cluster<S>, steps: seq<Step<S>>, k: nat, i: nat, later: nat)
    requires Init(m, c0) && ValidRun(m, c0, steps) && k <= |steps|
    requires ValidRun(m, c0, steps[..k]) && i < |After(m, c0, steps[..k]).acks|
    requires later < |Total(After(m, c0, steps))|
    requires Total(After(m, c0, steps))[later] !in After(m, c0, steps[..k]).sent
    ensures var a := After(m, c0, steps[..k]).acks[i].answer;
            a.at < later && Total(After(m, c0, steps))[a.at] == a.op
  {
    var s, c := After(m, c0, steps[..k]), After(m, c0, steps);
    RunExtends(m, c0, steps, k);
    RunInv(m, c0, steps[..k]);
    FreshWasSent(s.order, s.sent);
    assert AckOk(m, Total(s), s.sent, s.acks[i]);
    assert forall j :: 0 <= j < |Total(s)| ==> Total(c)[j] == Total(s)[j];
    assert later >= |Total(s)|;
  }

  // ---------- runs in which ids are unique ----------

  /** Ids are unique, and every active node's next id is above all that were ever
      broadcast under its name. */
  ghost predicate FreshIds<S>(c: Cluster<S>) {
    && UniqueKeys(c.sent)
    && forall n, op :: IsActive(c, n) && op in c.sent && op.origin == n ==> op.requestId < c.members[n].driver.nextRid
  }

  /** Nothing was ever broadcast under `n`. */
  ghost predicate NeverWrote<S>(c: Cluster<S>, n: ProcId) {
    forall op :: op in c.sent ==> op.origin != n
  }

  lemma AddedIsUnique(sent: set<WriteOp>, op: WriteOp)
    requires UniqueKeys(sent) && forall a :: a in sent ==> Key(a) != Key(op)
    ensures UniqueKeys(sent + {op})
  {
  }

  lemma WriteFreshIds<S>(m: Machine<S>, c: Cluster<S>, n: ProcId, client: nat, argv: seq<Bytes>, clientReply: Option<Reply>)
    requires Inv(m, c) && FreshIds(c) && IsActive(c, n)
    ensures FreshIds(WriteAt(c, n, client, argv, clientReply))
  {
    assert MemberOk(m, c.order, c.sent, n, c.members[n]);
    var d := c.members[n].driver;
    var op := WriteOp(n, d.nextRid, argv, clientReply);
    AddedIsUnique(c.sent, op);
    var c' := WriteAt(c, n, client, argv, clientReply);
    forall k, o | IsActive(c', k) && o in c'.sent && o.origin == k ensures o.requestId < c'.members[k].driver.nextRid {
      assert IsActive(c, k);
      assert o == op || o in c.sent;
    }
  }

  /** Replacing a member by one that is not active, or that knows its ids. */
  lemma PutFreshIds<S>(c: Cluster<S>, n: ProcId, member: Member<S>)
    requires FreshIds(c)
    requires member.Active? ==> forall op :: op in c.sent && op.origin == n ==> op.requestId < member.driver.nextRid
    ensures FreshIds(Put(c, n, member))
  {
  }

  lemma DeliverFreshIds<S>(m: Machine<S>, c: Cluster<S>, n: ProcId)
    requires FreshIds(c) && IsActive(c, n) && c.members[n].cursor < |c.order|
    ensures FreshIds(DeliverTo(m, c, n))
  {
    var Active(d, cursor) := c.members[n];
    PutFreshIds(c, n, Active(Pump(m, d, c.order[cursor]), cursor + 1));
  }

  /** Every step keeps ids fresh, except a promotion of a node that has written. */
  lemma NextFreshIds<S(!new)>(m: Machine<S>, c: Cluster<S>, s: Step<S>)
    requires Inv(m, c) && FreshIds(c) && Enabled(m, c, s)
    requires s.Promote? ==> NeverWrote(c, s.n)
    ensures FreshIds(Next(m, c, s))
  {
    match s
    case ClientWrite(n, client, argv, clientReply) => WriteFreshIds(m, c, n, client, argv, clientReply);
    case DeliverNext(n) => DeliverFreshIds(m, c, n);
    case Order(p) =>
      assert Next(m, c, s).members == c.members && Next(m, c, s).sent == c.sent;
    case _ =>
      var n := s.n;
      assert Next(m, c, s) == Put(c, n, Next(m, c, s).members[n]);
      PutFreshIds(c, n, Next(m, c, s).members[n]);
  }

  /** No node is promoted after it has written. */
  ghost predicate NoPromotionAfterWrite<S>(steps: seq<Step<S>>) {
    forall i, k :: 0 <= i < k < |steps| && steps[i].ClientWrite? && steps[k].Promote? ==> steps[i].n != steps[k].n
  }

  /** What is in `sent` was written by a client of its origin. */
  lemma {:induction false} SentByWrite<S(!new)>(m: Machine<S>, c0: Cluster<S>, steps: seq<Step<S>>, op: WriteOp)
    requires Init(m, c0) && ValidRun(m, c0, steps) && op in After(m, c0, steps).sent
    ensures exists i :: 0 <= i < |steps| && steps[i].ClientWrite? && steps[i].n == op.origin
    decreases |steps|
  {
    if steps != [] {
      var k := |steps| - 1;
      var c := After(m, c0, steps[..k]);
      if op in c.sent {
        SentByWrite(m, c0, steps[..k], op);
        var i :| 0 <= i < k && steps[..k][i].ClientWrite? && steps[..k][i].n == op.origin;
        assert steps[i] == steps[..k][i];
      } else {
        RunInv(m, c0, steps[..k]);
        assert steps[k].ClientWrite?;
        assert MemberOk(m, c.order, c.sent, steps[k].n, c.members[steps[k].n]);
      }
    }
  }

  lemma {:induction false} RunFreshIds<S(!new)>(m: Machine<S>, c0: Cluster<S>, steps: seq<Step<S>>)
    requires Init(m, c0) && ValidRun(m, c0, steps) && NoPromotionAfterWrite(steps)
    ensures FreshIds(After(m, c0, steps))
    decreases |steps|
  {
    if steps != [] {
      var k := |steps| - 1;
      var c := After(m, c0, steps[..k]);
      RunFreshIds(m, c0, steps[..k]);
      RunInv(m, c0, steps[..k]);
      if steps[k].Promote? {
        forall op | op in c.sent ensures op.origin != steps[k].n {
          SentByWrite(m, c0, steps[..k], op);
          var i :| 0 <= i < k && steps[..k][i].ClientWrite? && steps[..k][i].n == op.origin;
          assert steps[i].ClientWrite?;
        }
      }
      NextFreshIds(m, c, steps[k]);
    }
  }

  /** In every run in which no node is promoted after it has written, an acknowledged
      client's own write is in the order and its reply is the one its position earned. */
  lemma OwnWriteAckedWithFreshIds<S(!new)>(m: Machine<S>, c0: Cluster<S>, steps: seq<Step<S>>, i: nat)
    requires Init(m, c0) && ValidRun(m, c0, steps) && NoPromotionAfterWrite(steps)
    requires i < |After(m, c0, steps).acks|
    ensures var c := After(m, c0, steps);
            var a := c.acks[i];
            && a.answer.at < |Total(c)|
            && Total(c)[a.answer.at] == a.mine
            && a.answer.reply == ReplyAt(m, Total(c), a.answer.at)
  {
    RunFreshIds(m, c0, steps);
    AckIsForOwnWrite(m, c0, steps, i);
  }

  /** In every such run, a write acknowledged before another one is broadcast comes
      before it in the order. */
  lemma RealTimeOrderWithFreshIds<S(!new)>(m: Machine<S>, c0: Cluster<S>, steps: seq<Step<S>>, k: nat, i: nat, later: nat)
    requires Init(m, c0) && ValidRun(m, c0, steps) && NoPromotionAfterWrite(steps) && k <= |steps|
    requires ValidRun(m, c0, steps[..k]) && i < |After(m, c0, steps[..k]).acks|
    requires later < |Total(After(m, c0, steps))|
    requires Total(After(m, c0, steps))[later] !in After(m, c0, steps[..k]).sent
    ensures var a := After(m, c0, steps[..k]).acks[i];
            a.answer.at < later && Total(After(m, c0, steps))[a.answer.at] == a.mine
  {
    AckedBeforeIssuedIsOrderedBefore(m, c0, steps, k, i, later);
    RunExtends(m, c0, steps, k);
    assert After(m, c0, steps).acks[i] == After(m, c0, steps[..k]).acks[i];
    OwnWriteAckedWithFreshIds(m, c0, steps, i);
  }

  /** The uniqueness hypothesis cannot be dropped. A promoted node numbers from 0
      again; if an older broadcast of its own with the same id is still to be
      ordered, two steps of the ring acknowledge the client whose write is then
      shut out of the order for good. */
  lemma ReusedIdAcksTheWrongWrite<S(!new)>(m: Machine<S>, c: Cluster<S>, n: ProcId, r: nat, older: WriteOp)
    requires Inv(m, c) && IsActive(c, n) && c.members[n].cursor == |c.order|
    requires r in c.members[n].driver.pending && r < |c.members[n].driver.issued|
    requires older in c.sent && Key(older) == (n, r) && Key(older) !in Keys(Total(c))
    requires older != c.members[n].driver.issued[r].op
    requires c.members[n].driver.node.log.head == |Total(c)|
    ensures var mine := c.members[n].driver.issued[r].op;
            && Enabled(m, c, Order(Op(older)))
            && var c1 := Next(m, c, Order(Op(older)));
               && Enabled(m, c1, DeliverNext(n))
               && var c2 := Next(m, c1, DeliverNext(n));
                  && |c2.acks| == |c.acks| + 1
                  && c2.acks[|c.acks|].mine == mine
                  && c2.acks[|c.acks|].answer.op == older
                  && Key(mine) in Keys(Total(c2))
                  && mine !in Total(c2)
  {
    assert MemberOk(m, c.order, c.sent, n, c.members[n]);
    var Active(d, cursor) := c.members[n];
    var total := Total(c);
    assert total[..|total|] == total;
    var base :| AtFrom(m, d.node, total[..|total|], base);
    OlderWakesClient(m, d, total, base, older, r);
    OlderTakesKey(total, older, d.issued[r].op);
    FreshAppend({}, c.order, Op(older));
    KeysAppend(total, older);
    assert (c.order + [Op(older)])[cursor] == Op(older);
  }

  lemma OlderWakesClient<S>(m: Machine<S>, d: Driver<S>, total: seq<WriteOp>, base: nat, older: WriteOp, r: nat)
    requires AtFrom(m, d.node, total, base) && Key(older) !in Keys(total) && Key(older) == (d.id, r)
    requires r in d.pending && r < |d.issued|
    ensures NewAcks(d.id, d, Pump(m, d, Op(older))) ==
            [Ack(d.id, d.issued[r].op, Answer(d.pending[r], r, older, |total|, ReplyAt(m, total + [older], |total|)))]
  {
    PumpNew(m, d, total, base, older);
  }

  lemma OlderTakesKey(total: seq<WriteOp>, older: WriteOp, mine: WriteOp)
    requires Key(older) !in Keys(total) && Key(mine) == Key(older) && mine != older
    ensures mine !in total + [older]
  {
    assert forall j :: 0 <= j < |total| ==> Key(total[j]) in Keys(total);
  }

  // ---------- a concrete run with a wrong acknowledgement ----------

  /** One more step of a run. */
  lemma Extend<S(!new)>(m: Machine<S>, c0: Cluster<S>, steps: seq<Step<S>>, s: Step<S>)
    requires ValidRun(m, c0, steps) && Enabled(m, After(m, c0, steps), s)
    ensures ValidRun(m, c0, steps + [s])
    ensures After(m, c0, steps + [s]) == Next(m, After(m, c0, steps), s)
  {
    assert (steps + [s])[..|steps|] == steps;
  }

  /** A node that has consumed nothing yet. */
  ghost predicate Lags<S>(m: Machine<S>, c: Cluster<S>, n: ProcId) {
    n in c.members && c.members[n] == Active(Start(n, InitNode(m, DEFAULT_CAP)), 0)
  }

  /** Three nodes, of which node 2 never consumes anything. Node 0 broadcasts a write,
      crashes before it is ordered, and restarts. */
  lemma CrashAndRestart<S(!new)>(m: Machine<S>, argv: seq<Bytes>) returns (c0: Cluster<S>, steps: seq<Step<S>>)
    ensures Init(m, c0) && ValidRun(m, c0, steps)
    ensures var c := After(m, c0, steps);
            && 0 in c.members && c.members[0] == Passive(Node(m.init, map[], NewLog(DEFAULT_CAP)), false, None)
            && Lags(m, c, 1) && Lags(m, c, 2)
            && c.sent == {WriteOp(0, 0, argv, None)} && c.order == [] && c.acks == []
  {
    var node := InitNode(m, DEFAULT_CAP);
    c0 := Cluster(map[0 := Active(Start(0, node), 0), 1 := Active(Start(1, node), 0), 2 := Active(Start(2, node), 0)], {}, [], []);
    steps := [];
    steps := Grow(m, c0, steps, Step.ClientWrite(0, 0, argv, None));
    steps := Grow(m, c0, steps, Step.Crash(0));
    steps := Grow(m, c0, steps, Step.Restart(0, m.init));
  }

  /** Meanwhile node 1's write is ordered and delivered. */
  lemma CrashWithWriteUnderWay<S(!new)>(m: Machine<S>, argv: seq<Bytes>) returns (c0: Cluster<S>, steps: seq<Step<S>>)
    ensures Init(m, c0) && ValidRun(m, c0, steps)
    ensures var c := After(m, c0, steps);
            var nodeB := Deliver(m, InitNode(m, DEFAULT_CAP), WriteOp(1, 0, argv, None)).0;
            && 0 in c.members && c.members[0] == Passive(Node(m.init, map[], NewLog(DEFAULT_CAP)), false, None)
            && IsActive(c, 1) && c.members[1].driver.node == nodeB && Lags(m, c, 2)
            && c.sent == {WriteOp(0, 0, argv, None), WriteOp(1, 0, argv, None)}
            && c.order == [Op(WriteOp(1, 0, argv, None))]
  {
    c0, steps := CrashAndRestart(m, argv);
    steps := Grow(m, c0, steps, Step.ClientWrite(1, 1, argv, None));
    steps := Grow(m, c0, steps, Step.Order(Op(WriteOp(1, 0, argv, None))));
    var c := After(m, c0, steps);
    PumpNode(m, c.members[1].driver, c.order[0]);
    steps := Grow(m, c0, steps, Step.DeliverNext(1));
  }

  lemma Grow<S(!new)>(m: Machine<S>, c0: Cluster<S>, steps: seq<Step<S>>, s: Step<S>) returns (longer: seq<Step<S>>)
    requires ValidRun(m, c0, steps) && Enabled(m, After(m, c0, steps), s)
    ensures longer == steps + [s] && ValidRun(m, c0, longer)
    ensures After(m, c0, longer) == Next(m, After(m, c0, steps), s)
  {
    Extend(m, c0, steps, s);
    longer := steps + [s];
  }

  /** A survivor that has applied just `op` answers 0 with its snapshot. */
  lemma OneOpSnapshot<S>(m: Machine<S>, op: WriteOp, peer: Node<S>, view: Option<View>)
    ensures var survivor := Deliver(m, InitNode(m, DEFAULT_CAP), op).0;
            && Build(survivor, 0, view) == Transfer(Snap(Export(survivor, view)), [])
            && ApplyTransfer(m, peer, Build(survivor, 0, view)) == Outcome(Import(peer, Export(survivor, view)), 0, true)
            && survivor.log.head == 1
  {
    InitIsAt(m, DEFAULT_CAP);
    DeliverStep(m, InitNode(m, DEFAULT_CAP), [], 0, op);
    assert [] + [op] == [op];
    BuildShape(m, Deliver(m, InitNode(m, DEFAULT_CAP), op).0, [op], 0, 0, view);
  }

  /** Node 0 comes back and asks node 1. */
  lemma RejoinAsked<S(!new)>(m: Machine<S>, argv: seq<Bytes>) returns (c0: Cluster<S>, steps: seq<Step<S>>)
    ensures Init(m, c0) && ValidRun(m, c0, steps)
    ensures var c := After(m, c0, steps);
            var nodeB := Deliver(m, InitNode(m, DEFAULT_CAP), WriteOp(1, 0, argv, None)).0;
            && 0 in c.members
            && c.members[0] == Passive(Node(m.init, map[], NewLog(DEFAULT_CAP)), false,
                                       Some(Round(0, false, Some(Build(nodeB, 0, None)))))
            && IsActive(c, 1) && c.members[1].driver.node == nodeB && Lags(m, c, 2)
            && c.sent == {WriteOp(0, 0, argv, None), WriteOp(1, 0, argv, None)}
            && c.order == [Op(WriteOp(1, 0, argv, None))]
  {
    c0, steps := CrashWithWriteUnderWay(m, argv);
    steps := Grow(m, c0, steps, Step.BeginRound(0));
    steps := Grow(m, c0, steps, Step.Serve(0, 1, None));
  }

  /** It catches up with node 1. */
  lemma Rejoin<S(!new)>(m: Machine<S>, argv: seq<Bytes>) returns (c0: Cluster<S>, steps: seq<Step<S>>)
    ensures Init(m, c0) && ValidRun(m, c0, steps)
    ensures var c := After(m, c0, steps);
            var nodeB := Deliver(m, InitNode(m, DEFAULT_CAP), WriteOp(1, 0, argv, None)).0;
            && IsPassive(c, 0) && c.members[0].synced && c.members[0].round.None? && c.members[0].node.log.head == 1
            && IsActive(c, 1) && c.members[1].driver.node == nodeB && Lags(m, c, 2)
            && c.sent == {WriteOp(0, 0, argv, None), WriteOp(1, 0, argv, None)}
            && c.order == [Op(WriteOp(1, 0, argv, None))]
  {
    c0, steps := RejoinAsked(m, argv);
    OneOpSnapshot(m, WriteOp(1, 0, argv, None), After(m, c0, steps).members[0].node, None);
    steps := Grow(m, c0, steps, Step.Receive(0, After(m, c0, steps).members[0].round.value.inflight.value));
  }

  /** Before its promotion it fetches once more, asking with 0. */
  lemma RejoinAndServe<S(!new)>(m: Machine<S>, argv: seq<Bytes>) returns (c0: Cluster<S>, steps: seq<Step<S>>)
    ensures Init(m, c0) && ValidRun(m, c0, steps)
    ensures var c := After(m, c0, steps);
            var nodeB := Deliver(m, InitNode(m, DEFAULT_CAP), WriteOp(1, 0, argv, None)).0;
            && HasTransfer(c, 0)
            && c.members[0].round.value == Round(0, true, Some(Build(nodeB, 0, Some(View(0, {})))))
            && c.sent == {WriteOp(0, 0, argv, None), WriteOp(1, 0, argv, None)}
            && c.order == [Op(WriteOp(1, 0, argv, None))]
  {
    c0, steps := Rejoin(m, argv);
    steps := Grow(m, c0, steps, Step.BeginPromotion(0));
    steps := Grow(m, c0, steps, Step.Serve(0, 1, Some(View(0, {}))));
  }

  /** Then it is promoted, with the ring resuming right behind the snapshot. */
  lemma RejoinAndPromote<S(!new)>(m: Machine<S>, argv: seq<Bytes>) returns (c0: Cluster<S>, steps: seq<Step<S>>)
    ensures Init(m, c0) && ValidRun(m, c0, steps)
    ensures var c := After(m, c0, steps);
            && IsActive(c, 0) && c.members[0].cursor == 1
            && c.members[0].driver == Start(0, c.members[0].driver.node)
            && c.members[0].driver.node.log.head == 1
            && c.sent == {WriteOp(0, 0, argv, None), WriteOp(1, 0, argv, None)}
            && c.order == [Op(WriteOp(1, 0, argv, None))]
  {
    c0, steps := RejoinAndServe(m, argv);
    var opB := WriteOp(1, 0, argv, None);
    OneOpSnapshot(m, opB, After(m, c0, steps).members[0].node, Some(View(0, {})));
    FreshOne({}, Op(opB));
    assert [Op(opB)][1..] == [] && [opB][1..] == [];
    steps := Grow(m, c0, steps, Step.Promote(0, 1));
  }

  /** A write whose key another operation holds in the order never gets into it. */
  lemma ShutOutForGood<S(!new)>(m: Machine<S>, c: Cluster<S>, steps: seq<Step<S>>, op: WriteOp)
    requires ValidRun(m, c, steps) && Key(op) in Keys(Total(c)) && op !in Total(c)
    ensures op !in Total(After(m, c, steps))
  {
    RunExtends(m, c, steps, 0);
    assert steps[..0] == [] && After(m, c, []) == c;
    var total := Total(After(m, c, steps));
    var k :| 0 <= k < |Total(c)| && Key(Total(c)[k]) == Key(op);
    assert total[k] == Total(c)[k];
    FreshIsDistinct({}, After(m, c, steps).order);
    assert forall j :: 0 <= j < |total| && j != k ==> Key(total[j]) != Key(op);
  }

  /** For every store machine there is a run in which a client is answered for a
      write that never enters the order: its key is taken by another operation. */
  lemma WrongAckIsReachable<S(!new)>(m: Machine<S>, argv: seq<Bytes>, other: seq<Bytes>) returns (c0: Cluster<S>, steps: seq<Step<S>>)
    requires argv != other
    ensures Init(m, c0) && ValidRun(m, c0, steps)
    ensures var c := After(m, c0, steps);
            exists i :: 0 <= i < |c.acks| && c.acks[i].mine !in Total(c) && Key(c.acks[i].mine) in Keys(Total(c))
  {
    c0, steps := RejoinAndPromote(m, argv);
    steps := Grow(m, c0, steps, Step.ClientWrite(0, 2, other, None));
    RunInv(m, c0, steps);
    var c := After(m, c0, steps);
    var opB := WriteOp(1, 0, argv, None);
    FreshAppend({}, [], Op(opB));
    assert [] + [Op(opB)] == [Op(opB)];
    assert Total(c) == [opB];
    ReusedIdAcksTheWrongWrite(m, c, 0, 0, WriteOp(0, 0, argv, None));
    steps := Grow(m, c0, steps, Step.Order(Op(WriteOp(0, 0, argv, None))));
    steps := Grow(m, c0, steps, Step.DeliverNext(0));
    assert After(m, c0, steps).acks[|c.acks|].mine !in Total(After(m, c0, steps));
  }

  // ---------- a concrete run in which a rejoiner goes back ----------

  /** A survivor that has applied nothing answers a position ahead of it with an empty
      snapshot. */
  lemma EmptySnapshot<S>(m: Machine<S>, peer: Node<S>, have: nat)
    ensures var survivor := InitNode(m, DEFAULT_CAP);
            && Build(survivor, have, None) == Transfer(Snap(Export(survivor, None)), [])
            && ApplyTransfer(m, peer, Build(survivor, have, None)) == Outcome(Import(peer, Export(survivor, None)), 0, true)
  {
    InitIsAt(m, DEFAULT_CAP);
    BuildShape(m, InitNode(m, DEFAULT_CAP), [], 0, have, None);
  }

  /** For every store machine there is a run in which a passive replica that had caught
      up to an operation loses it again: it asks a survivor that lags behind. */
  lemma MovingBackIsReachable<S(!new)>(m: Machine<S>, argv: seq<Bytes>) returns (c0: Cluster<S>, steps: seq<Step<S>>, k: nat)
    ensures Init(m, c0) && ValidRun(m, c0, steps) && k <= |steps| && ValidRun(m, c0, steps[..k])
    ensures CaughtUp(After(m, c0, steps[..k]), 0) && CaughtUp(After(m, c0, steps), 0)
    ensures NodeOf(After(m, c0, steps[..k]), 0).log.head == 1 && NodeOf(After(m, c0, steps), 0).log.head == 0
  {
    c0, steps := Rejoin(m, argv);
    k := |steps|;
    var before := steps;
    EmptySnapshot(m, After(m, c0, steps).members[0].node, 1);
    steps := Grow(m, c0, steps, Step.BeginRound(0));
    steps := Grow(m, c0, steps, Step.Serve(0, 2, None));
    steps := Grow(m, c0, steps, Step.Receive(0, Build(InitNode(m, DEFAULT_CAP), 1, None)));
    assert steps[..k] == before;
  }
}
