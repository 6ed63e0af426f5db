/** The whole cluster as a step system over an abstract total-order broadcast:
    client writes, ordering (with re-broadcasts and foreign payloads), delivery,
    crashes, passive rejoin with failing transfers, and promotion. */
module Cluster {
  import opened Wire
  import opened DeliveredLog
  import opened Replication
  import opened StateTransfer
  import opened Driver

  /** A catch-up round of a rejoiner: the index it asked for (read once), whether
      it is the final fetch before promotion, and the answer under way, if any. */
  datatype Round<S> = Round(have: nat, promoting: bool, inflight: Option<Transfer<S>>)

  /** `synced` records whether a passive node has ever completed a transfer. */
  datatype Member<S> =
    | Active(driver: Driver<S>, cursor: nat)
    | Passive(node: Node<S>, synced: bool, round: Option<Round<S>>)
    | Down

  /** `node` answered the client of its broadcast `mine`. */
  datatype Ack = Ack(node: ProcId, mine: WriteOp, answer: Answer)

  /** `sent` is everything ever broadcast, `order` what the ring has ordered. */
  datatype Cluster<S> = Cluster(
    members: map<ProcId, Member<S>>,
    sent: set<WriteOp>,
    order: seq<Payload>,
    acks: seq<Ack>)

  /** The one order of distinct operations. */
  function Total<S>(c: Cluster<S>): seq<WriteOp> {
    Fresh({}, c.order)
  }

  datatype Step<S> =
    | ClientWrite(n: ProcId, client: nat, argv: seq<Bytes>, clientReply: Option<Reply>)
    | Order(p: Payload)
    | DeliverNext(n: ProcId)
    | Crash(n: ProcId)
    | Restart(n: ProcId, stale: S)
    | BeginRound(n: ProcId)
    | BeginPromotion(n: ProcId)
    | Serve(n: ProcId, survivor: ProcId, view: Option<View>)
    | LoseTransfer(n: ProcId)
    | EndRound(n: ProcId)
    | Receive(n: ProcId, got: Transfer<S>)
    | Promote(n: ProcId, cursor: nat)

  predicate IsActive<S>(c: Cluster<S>, n: ProcId) {
    n in c.members && c.members[n].Active?
  }

  predicate IsPassive<S>(c: Cluster<S>, n: ProcId) {
    n in c.members && c.members[n].Passive?
  }

  predicate InRound<S>(c: Cluster<S>, n: ProcId) {
    IsPassive(c, n) && c.members[n].round.Some?
  }

  predicate HasTransfer<S>(c: Cluster<S>, n: ProcId) {
    InRound(c, n) && c.members[n].round.value.inflight.Some?
  }

  /** A node at position `h` of the order may take up the ring's stream at
      `cursor`: from there on the stream brings, in order, exactly what it lacks.
      What was delivered before may be missing if the ring delivers it again. */
  predicate Resumable(order: seq<Payload>, cursor: nat, h: nat) {
    var total := Fresh({}, order);
    cursor <= |order| && h <= |total| && Fresh(Keys(total[..h]), order[cursor..]) == total[h..]
  }

  ghost predicate Enabled<S(!new)>(m: Machine<S>, c: Cluster<S>, s: Step<S>) {
    match s
    case ClientWrite(n, _, _, _) => IsActive(c, n)
    case Order(p) => p.Op? ==> p.op in c.sent
    case DeliverNext(n) => IsActive(c, n) && c.members[n].cursor < |c.order|
    case Crash(n) => n in c.members
    case Restart(n, _) => n in c.members && c.members[n].Down?
    case BeginRound(n) => IsPassive(c, n) && c.members[n].round.None?
    case BeginPromotion(n) => IsPassive(c, n) && c.members[n].round.None? && c.members[n].node.log.head > 0
    case Serve(n, survivor, _) => InRound(c, n) && IsActive(c, survivor)
    case LoseTransfer(n) => InRound(c, n)
    case EndRound(n) => InRound(c, n)
    case Receive(n, got) =>
      HasTransfer(c, n) && !c.members[n].round.value.promoting && Damaged(c.members[n].round.value.inflight.value, got)
    case Promote(n, cursor) =>
      && HasTransfer(c, n)
      && c.members[n].round.value.promoting
      && var x := c.members[n].round.value.inflight.value;
         && x.snap.Snap? && x.snap.s.view.Some?
         && Resumable(c.order, cursor, ApplyTransfer(m, c.members[n].node, x).node.log.head)
  }

  function Put<S>(c: Cluster<S>, n: ProcId, member: Member<S>): Cluster<S> {
    c.(members := c.members[n := member])
  }

  function PutRound<S>(c: Cluster<S>, n: ProcId, round: Option<Round<S>>): Cluster<S>
    requires IsPassive(c, n)
  {
    Put(c, n, c.members[n].(round := round))
  }

  function WriteAt<S>(c: Cluster<S>, n: ProcId, client: nat, argv: seq<Bytes>, clientReply: Option<Reply>): Cluster<S>
    requires IsActive(c, n)
  {
    var Active(d, cursor) := c.members[n];
    Put(c, n, Active(Broadcast(d, client, argv, clientReply), cursor)).(
    sent := c.sent + {WriteOp(d.id, d.nextRid, argv, clientReply)})
  }

  /** The acks added by a delivery: at most one. */
  function NewAcks<S>(n: ProcId, d: Driver<S>, d': Driver<S>): seq<Ack> {
    if |d'.answers| == |d.answers| + 1 && d'.answers[|d.answers|].requestId < |d.issued| then
      [Ack(n, d.issued[d'.answers[|d.answers|].requestId].op, d'.answers[|d.answers|])]
    else []
  }

  function DeliverTo<S>(m: Machine<S>, c: Cluster<S>, n: ProcId): Cluster<S>
    requires IsActive(c, n) && c.members[n].cursor < |c.order|
  {
    var Active(d, cursor) := c.members[n];
    var d' := Pump(m, d, c.order[cursor]);
    Put(c, n, Active(d', cursor + 1)).(acks := c.acks + NewAcks(n, d, d'))
  }

  /** A survivor answers the round of a rejoiner from its current state. */
  function ServeTo<S>(c: Cluster<S>, n: ProcId, survivor: ProcId, view: Option<View>): Cluster<S>
    requires InRound(c, n) && IsActive(c, survivor)
  {
    var round := c.members[n].round.value;
    PutRound(c, n, Some(round.(inflight := Some(Build(c.members[survivor].driver.node, round.have, view)))))
  }

  /** A rejoiner applies what it received; success ends the round, failure
      leaves it waiting for the next survivor with the same `have`. */
  function ReceiveAt<S>(m: Machine<S>, c: Cluster<S>, n: ProcId, got: Transfer<S>): Cluster<S>
    requires HasTransfer(c, n)
  {
    var Passive(node, synced, round) := c.members[n];
    var r := ApplyTransfer(m, node, got);
    Put(c, n, if r.ok then Passive(r.node, true, None)
              else Passive(r.node, synced, Some(round.value.(inflight := None))))
  }

  function Next<S(!new)>(m: Machine<S>, c: Cluster<S>, s: Step<S>): Cluster<S>
    requires Enabled(m, c, s)
  {
    match s
    case ClientWrite(n, client, argv, clientReply) => WriteAt(c, n, client, argv, clientReply)
    case Order(p) => c.(order := c.order + [p])
    case DeliverNext(n) => DeliverTo(m, c, n)
    case Crash(n) => Put(c, n, Down)
    case Restart(n, stale) => Put(c, n, Passive(Node(stale, map[], NewLog(DEFAULT_CAP)), false, None))
    case BeginRound(n) => PutRound(c, n, Some(Round(c.members[n].node.log.head, false, None)))
    case BeginPromotion(n) => PutRound(c, n, Some(Round(0, true, None)))
    case Serve(n, survivor, view) => ServeTo(c, n, survivor, view)
    case LoseTransfer(n) => PutRound(c, n, Some(c.members[n].round.value.(inflight := None)))
    case EndRound(n) => PutRound(c, n, None)
    case Receive(n, got) => ReceiveAt(m, c, n, got)
    case Promote(n, cursor) =>
      var r := ApplyTransfer(m, c.members[n].node, c.members[n].round.value.inflight.value);
      Put(c, n, Active(Start(n, r.node), cursor))
  }

  /** Every node cold-started on the same empty ring, or not running at all. */
  ghost predicate Init<S>(m: Machine<S>, c: Cluster<S>) {
    && c.sent == {} && c.order == [] && c.acks == []
    && forall n :: n in c.members ==>
         c.members[n] == Down || c.members[n] == Active(Start(n, InitNode(m, DEFAULT_CAP)), 0)
  }

  ghost predicate ValidRun<S(!new)>(m: Machine<S>, c: Cluster<S>, steps: seq<Step<S>>)
    decreases |steps|, 0
  {
    steps == [] ||
    (ValidRun(m, c, steps[..|steps| - 1]) && Enabled(m, After(m, c, steps[..|steps| - 1]), steps[|steps| - 1]))
  }

  ghost function After<S(!new)>(m: Machine<S>, c: Cluster<S>, steps: seq<Step<S>>): Cluster<S>
    requires ValidRun(m, c, steps)
    decreases |steps|, 1
  {
    if steps == [] then c
    else Next(m, After(m, c, steps[..|steps| - 1]), steps[|steps| - 1])
  }

  // ---------- the invariant ----------

  ghost predicate MemberOk<S>(m: Machine<S>, order: seq<Payload>, sent: set<WriteOp>, n: ProcId, member: Member<S>) {
    var total := Fresh({}, order);
    match member
    case Active(d, cursor) =>
      && d.id == n
      && Accounted(d)
      && (forall r :: 0 <= r < |d.issued| ==> d.issued[r].op in sent)
      && d.node.log.head <= |total|
      && At(m, d.node, total[..d.node.log.head])
      && Resumable(order, cursor, d.node.log.head)
    case Passive(node, synced, round) =>
      && RejoinerOk(m, node, synced, if round.Some? then round.value.have else 0, total)
      && (round.Some? && round.value.promoting ==> round.value.have == 0)
      && (round.Some? && round.value.inflight.Some? ==>
            Answers(m, round.value.inflight.value, total, round.value.have))
    case Down => true
  }

  ghost predicate AckOk<S>(m: Machine<S>, total: seq<WriteOp>, sent: set<WriteOp>, a: Ack) {
    && a.mine in sent
    && Key(a.mine) == Key(a.answer.op)
    && a.answer.at < |total|
    && total[a.answer.at] == a.answer.op
    && a.answer.reply == ReplyAt(m, total, a.answer.at)
  }

  ghost predicate OrderOk(order: seq<Payload>, sent: set<WriteOp>) {
    forall i :: 0 <= i < |order| && order[i].Op? ==> order[i].op in sent
  }

  ghost predicate Inv<S>(m: Machine<S>, c: Cluster<S>) {
    && OrderOk(c.order, c.sent)
    && (forall n :: n in c.members ==> MemberOk(m, c.order, c.sent, n, c.members[n]))
    && (forall i :: 0 <= i < |c.acks| ==> AckOk(m, Total(c), c.sent, c.acks[i]))
  }

  // ---------- facts about the order ----------

  lemma {:induction false} FreshIsDistinct(known: set<OpKey>, ps: seq<Payload>)
    ensures Distinct(Fresh(known, ps))
  {
    if ps != [] {
      var before := Fresh(known, ps[..|ps| - 1]);
      FreshIsDistinct(known, ps[..|ps| - 1]);
      forall i | 0 <= i < |before| ensures Key(before[i]) in Keys(before) {
      }
    }
  }

  lemma FreshAppend(known: set<OpKey>, ps: seq<Payload>, p: Payload)
    ensures Fresh(known, ps + [p]) ==
            Fresh(known, ps) + if p.Op? && Key(p.op) !in known + Keys(Fresh(known, ps)) then [p.op] else []
  {
    assert (ps + [p])[..|ps|] == ps;
  }

  lemma {:induction false} FreshPrefix(known: set<OpKey>, ps: seq<Payload>, i: nat)
    requires i <= |ps|
    ensures Fresh(known, ps[..i]) <= Fresh(known, ps)
  {
    if i == |ps| {
      assert ps[..i] == ps;
    } else {
      FreshPrefix(known, ps[..|ps| - 1], i);
      assert ps[..|ps| - 1][..i] == ps[..i];
    }
  }

  lemma {:induction false} FreshWasSent(order: seq<Payload>, sent: set<WriteOp>)
    requires OrderOk(order, sent)
    ensures forall i :: 0 <= i < |Fresh({}, order)| ==> Fresh({}, order)[i] in sent
  {
    if order != [] {
      FreshWasSent(order[..|order| - 1], sent);
    }
  }

  // ---------- one delivery ----------

  /** Growing the order leaves the part up to a node's position alone. */
  lemma GrownOrder(order: seq<Payload>, more: seq<Payload>, h: nat)
    requires h <= |Fresh({}, order)|
    ensures var total := Fresh({}, order);
            var total' := Fresh({}, order + more);
            && total' == total + Fresh(Keys(total), more)
            && total'[..h] == total[..h]
            && total'[h..] == total[h..] + Fresh(Keys(total), more)
  {
    FreshConcat({}, order, more);
    assert {} + Keys(Fresh({}, order)) == Keys(Fresh({}, order));
  }

  lemma GrownStream(known: set<OpKey>, order: seq<Payload>, more: seq<Payload>, cursor: nat)
    requires cursor <= |order|
    ensures var news := Fresh(known, order[cursor..]);
            Fresh(known, (order + more)[cursor..]) == news + Fresh(known + Keys(news), more)
  {
    FreshConcat(known, order[cursor..], more);
    assert (order + more)[cursor..] == order[cursor..] + more;
  }

  lemma ResumableGrows(order: seq<Payload>, more: seq<Payload>, cursor: nat, h: nat)
    requires Resumable(order, cursor, h)
    ensures Resumable(order + more, cursor, h)
  {
    var total := Fresh({}, order);
    GrownOrder(order, more, h);
    GrownStream(Keys(total[..h]), order, more, cursor);
    SplitKeys(total, h);
  }

  lemma SplitKeys(total: seq<WriteOp>, h: nat)
    requires h <= |total|
    ensures Keys(total[..h]) + Keys(total[h..]) == Keys(total)
  {
    KeysOfConcat(total[..h], total[h..]);
    assert total == total[..h] + total[h..];
  }

  /** The payload under the cursor is undecodable, known to the node, or exactly the
      operation at the node's position in the order. */
  lemma ResumableStep(order: seq<Payload>, cursor: nat, h: nat)
    requires Resumable(order, cursor, h) && cursor < |order|
    ensures var total := Fresh({}, order);
            var p := order[cursor];
            if p.Op? && Key(p.op) !in Keys(total[..h]) then
              h < |total| && total[h] == p.op && Resumable(order, cursor + 1, h + 1)
            else Resumable(order, cursor + 1, h)
  {
    var total, p, rest := Fresh({}, order), order[cursor], order[cursor + 1..];
    assert order[cursor..] == [p] + rest;
    FreshHead(Keys(total[..h]), p, rest);
    if p.Op? && Key(p.op) !in Keys(total[..h]) {
      assert total[h] == total[h..][0] == p.op;
      KeysAppend(total[..h], p.op);
      assert total[..h + 1] == total[..h] + [p.op];
      assert total[h + 1..] == total[h..][1..];
    }
  }

  /** A node in a prefix state from which the stream can be resumed stays so. */
  lemma DeliverKeepsPrefix<S>(m: Machine<S>, node: Node<S>, order: seq<Payload>, cursor: nat)
    requires cursor < |order| && Resumable(order, cursor, node.log.head)
    requires At(m, node, Fresh({}, order)[..node.log.head])
    ensures var node' := DeliverPayload(m, node, order[cursor]);
            var total := Fresh({}, order);
            && node.log.head <= node'.log.head <= |total|
            && At(m, node', total[..node'.log.head])
            && Resumable(order, cursor + 1, node'.log.head)
    ensures order[cursor].Op? && Deliver(m, node, order[cursor].op).1.Some? ==>
              && node.log.head < |Fresh({}, order)|
              && Fresh({}, order)[node.log.head] == order[cursor].op
              && Deliver(m, node, order[cursor].op).1.value == ReplyAt(m, Fresh({}, order), node.log.head)
  {
    var total, h, p := Fresh({}, order), node.log.head, order[cursor];
    var base :| AtFrom(m, node, total[..h], base);
    ResumableStep(order, cursor, h);
    if p.Op? {
      if Key(p.op) in Keys(total[..h]) {
        DeliverStep(m, node, total[..h], base, p.op);
      } else {
        FreshIsDistinct({}, order);
        DeliverAtIndex(m, node, total, h, base, h);
      }
    }
  }

  // ---------- every step keeps the invariant ----------

  lemma InitInv<S>(m: Machine<S>, c: Cluster<S>)
    requires Init(m, c)
    ensures Inv(m, c)
  {
    InitIsAt(m, DEFAULT_CAP);
    forall n | n in c.members ensures MemberOk(m, c.order, c.sent, n, c.members[n]) {
      assert AtFrom(m, InitNode(m, DEFAULT_CAP), Fresh({}, [])[..0], 0);
    }
  }

  /** A member stays fine when the order and the set of broadcasts grow. */
  lemma MemberStable<S>(m: Machine<S>, order: seq<Payload>, more: seq<Payload>, sent: set<WriteOp>, sent': set<WriteOp>, n: ProcId, member: Member<S>)
    requires MemberOk(m, order, sent, n, member) && sent <= sent'
    ensures MemberOk(m, order + more, sent', n, member)
  {
    var total, total' := Fresh({}, order), Fresh({}, order + more);
    FreshPrefix({}, order + more, |order|);
    assert (order + more)[..|order|] == order;
    var rest := total'[|total|..];
    assert total' == total + rest;
    match member
    case Active(d, cursor) =>
      assert total'[..d.node.log.head] == total[..d.node.log.head];
      ResumableGrows(order, more, cursor, d.node.log.head);
    case Passive(node, synced, round) =>
      if synced {
        assert total'[..node.log.head] == total[..node.log.head];
      }
      if round.Some? && round.value.inflight.Some? {
        AnswersStable(m, round.value.inflight.value, total, rest, round.value.have);
      }
    case Down =>
  }

  lemma AckStable<S>(m: Machine<S>, order: seq<Payload>, more: seq<Payload>, sent: set<WriteOp>, sent': set<WriteOp>, a: Ack)
    requires AckOk(m, Fresh({}, order), sent, a) && sent <= sent'
    ensures AckOk(m, Fresh({}, order + more), sent', a)
  {
    var total, total' := Fresh({}, order), Fresh({}, order + more);
    FreshPrefix({}, order + more, |order|);
    assert (order + more)[..|order|] == order;
    assert total' == total + total'[|total|..];
    ReplyAtStable(m, total, total'[|total|..], a.answer.at);
  }

  /** Replacing one member by a fine one keeps the invariant. */
  lemma PutInv<S>(m: Machine<S>, c: Cluster<S>, n: ProcId, member: Member<S>)
    requires Inv(m, c) && MemberOk(m, c.order, c.sent, n, member)
    ensures Inv(m, Put(c, n, member))
  {
    var c' := Put(c, n, member);
    forall k | k in c'.members ensures MemberOk(m, c'.order, c'.sent, k, c'.members[k]) {
      if k != n {
        assert MemberOk(m, c.order, c.sent, k, c.members[k]);
      }
    }
    assert Total(c') == Total(c);
  }

  lemma GrowInv<S>(m: Machine<S>, c: Cluster<S>, more: seq<Payload>, sent': set<WriteOp>)
    requires Inv(m, c) && c.sent <= sent' && OrderOk(more, sent')
    ensures Inv(m, c.(order := c.order + more, sent := sent'))
  {
    forall n | n in c.members ensures MemberOk(m, c.order + more, sent', n, c.members[n]) {
      MemberStable(m, c.order, more, c.sent, sent', n, c.members[n]);
    }
    forall i | 0 <= i < |c.acks| ensures AckOk(m, Fresh({}, c.order + more), sent', c.acks[i]) {
      AckStable(m, c.order, more, c.sent, sent', c.acks[i]);
    }
  }

  lemma WriteInv<S>(m: Machine<S>, c: Cluster<S>, n: ProcId, client: nat, argv: seq<Bytes>, clientReply: Option<Reply>)
    requires Inv(m, c) && IsActive(c, n)
    ensures Inv(m, WriteAt(c, n, client, argv, clientReply))
  {
    var Active(d, cursor) := c.members[n];
    var op := WriteOp(d.id, d.nextRid, argv, clientReply);
    var grown := c.(order := c.order + [], sent := c.sent + {op});
    GrowInv(m, c, [], c.sent + {op});
    assert c.order + [] == c.order;
    BroadcastAccounted(d, client, argv, clientReply);
    assert MemberOk(m, grown.order, grown.sent, n, c.members[n]);
    PutInv(m, grown, n, Active(Broadcast(d, client, argv, clientReply), cursor));
    assert WriteAt(c, n, client, argv, clientReply) == Put(grown, n, Active(Broadcast(d, client, argv, clientReply), cursor));
  }

  lemma PumpNode<S>(m: Machine<S>, d: Driver<S>, p: Payload)
    ensures Pump(m, d, p).node == DeliverPayload(m, d.node, p)
    ensures Pump(m, d, p).id == d.id && Pump(m, d, p).issued == d.issued
  {
  }

  lemma PumpKeepsMember<S>(m: Machine<S>, order: seq<Payload>, sent: set<WriteOp>, n: ProcId, d: Driver<S>, cursor: nat)
    requires MemberOk(m, order, sent, n, Active(d, cursor)) && cursor < |order|
    ensures MemberOk(m, order, sent, n, Active(Pump(m, d, order[cursor]), cursor + 1))
  {
    PumpNode(m, d, order[cursor]);
    PumpAccounted(m, d, order[cursor]);
    DeliverKeepsPrefix(m, d.node, order, cursor);
  }

  lemma DeliverInv<S>(m: Machine<S>, c: Cluster<S>, n: ProcId)
    requires Inv(m, c) && IsActive(c, n) && c.members[n].cursor < |c.order|
    ensures Inv(m, DeliverTo(m, c, n))
  {
    var Active(d, cursor) := c.members[n];
    assert MemberOk(m, c.order, c.sent, n, c.members[n]);
    PumpKeepsMember(m, c.order, c.sent, n, d, cursor);
    var d' := Pump(m, d, c.order[cursor]);
    PutInv(m, c, n, Active(d', cursor + 1));
    NewAcksOk(m, c, n);
    AcksInv(m, Put(c, n, Active(d', cursor + 1)), NewAcks(n, d, d'));
  }

  lemma AcksInv<S>(m: Machine<S>, c: Cluster<S>, news: seq<Ack>)
    requires Inv(m, c) && forall i :: 0 <= i < |news| ==> AckOk(m, Total(c), c.sent, news[i])
    ensures Inv(m, c.(acks := c.acks + news))
  {
  }

  lemma NewAcksOk<S>(m: Machine<S>, c: Cluster<S>, n: ProcId)
    requires Inv(m, c) && IsActive(c, n) && c.members[n].cursor < |c.order|
    ensures var d := c.members[n].driver;
            var news := NewAcks(n, d, Pump(m, d, c.order[c.members[n].cursor]));
            forall i :: 0 <= i < |news| ==> AckOk(m, Total(c), c.sent, news[i])
  {
    var Active(d, cursor) := c.members[n];
    assert MemberOk(m, c.order, c.sent, n, c.members[n]);
    DeliverKeepsPrefix(m, d.node, c.order, cursor);
  }

  lemma ReceiveInv<S>(m: Machine<S>, c: Cluster<S>, n: ProcId, got: Transfer<S>)
    requires Inv(m, c) && HasTransfer(c, n) && Damaged(c.members[n].round.value.inflight.value, got)
    ensures Inv(m, ReceiveAt(m, c, n, got))
  {
    var Passive(node, synced, round) := c.members[n];
    assert MemberOk(m, c.order, c.sent, n, c.members[n]);
    FreshIsDistinct({}, c.order);
    TransferKeepsRejoiner(m, node, synced, round.value.have, Total(c), round.value.inflight.value, got);
    PutInv(m, c, n, ReceiveAt(m, c, n, got).members[n]);
  }

  lemma PromoteInv<S(!new)>(m: Machine<S>, c: Cluster<S>, n: ProcId, cursor: nat)
    requires Inv(m, c) && Enabled(m, c, Promote(n, cursor))
    ensures Inv(m, Next(m, c, Promote(n, cursor)))
  {
    var Passive(node, synced, round) := c.members[n];
    assert MemberOk(m, c.order, c.sent, n, c.members[n]);
    var x := round.value.inflight.value;
    FreshIsDistinct({}, c.order);
    TransferKeepsRejoiner(m, node, synced, round.value.have, Total(c), x, x);
    PutInv(m, c, n, Active(Start(n, ApplyTransfer(m, node, x).node), cursor));
  }

  lemma ServedAnswers<S>(m: Machine<S>, node: Node<S>, total: seq<WriteOp>, have: nat, view: Option<View>)
    requires node.log.head <= |total| && At(m, node, total[..node.log.head])
    ensures Answers(m, Build(node, have, view), total, have)
  {
    var h := node.log.head;
    BuildAnswers(m, node, total[..h], have, view);
    AnswersStable(m, Build(node, have, view), total[..h], total[h..], have);
    assert total[..h] + total[h..] == total;
  }

  lemma InflightInv<S>(m: Machine<S>, c: Cluster<S>, n: ProcId, x: Transfer<S>)
    requires Inv(m, c) && InRound(c, n) && Answers(m, x, Total(c), c.members[n].round.value.have)
    ensures Inv(m, PutRound(c, n, Some(c.members[n].round.value.(inflight := Some(x)))))
  {
    assert MemberOk(m, c.order, c.sent, n, c.members[n]);
    PutInv(m, c, n, c.members[n].(round := Some(c.members[n].round.value.(inflight := Some(x)))));
  }

  lemma ServeInv<S>(m: Machine<S>, c: Cluster<S>, n: ProcId, survivor: ProcId, view: Option<View>)
    requires Inv(m, c) && InRound(c, n) && IsActive(c, survivor)
    ensures Inv(m, ServeTo(c, n, survivor, view))
  {
    assert MemberOk(m, c.order, c.sent, survivor, c.members[survivor]);
    var have := c.members[n].round.value.have;
    ServedAnswers(m, c.members[survivor].driver.node, Total(c), have, view);
    InflightInv(m, c, n, Build(c.members[survivor].driver.node, have, view));
  }

  lemma NextInv<S(!new)>(m: Machine<S>, c: Cluster<S>, s: Step<S>)
    requires Inv(m, c) && Enabled(m, c, s)
    ensures Inv(m, Next(m, c, s))
  {
    match s
    case ClientWrite(n, client, argv, clientReply) => WriteInv(m, c, n, client, argv, clientReply);
    case Order(p) => GrowInv(m, c, [p], c.sent);
    case DeliverNext(n) => DeliverInv(m, c, n);
    case Crash(n) => PutInv(m, c, n, Down);
    case Restart(n, stale) => PutInv(m, c, n, Next(m, c, s).members[n]);
    case Serve(n, survivor, view) => ServeInv(m, c, n, survivor, view);
    case Receive(n, got) => ReceiveInv(m, c, n, got);
    case Promote(n, cursor) => PromoteInv(m, c, n, cursor);
    case BeginRound(n) => RoundInv(m, c, n, Next(m, c, s).members[n].round);
    case BeginPromotion(n) => RoundInv(m, c, n, Next(m, c, s).members[n].round);
    case LoseTransfer(n) => RoundInv(m, c, n, Next(m, c, s).members[n].round);
    case EndRound(n) => RoundInv(m, c, n, Next(m, c, s).members[n].round);
  }

  /** Rounds may begin, end or lose their transfer at any time. */
  lemma RoundInv<S>(m: Machine<S>, c: Cluster<S>, n: ProcId, round: Option<Round<S>>)
    requires Inv(m, c) && IsPassive(c, n)
    requires round.Some? ==> round.value.inflight.None?
    requires round.Some? && round.value.have != 0 ==>
               && !round.value.promoting
               && (|| round.value.have == c.members[n].node.log.head
                   || (c.members[n].round.Some? && round.value.have == c.members[n].round.value.have))
    ensures Inv(m, PutRound(c, n, round))
  {
    assert MemberOk(m, c.order, c.sent, n, c.members[n]);
    PutInv(m, c, n, c.members[n].(round := round));
  }

  // ---------- whole runs ----------

  /** The safety theorem: in every state of every run, every active node and
      every rejoiner that ever completed a transfer is in a prefix state of the
      one order, and every acknowledgement is accounted for by that order. */
  lemma {:induction false} RunInv<S(!new)>(m: Machine<S>, c: Cluster<S>, steps: seq<Step<S>>)
    requires Init(m, c) && ValidRun(m, c, steps)
    ensures Inv(m, After(m, c, steps))
    decreases |steps|
  {
    if steps == [] {
      InitInv(m, c);
    } else {
      RunInv(m, c, steps[..|steps| - 1]);
      NextInv(m, After(m, c, steps[..|steps| - 1]), steps[|steps| - 1]);
    }
  }
}
