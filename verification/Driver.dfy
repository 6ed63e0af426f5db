/** The proxy driver on values: issuing ids to client writes, applying the
    delivered stream, and answering the waiting clients. */
module Driver {
  import opened Wire
  import opened Dedup
  import opened DeliveredLog
  import opened Replication

  /** A broadcast write and the client waiting for it. */
  datatype Issued = Issued(client: nat, op: WriteOp)

  /** An answer sent to a client: which request, which delivered operation woke
      it, at which log index that operation was applied, and the reply. */
  datatype Answer = Answer(client: nat, requestId: nat, op: WriteOp, at: nat, reply: Reply)

  /** `issued` and `answers` record the history of this incarnation. */
  datatype Driver<S> = Driver(
    id: ProcId,
    node: Node<S>,
    nextRid: nat,
    pending: map<nat, nat>,
    issued: seq<Issued>,
    answers: seq<Answer>)

  /** A driver starting on a given node state: a cold start when the node is
      fresh, a promotion when it was seeded by a state transfer. Ids restart at 0. */
  function Start<S>(id: ProcId, node: Node<S>): Driver<S> {
    Driver(id, node, 0, map[], [], [])
  }

  /** Assign the next id to a write and broadcast it. */
  function Broadcast<S>(d: Driver<S>, client: nat, argv: seq<Bytes>, clientReply: Option<Reply>): Driver<S> {
    var op := WriteOp(d.id, d.nextRid, argv, clientReply);
    d.(nextRid := d.nextRid + 1,
       pending := d.pending[d.nextRid := client],
       issued := d.issued + [Issued(client, op)])
  }

  /** Apply one delivered payload; if it is new and carries an id this node is
      waiting for, answer that client. */
  function Pump<S>(m: Machine<S>, d: Driver<S>, p: Payload): Driver<S> {
    if p.Garbage? then d else
      var (node, reply) := Deliver(m, d.node, p.op);
      var d' := d.(node := node);
      if reply.None? || p.op.origin != d.id || p.op.requestId !in d.pending then d' else
        var answer := Answer(d.pending[p.op.requestId], p.op.requestId, p.op, d.node.log.head, reply.value);
        d'.(pending := d.pending - {p.op.requestId}, answers := d.answers + [answer])
  }

  function PumpAll<S>(m: Machine<S>, d: Driver<S>, ps: seq<Payload>): Driver<S> {
    if ps == [] then d else Pump(m, PumpAll(m, d, ps[..|ps| - 1]), ps[|ps| - 1])
  }

  datatype Event = Write(client: nat, argv: seq<Bytes>, clientReply: Option<Reply>) | Delivered(p: Payload)

  function Step<S>(m: Machine<S>, d: Driver<S>, e: Event): Driver<S> {
    match e
    case Write(client, argv, clientReply) => Broadcast(d, client, argv, clientReply)
    case Delivered(p) => Pump(m, d, p)
  }

  function Run<S>(m: Machine<S>, d: Driver<S>, es: seq<Event>): Driver<S> {
    if es == [] then d else Step(m, Run(m, d, es[..|es| - 1]), es[|es| - 1])
  }

  // ---------- every issued id is pending or answered, never both ----------

  ghost predicate Accounted<S>(d: Driver<S>) {
    && d.nextRid == |d.issued|
    && (forall r :: 0 <= r < |d.issued| ==> Key(d.issued[r].op) == (d.id, r))
    && (forall r :: r in d.pending ==> r < |d.issued| && d.pending[r] == d.issued[r].client)
    && (forall i :: 0 <= i < |d.answers| ==> AnswerOk(d, d.answers[i]))
    && (forall i, j :: 0 <= i < j < |d.answers| ==> d.answers[i].requestId != d.answers[j].requestId)
    && (forall r :: 0 <= r < |d.issued| && r !in d.pending ==> IsAnswered(d, r))
  }

  ghost predicate AnswerOk<S>(d: Driver<S>, a: Answer) {
    && a.requestId < |d.issued|
    && a.requestId !in d.pending
    && a.client == d.issued[a.requestId].client
    && Key(a.op) == (d.id, a.requestId)
  }

  ghost predicate IsAnswered<S>(d: Driver<S>, r: nat) {
    exists i :: 0 <= i < |d.answers| && d.answers[i].requestId == r
  }

  /** Answering one waiting client keeps the books. */
  lemma AnswerAccounted<S>(d: Driver<S>, d': Driver<S>, a: Answer)
    requires Accounted(d) && a.requestId in d.pending && Key(a.op) == (d.id, a.requestId)
    requires a.client == d.pending[a.requestId]
    requires d'.id == d.id && d'.nextRid == d.nextRid && d'.issued == d.issued
    requires d'.pending == d.pending - {a.requestId} && d'.answers == d.answers + [a]
    ensures Accounted(d')
  {
    forall q | 0 <= q < |d'.issued| && q !in d'.pending ensures IsAnswered(d', q) {
      if q == a.requestId {
        assert d'.answers[|d.answers|].requestId == q;
      } else {
        assert IsAnswered(d, q);
        var i :| 0 <= i < |d.answers| && d.answers[i].requestId == q;
        assert d'.answers[i].requestId == q;
      }
    }
    forall i | 0 <= i < |d'.answers| ensures AnswerOk(d', d'.answers[i]) {
      if i < |d.answers| {
        assert AnswerOk(d, d.answers[i]);
      }
    }
  }

  /** A change of the node alone keeps the books. */
  lemma NodeAccounted<S>(d: Driver<S>, node: Node<S>)
    requires Accounted(d)
    ensures Accounted(d.(node := node))
  {
    var d' := d.(node := node);
    forall i | 0 <= i < |d'.answers| ensures AnswerOk(d', d'.answers[i]) {
      assert AnswerOk(d, d.answers[i]);
    }
    forall q | 0 <= q < |d'.issued| && q !in d'.pending ensures IsAnswered(d', q) {
      assert IsAnswered(d, q);
      var i :| 0 <= i < |d.answers| && d.answers[i].requestId == q;
      assert d'.answers[i].requestId == q;
    }
  }

  lemma PumpAccounted<S>(m: Machine<S>, d: Driver<S>, p: Payload)
    requires Accounted(d)
    ensures Accounted(Pump(m, d, p))
  {
    var d' := Pump(m, d, p);
    if d'.answers != d.answers {
      AnswerAccounted(d, d', d'.answers[|d.answers|]);
    } else {
      NodeAccounted(d, d'.node);
    }
  }

  lemma BroadcastAccounted<S>(d: Driver<S>, client: nat, argv: seq<Bytes>, clientReply: Option<Reply>)
    requires Accounted(d)
    ensures Accounted(Broadcast(d, client, argv, clientReply))
  {
    var d' := Broadcast(d, client, argv, clientReply);
    forall i | 0 <= i < |d'.answers| ensures AnswerOk(d', d'.answers[i]) {
      assert AnswerOk(d, d.answers[i]);
    }
    forall q | 0 <= q < |d'.issued| && q !in d'.pending ensures IsAnswered(d', q) {
      assert IsAnswered(d, q);
      var i :| 0 <= i < |d.answers| && d.answers[i].requestId == q;
      assert d'.answers[i].requestId == q;
    }
  }

  /** Whatever the ring delivers, in every reachable driver state every issued
      id is either waiting or has been answered exactly once, to its own client. */
  lemma {:induction false} RunAccounted<S>(m: Machine<S>, id: ProcId, node: Node<S>, es: seq<Event>)
    ensures Accounted(Run(m, Start(id, node), es))
  {
    if es != [] {
      var before := Run(m, Start(id, node), es[..|es| - 1]);
      RunAccounted(m, id, node, es[..|es| - 1]);
      match es[|es| - 1]
      case Write(client, argv, clientReply) => BroadcastAccounted(before, client, argv, clientReply);
      case Delivered(p) => PumpAccounted(m, before, p);
    }
  }

  // ---------- who is answered, said directly ----------

  /** `a` answers `client` under `key` with an operation delivered in `ps`. */
  ghost predicate AnsweredUnder(a: Answer, client: nat, key: OpKey, ps: seq<Payload>) {
    a.client == client && a.requestId == key.1 && Key(a.op) == key && Op(a.op) in ps
  }

  /** One delivery keeps the waiting clients, but for the one it answers. */
  lemma PumpWaits<S>(m: Machine<S>, d: Driver<S>, p: Payload)
    ensures var d' := Pump(m, d, p);
            && d'.id == d.id
            && if d'.answers == d.answers then d'.pending == d.pending else
                 && p.Op? && p.op.origin == d.id && p.op.requestId in d.pending
                 && d'.pending == d.pending - {p.op.requestId}
                 && |d'.answers| == |d.answers| + 1 && d'.answers[..|d.answers|] == d.answers
                 && AnsweredUnder(d'.answers[|d.answers|], d.pending[p.op.requestId], Key(p.op), [p])
  {
  }

  /** A waiting client goes on waiting, or is answered with an operation that was
      delivered under its id. */
  lemma {:induction false} WaitsOrIsAnswered<S>(m: Machine<S>, d: Driver<S>, ps: seq<Payload>, r: nat)
    requires r in d.pending
    ensures var d' := PumpAll(m, d, ps);
            && d'.id == d.id && d.answers <= d'.answers
            && (if r in d'.pending then d'.pending[r] == d.pending[r]
                else exists i :: |d.answers| <= i < |d'.answers| && AnsweredUnder(d'.answers[i], d.pending[r], (d.id, r), ps))
  {
    if ps != [] {
      var before, p := ps[..|ps| - 1], ps[|ps| - 1];
      var mid, d' := PumpAll(m, d, before), PumpAll(m, d, ps);
      WaitsOrIsAnswered(m, d, before, r);
      PumpWaits(m, mid, p);
      assert p in ps;
      if r in mid.pending {
        if r !in d'.pending {
          assert AnsweredUnder(d'.answers[|mid.answers|], d.pending[r], (d.id, r), ps);
        }
      } else {
        var i :| |d.answers| <= i < |mid.answers| && AnsweredUnder(mid.answers[i], d.pending[r], (d.id, r), before);
        assert d'.answers[i] == mid.answers[i];
        assert AnsweredUnder(d'.answers[i], d.pending[r], (d.id, r), ps);
      }
    }
  }

  /** A client of this node is waiting for `op`. */
  predicate Awaited(id: ProcId, pending: map<nat, nat>, op: WriteOp) {
    op.origin == id && op.requestId in pending
  }

  /** What such a client is to be told when `op` is applied at log index `at`. */
  function AnswerTo(pending: map<nat, nat>, op: WriteOp, at: nat, reply: Reply): Answer
    requires op.requestId in pending
  {
    Answer(pending[op.requestId], op.requestId, op, at, reply)
  }

  /** `a` answers the client that waited for the i-th of `news`. */
  ghost predicate OwedFor(id: ProcId, pending: map<nat, nat>, at: nat, news: seq<WriteOp>, replies: seq<Reply>, i: nat, a: Answer)
    requires |replies| == |news|
  {
    i < |news| && Awaited(id, pending, news[i]) && a == AnswerTo(pending, news[i], at + i, replies[i])
  }

  /** `woken` are the answers owed for `news`, no more and no fewer. */
  ghost predicate Wakes(id: ProcId, pending: map<nat, nat>, at: nat, news: seq<WriteOp>, replies: seq<Reply>, woken: seq<Answer>)
    requires |replies| == |news|
  {
    && (forall a :: a in woken ==> exists i :: OwedFor(id, pending, at, news, replies, i, a))
    && (forall i :: 0 <= i < |news| && Awaited(id, pending, news[i]) ==> AnswerTo(pending, news[i], at + i, replies[i]) in woken)
  }

  /** A part of the waiting clients, by the ids that are not in `keys`. */
  ghost predicate Remain(id: ProcId, pending: map<nat, nat>, keys: set<OpKey>, now: map<nat, nat>) {
    && (forall r :: r in now <==> r in pending && (id, r) !in keys)
    && (forall r :: r in now ==> now[r] == pending[r])
  }

  /** The driver executed `news`, in order and once each, and woke exactly the clients
      that waited for them, with the replies that they earned. */
  ghost predicate Pumped<S>(m: Machine<S>, d: Driver<S>, news: seq<WriteOp>, d': Driver<S>, woken: seq<Answer>,
                            states: seq<S>, replies: seq<Reply>)
  {
    && Trace(m, news, states, replies)
    && states[0] == d.node.store && states[|news|] == d'.node.store
    && d'.node.log.head == d.node.log.head + |news|
    && d'.answers == d.answers + woken
    && Wakes(d.id, d.pending, d.node.log.head, news, replies, woken)
    && Remain(d.id, d.pending, Keys(news), d'.pending)
  }

  lemma WakesGrow(id: ProcId, pending: map<nat, nat>, at: nat, news: seq<WriteOp>, replies: seq<Reply>, woken: seq<Answer>,
                  op: WriteOp, reply: Reply)
    requires |replies| == |news| && Wakes(id, pending, at, news, replies, woken)
    ensures Wakes(id, pending, at, news + [op], replies + [reply],
                  woken + if Awaited(id, pending, op) then [AnswerTo(pending, op, at + |news|, reply)] else [])
  {
    var news', replies' := news + [op], replies + [reply];
    var last := if Awaited(id, pending, op) then [AnswerTo(pending, op, at + |news|, reply)] else [];
    forall a | a in woken + last ensures exists i :: OwedFor(id, pending, at, news', replies', i, a) {
      if a in woken {
        var i :| OwedFor(id, pending, at, news, replies, i, a);
        assert OwedFor(id, pending, at, news', replies', i, a);
      } else {
        assert OwedFor(id, pending, at, news', replies', |news|, a);
      }
    }
  }

  /** What one delivery of a new operation does. */
  ghost predicate PumpsNew<S>(m: Machine<S>, mid: Driver<S>, op: WriteOp, d': Driver<S>, reply: Reply) {
    && Executed(m, op, mid.node.store, d'.node.store, reply)
    && d'.node.log.head == mid.node.log.head + 1
    && d'.answers == mid.answers +
                     (if Awaited(mid.id, mid.pending, op) then [AnswerTo(mid.pending, op, mid.node.log.head, reply)] else [])
    && d'.pending == (if Awaited(mid.id, mid.pending, op) then mid.pending - {op.requestId} else mid.pending)
  }

  lemma PumpExecutes<S>(m: Machine<S>, mid: Driver<S>, op: WriteOp) returns (reply: Reply)
    requires Canonical(mid.node.dedup) && Key(op) !in Applied(mid.node.dedup)
    ensures PumpsNew(m, mid, op, Pump(m, mid, Op(op)), reply)
  {
    DeliverExecutes(m, mid.node, op);
    reply := Deliver(m, mid.node, op).1.value;
  }

  lemma RemainOne(id: ProcId, pending: map<nat, nat>, keys: set<OpKey>, now: map<nat, nat>, op: WriteOp)
    requires Remain(id, pending, keys, now) && Key(op) !in keys
    ensures Awaited(id, pending, op) <==> Awaited(id, now, op)
    ensures Awaited(id, now, op) ==> now[op.requestId] == pending[op.requestId]
    ensures Remain(id, pending, keys + {Key(op)}, if Awaited(id, now, op) then now - {op.requestId} else now)
  {
  }

  /** Pumping one more new operation. */
  lemma PumpedOne<S>(m: Machine<S>, d: Driver<S>, news: seq<WriteOp>, mid: Driver<S>, woken: seq<Answer>,
                     states: seq<S>, replies: seq<Reply>, op: WriteOp, d': Driver<S>, reply: Reply)
      returns (woken': seq<Answer>)
    requires Pumped(m, d, news, mid, woken, states, replies) && mid.id == d.id
    requires PumpsNew(m, mid, op, d', reply) && Key(op) !in Keys(news)
    ensures Pumped(m, d, news + [op], d', woken', states + [d'.node.store], replies + [reply])
  {
    var at := d.node.log.head;
    RemainOne(d.id, d.pending, Keys(news), mid.pending, op);
    var last := if Awaited(d.id, d.pending, op) then [AnswerTo(d.pending, op, at + |news|, reply)] else [];
    assert d'.answers == mid.answers + last;
    assert d.answers + woken + last == d.answers + (woken + last);
    TraceGrows(m, news, states, replies, op, d'.node.store, reply);
    KeysAppend(news, op);
    WakesGrow(d.id, d.pending, at, news, replies, woken, op, reply);
    woken' := woken + last;
  }

  /** Pumping one more payload that is none, or that repeats an operation. */
  lemma PumpedNothing<S>(m: Machine<S>, d: Driver<S>, ps: seq<Payload>, mid: Driver<S>, p: Payload)
    requires Canonical(mid.node.dedup) && Applied(mid.node.dedup) == Applied(d.node.dedup) + Keys(Fresh(Applied(d.node.dedup), ps))
    requires p.Op? ==> Key(p.op) in Applied(mid.node.dedup)
    ensures Pump(m, mid, p) == mid && Fresh(Applied(d.node.dedup), ps + [p]) == Fresh(Applied(d.node.dedup), ps)
  {
    assert (ps + [p])[..|ps|] == ps;
    if p.Op? {
      DeliverExecutes(m, mid.node, p.op);
    }
  }

  lemma {:induction false} PumpAllNode<S>(m: Machine<S>, d: Driver<S>, ps: seq<Payload>)
    ensures PumpAll(m, d, ps).node == DeliverAll(m, d.node, ps) && PumpAll(m, d, ps).id == d.id
  {
    if ps != [] {
      PumpAllNode(m, d, ps[..|ps| - 1]);
    }
  }

  lemma FreshLast(known: set<OpKey>, ps: seq<Payload>, op: WriteOp)
    requires Key(op) !in known + Keys(Fresh(known, ps))
    ensures Fresh(known, ps + [Op(op)]) == Fresh(known, ps) + [op]
  {
    assert (ps + [Op(op)])[..|ps|] == ps;
  }

  /** Pumping a stream executes its new operations. */
  lemma {:induction false} PumpAllPumps<S>(m: Machine<S>, d: Driver<S>, ps: seq<Payload>)
      returns (woken: seq<Answer>, states: seq<S>, replies: seq<Reply>)
    requires Canonical(d.node.dedup)
    ensures Pumped(m, d, Fresh(Applied(d.node.dedup), ps), PumpAll(m, d, ps), woken, states, replies)
  {
    if ps == [] {
      woken, states, replies := [], [d.node.store], [];
      assert d.answers + [] == d.answers;
    } else {
      var before, p := ps[..|ps| - 1], ps[|ps| - 1];
      var mid, d' := PumpAll(m, d, before), PumpAll(m, d, ps);
      woken, states, replies := PumpAllPumps(m, d, before);
      PumpAllNode(m, d, before);
      var _, _ := DeliverAllTrace(m, d.node, before);
      assert ps == before + [p];
      if p.Op? && Key(p.op) !in Applied(mid.node.dedup) {
        var reply := PumpExecutes(m, mid, p.op);
        FreshLast(Applied(d.node.dedup), before, p.op);
        woken := PumpedOne(m, d, Fresh(Applied(d.node.dedup), before), mid, woken, states, replies, p.op, d', reply);
        states, replies := states + [d'.node.store], replies + [reply];
      } else {
        PumpedNothing(m, d, before, mid, p);
      }
    }
  }

  /** The client writes of a run, in order. */
  function Writes(es: seq<Event>): seq<Event> {
    if es == [] then [] else
      var before := Writes(es[..|es| - 1]);
      if es[|es| - 1].Write? then before + [es[|es| - 1]] else before
  }

  /** The i-th write of a run is broadcast under id i, with its own arguments, on behalf
      of its own client. */
  lemma {:induction false} WritesAreIssued<S>(m: Machine<S>, id: ProcId, node: Node<S>, es: seq<Event>)
    ensures |Run(m, Start(id, node), es).issued| == |Writes(es)|
    ensures forall i :: 0 <= i < |Writes(es)| ==>
              && Writes(es)[i].Write?
              && var w := Writes(es)[i];
                 Run(m, Start(id, node), es).issued[i] == Issued(w.client, WriteOp(id, i, w.argv, w.clientReply))
  {
    if es != [] {
      var before := es[..|es| - 1];
      WritesAreIssued(m, id, node, before);
      RunAccounted(m, id, node, before);
      RunKeepsId(m, Start(id, node), before);
    }
  }

  /** Every answer of a run goes to the client of the write with its id. */
  lemma AnswersReachWriters<S>(m: Machine<S>, id: ProcId, node: Node<S>, es: seq<Event>, i: nat)
    requires i < |Run(m, Start(id, node), es).answers|
    ensures var a := Run(m, Start(id, node), es).answers[i];
            && a.requestId < |Writes(es)| && Writes(es)[a.requestId].Write?
            && a.client == Writes(es)[a.requestId].client
  {
    var d := Run(m, Start(id, node), es);
    WritesAreIssued(m, id, node, es);
    RunAccounted(m, id, node, es);
    assert AnswerOk(d, d.answers[i]);
  }

  // ---------- pending means: not applied by this incarnation ----------

  /** The delivered part of a run. */
  function Payloads(es: seq<Event>): seq<Payload> {
    if es == [] then [] else
      var before := Payloads(es[..|es| - 1]);
      var e := es[|es| - 1];
      if e.Delivered? then before + [e.p] else before
  }

  /** The history after a run that started from `hist0`. */
  ghost function HistOf(hist0: seq<WriteOp>, es: seq<Event>): seq<WriteOp> {
    hist0 + Fresh(Keys(hist0), Payloads(es))
  }

  /** The ring is honest about this origin: under `id` it delivers only what this
      driver broadcast so far, or ids that were already in the starting state. */
  ghost predicate Honest<S>(m: Machine<S>, id: ProcId, node: Node<S>, hist0: seq<WriteOp>, es: seq<Event>) {
    es == [] ||
    var before := es[..|es| - 1];
    var d := Run(m, Start(id, node), before);
    && Honest(m, id, node, hist0, before)
    && match es[|es| - 1]
       case Write(_, _, _) => true
       case Delivered(p) =>
         p.Op? && p.op.origin == id && Key(p.op) !in Keys(hist0) ==>
           p.op.requestId < |d.issued| && d.issued[p.op.requestId].op == p.op
  }

  /** The exact reading of `pending` and of every answer, for a driver whose
      starting state stands for `hist0`. */
  ghost predicate Explained<S>(m: Machine<S>, d: Driver<S>, hist0: seq<WriteOp>, hist: seq<WriteOp>) {
    && (forall r :: 0 <= r < |d.issued| ==>
          (r in d.pending <==> (d.id, r) in Keys(hist0) || (d.id, r) !in Keys(hist)))
    && (forall i :: 0 <= i < |d.answers| ==> AnswerExplained(m, d, hist0, hist, d.answers[i]))
    && (forall k :: k in Keys(hist) && k.0 == d.id ==> k in Keys(hist0) || k.1 < |d.issued|)
  }

  ghost predicate AnswerExplained<S>(m: Machine<S>, d: Driver<S>, hist0: seq<WriteOp>, hist: seq<WriteOp>, a: Answer) {
    && a.requestId < |d.issued|
    && a.op == d.issued[a.requestId].op
    && |hist0| <= a.at < |hist|
    && hist[a.at] == a.op
    && a.reply == ReplyAt(m, hist, a.at)
  }

  lemma ReplyAtStable<S>(m: Machine<S>, hist: seq<WriteOp>, more: seq<WriteOp>, i: nat)
    requires i < |hist|
    ensures ReplyAt(m, hist + more, i) == ReplyAt(m, hist, i)
  {
    assert (hist + more)[..i] == hist[..i];
  }

  /** What delivering a new operation does to the driver. */
  lemma PumpNew<S>(m: Machine<S>, d: Driver<S>, hist: seq<WriteOp>, base: nat, op: WriteOp)
    requires AtFrom(m, d.node, hist, base) && Key(op) !in Keys(hist)
    ensures var answered := op.origin == d.id && op.requestId in d.pending;
            var d' := Pump(m, d, Op(op));
            && d' == d.(node := d'.node, pending := d'.pending, answers := d'.answers)
            && d'.pending == (if answered then d.pending - {op.requestId} else d.pending)
            && d'.answers == d.answers + if answered then
                 [Answer(d.pending[op.requestId], op.requestId, op, |hist|, ReplyAt(m, hist + [op], |hist|))] else []
  {
    DeliverStep(m, d.node, hist, base, op);
  }

  lemma PumpExplained<S>(m: Machine<S>, d: Driver<S>, hist0: seq<WriteOp>, hist: seq<WriteOp>, base: nat, op: WriteOp)
    requires AtFrom(m, d.node, hist, base) && Accounted(d) && Explained(m, d, hist0, hist)
    requires |hist0| <= |hist| && Keys(hist0) <= Keys(hist) && Key(op) !in Keys(hist)
    requires op.origin == d.id ==> op.requestId < |d.issued| && d.issued[op.requestId].op == op
    ensures Explained(m, Pump(m, d, Op(op)), hist0, hist + [op])
  {
    PumpAnswersExplained(m, d, hist0, hist, base, op);
    PumpPendingExplained(m, d, hist0, hist, base, op);
    PumpKeysExplained(d.id, |d.issued|, hist0, hist, op);
    PumpNew(m, d, hist, base, op);
  }

  lemma PumpPendingExplained<S>(m: Machine<S>, d: Driver<S>, hist0: seq<WriteOp>, hist: seq<WriteOp>, base: nat, op: WriteOp)
    requires AtFrom(m, d.node, hist, base) && Accounted(d) && Explained(m, d, hist0, hist)
    requires Keys(hist0) <= Keys(hist) && Key(op) !in Keys(hist)
    ensures var d' := Pump(m, d, Op(op));
            forall r :: 0 <= r < |d.issued| ==>
              (r in d'.pending <==> (d.id, r) in Keys(hist0) || (d.id, r) !in Keys(hist + [op]))
  {
    PumpNew(m, d, hist, base, op);
    KeysAppend(hist, op);
    forall r | 0 <= r < |d.issued|
      ensures r in Pump(m, d, Op(op)).pending <==> (d.id, r) in Keys(hist0) || (d.id, r) !in Keys(hist + [op])
    {
      assert r in d.pending <==> (d.id, r) in Keys(hist0) || (d.id, r) !in Keys(hist);
    }
  }

  lemma PumpKeysExplained(id: ProcId, issued: nat, hist0: seq<WriteOp>, hist: seq<WriteOp>, op: WriteOp)
    requires forall k :: k in Keys(hist) && k.0 == id ==> k in Keys(hist0) || k.1 < issued
    requires op.origin == id ==> op.requestId < issued
    ensures forall k :: k in Keys(hist + [op]) && k.0 == id ==> k in Keys(hist0) || k.1 < issued
  {
    KeysAppend(hist, op);
  }

  lemma PumpAnswersExplained<S>(m: Machine<S>, d: Driver<S>, hist0: seq<WriteOp>, hist: seq<WriteOp>, base: nat, op: WriteOp)
    requires AtFrom(m, d.node, hist, base) && |hist0| <= |hist| && Key(op) !in Keys(hist)
    requires forall i :: 0 <= i < |d.answers| ==> AnswerExplained(m, d, hist0, hist, d.answers[i])
    requires op.origin == d.id ==> op.requestId < |d.issued| && d.issued[op.requestId].op == op
    ensures var d' := Pump(m, d, Op(op));
            forall i :: 0 <= i < |d'.answers| ==> AnswerExplained(m, d', hist0, hist + [op], d'.answers[i])
  {
    PumpNew(m, d, hist, base, op);
    var d' := Pump(m, d, Op(op));
    forall i | 0 <= i < |d'.answers| ensures AnswerExplained(m, d', hist0, hist + [op], d'.answers[i]) {
      if i < |d.answers| {
        assert AnswerExplained(m, d, hist0, hist, d.answers[i]);
        ReplyAtStable(m, hist, [op], d.answers[i].at);
      }
    }
  }

  lemma BroadcastExplained<S>(m: Machine<S>, d: Driver<S>, hist0: seq<WriteOp>, hist: seq<WriteOp>, client: nat, argv: seq<Bytes>, clientReply: Option<Reply>)
    requires Accounted(d) && Explained(m, d, hist0, hist)
    ensures Explained(m, Broadcast(d, client, argv, clientReply), hist0, hist)
  {
    var d' := Broadcast(d, client, argv, clientReply);
    forall i | 0 <= i < |d'.answers| ensures AnswerExplained(m, d', hist0, hist, d'.answers[i]) {
      assert AnswerExplained(m, d, hist0, hist, d.answers[i]);
    }
  }

  /** In every run of an honest ring: an issued id is waiting exactly when it has
      not been applied since the start or was already in the starting dedup;
      every answer is for the very operation that was broadcast, after it was
      applied and logged, with the reply of its position in the order. */
  lemma {:induction false} RunExplained<S>(m: Machine<S>, id: ProcId, node: Node<S>, hist0: seq<WriteOp>, base: nat, es: seq<Event>)
    requires AtFrom(m, node, hist0, base) && Honest(m, id, node, hist0, es)
    ensures AtFrom(m, Run(m, Start(id, node), es).node, HistOf(hist0, es), base)
    ensures Explained(m, Run(m, Start(id, node), es), hist0, HistOf(hist0, es))
  {
    RunNode(m, id, node, es);
    DeliverAllIsFresh(m, node, hist0, base, Payloads(es));
    if es == [] {
      assert hist0 + [] == hist0;
    } else {
      var before := es[..|es| - 1];
      var d := Run(m, Start(id, node), before);
      RunExplained(m, id, node, hist0, base, before);
      RunAccounted(m, id, node, before);
      RunKeepsId(m, Start(id, node), before);
      match es[|es| - 1]
      case Write(client, argv, clientReply) =>
        BroadcastExplained(m, d, hist0, HistOf(hist0, before), client, argv, clientReply);
      case Delivered(p) =>
        DeliveredExplained(m, d, hist0, base, before, es, p);
    }
  }

  /** On an honest ring, it is an answer to the very write: its arguments, and the reply
      of its place in the order. */
  lemma AnswersAreForWrites<S>(m: Machine<S>, id: ProcId, node: Node<S>, hist0: seq<WriteOp>, base: nat, es: seq<Event>, i: nat)
    requires AtFrom(m, node, hist0, base) && Honest(m, id, node, hist0, es)
    requires i < |Run(m, Start(id, node), es).answers|
    ensures var a := Run(m, Start(id, node), es).answers[i];
            && a.requestId < |Writes(es)| && Writes(es)[a.requestId].Write?
            && var w := Writes(es)[a.requestId];
               && a.client == w.client
               && a.op == WriteOp(id, a.requestId, w.argv, w.clientReply)
               && a.at < |HistOf(hist0, es)| && HistOf(hist0, es)[a.at] == a.op
               && a.reply == ReplyAt(m, HistOf(hist0, es), a.at)
  {
    var d := Run(m, Start(id, node), es);
    AnswersReachWriters(m, id, node, es, i);
    WritesAreIssued(m, id, node, es);
    RunExplained(m, id, node, hist0, base, es);
    assert AnswerExplained(m, d, hist0, HistOf(hist0, es), d.answers[i]);
  }

  lemma DeliveredExplained<S>(m: Machine<S>, d: Driver<S>, hist0: seq<WriteOp>, base: nat, before: seq<Event>, es: seq<Event>, p: Payload)
    requires AtFrom(m, d.node, HistOf(hist0, before), base)
    requires Accounted(d) && Explained(m, d, hist0, HistOf(hist0, before))
    requires es == before + [Delivered(p)]
    requires p.Op? && p.op.origin == d.id && Key(p.op) !in Keys(hist0) ==>
               p.op.requestId < |d.issued| && d.issued[p.op.requestId].op == p.op
    ensures Explained(m, Pump(m, d, p), hist0, HistOf(hist0, es))
  {
    var hist := HistOf(hist0, before);
    HistStep(hist0, before, p);
    if p.Op? {
      if Key(p.op) in Keys(hist) {
        DeliverStep(m, d.node, hist, base, p.op);
        assert Pump(m, d, p) == d;
      } else {
        PumpExplained(m, d, hist0, hist, base, p.op);
      }
    }
  }

  lemma HistStep(hist0: seq<WriteOp>, before: seq<Event>, p: Payload)
    ensures Keys(hist0) <= Keys(HistOf(hist0, before))
    ensures HistOf(hist0, before + [Delivered(p)]) ==
            HistOf(hist0, before) + if p.Op? && Key(p.op) !in Keys(HistOf(hist0, before)) then [p.op] else []
  {
    var es := before + [Delivered(p)];
    KeysOfConcat(hist0, Fresh(Keys(hist0), Payloads(before)));
    assert es[..|es| - 1] == before;
    assert Payloads(es)[..|Payloads(before)|] == Payloads(before);
  }

  lemma {:induction false} RunKeepsId<S>(m: Machine<S>, d: Driver<S>, es: seq<Event>)
    ensures Run(m, d, es).id == d.id
  {
    if es != [] {
      RunKeepsId(m, d, es[..|es| - 1]);
    }
  }

  // ---------- id reuse after promotion ----------

  /** Ids restart at 0 while the dedup state is inherited. A write that is given
      an id its own origin had already used is never answered, in any run. */
  lemma {:induction false} ReusedIdIsNeverAnswered<S>(m: Machine<S>, id: ProcId, node: Node<S>, hist0: seq<WriteOp>, base: nat, es: seq<Event>, r: nat)
    requires AtFrom(m, node, hist0, base) && (id, r) in Keys(hist0)
    requires r < Run(m, Start(id, node), es).nextRid
    ensures r in Run(m, Start(id, node), es).pending
  {
    var before := es[..|es| - 1];
    var d := Run(m, Start(id, node), before);
    RunKeepsId(m, Start(id, node), before);
    match es[|es| - 1]
    case Write(_, _, _) =>
      if r < d.nextRid {
        ReusedIdIsNeverAnswered(m, id, node, hist0, base, before, r);
      }
    case Delivered(p) =>
      ReusedIdIsNeverAnswered(m, id, node, hist0, base, before, r);
      RunNode(m, id, node, before);
      DeliverAllIsFresh(m, node, hist0, base, Payloads(before));
      KeysOfConcat(hist0, Fresh(Keys(hist0), Payloads(before)));
      AppliedIdStaysPending(m, d, HistOf(hist0, before), base, p, r);
  }

  /** Once an id is in the dedup state, no delivery answers a client waiting under it. */
  lemma AppliedIdStaysPending<S>(m: Machine<S>, d: Driver<S>, hist: seq<WriteOp>, base: nat, p: Payload, r: nat)
    requires AtFrom(m, d.node, hist, base) && (d.id, r) in Keys(hist) && r in d.pending
    ensures r in Pump(m, d, p).pending
  {
    if p.Op? {
      DeliverStep(m, d.node, hist, base, p.op);
    }
  }

  /** The driver's node is the node that delivered the same payloads. */
  lemma {:induction false} RunNode<S>(m: Machine<S>, id: ProcId, node: Node<S>, es: seq<Event>)
    ensures Run(m, Start(id, node), es).node == DeliverAll(m, node, Payloads(es))
  {
    if es != [] {
      RunNode(m, id, node, es[..|es| - 1]);
      var before := Payloads(es[..|es| - 1]);
      if es[|es| - 1].Delivered? {
        assert Payloads(es)[..|before|] == before;
      }
    }
  }

  /** Exactly when a waiting write can still be answered: delivering it answers
      its client iff its id was not inherited. */
  lemma AnsweredIffIdNotInherited<S>(m: Machine<S>, id: ProcId, node: Node<S>, hist0: seq<WriteOp>, base: nat, es: seq<Event>, r: nat)
    requires AtFrom(m, node, hist0, base) && Honest(m, id, node, hist0, es)
    requires r in Run(m, Start(id, node), es).pending
    ensures r < |Run(m, Start(id, node), es).issued|
    ensures (r in Step(m, Run(m, Start(id, node), es), Delivered(Op(Run(m, Start(id, node), es).issued[r].op))).pending)
            <==> (id, r) in Keys(hist0)
  {
    var d := Run(m, Start(id, node), es);
    RunAccounted(m, id, node, es);
    RunExplained(m, id, node, hist0, base, es);
    RunKeepsId(m, Start(id, node), es);
    KeysOfConcat(hist0, Fresh(Keys(hist0), Payloads(es)));
    OwnDeliveryAnswers(m, d, hist0, HistOf(hist0, es), base, r);
  }

  lemma OwnDeliveryAnswers<S>(m: Machine<S>, d: Driver<S>, hist0: seq<WriteOp>, hist: seq<WriteOp>, base: nat, r: nat)
    requires AtFrom(m, d.node, hist, base) && Keys(hist0) <= Keys(hist)
    requires Accounted(d) && Explained(m, d, hist0, hist) && r in d.pending
    ensures (r in Pump(m, d, Op(d.issued[r].op)).pending) <==> (d.id, r) in Keys(hist0)
  {
    assert Key(d.issued[r].op) == (d.id, r);
    DeliverStep(m, d.node, hist, base, d.issued[r].op);
  }

  lemma {:induction false} FirstWriteTakesId<S>(m: Machine<S>, d: Driver<S>, es: seq<Event>)
    requires es != [] && es[0].Write?
    ensures d.nextRid < Run(m, d, es).nextRid
  {
    var before := es[..|es| - 1];
    if before == [] {
      assert Run(m, d, before) == d;
    } else {
      FirstWriteTakesId(m, d, before);
    }
  }

  /** A concrete promotion on which the first client write hangs: the node had used
      id 0 before, and whatever happens afterwards the client is not answered. */
  lemma PromotedFirstWriteHangs<S>(m: Machine<S>, id: ProcId, argv: seq<Bytes>, client: nat, more: seq<Event>)
    ensures var old' := WriteOp(id, 0, argv, None);
            var node := Deliver(m, InitNode(m, DEFAULT_CAP), old').0;
            var d := Run(m, Start(id, node), [Write(client, argv, None)] + more);
            && AtFrom(m, node, [old'], 0)
            && 0 in d.pending
            && forall i :: 0 <= i < |d.answers| ==> d.answers[i].requestId != 0
  {
    var old' := WriteOp(id, 0, argv, None);
    var node := Deliver(m, InitNode(m, DEFAULT_CAP), old').0;
    InitIsAt(m, DEFAULT_CAP);
    DeliverStep(m, InitNode(m, DEFAULT_CAP), [], 0, old');
    assert [] + [old'] == [old'];
    FreshOne({}, Op(old'));
    var es := [Write(client, argv, None)] + more;
    FirstWriteTakesId(m, Start(id, node), es);
    ReusedIdIsNeverAnswered(m, id, node, [old'], 0, es, 0);
    RunAccounted(m, id, node, es);
    var d := Run(m, Start(id, node), es);
    forall i | 0 <= i < |d.answers| ensures d.answers[i].requestId != 0 {
      assert AnswerOk(d, d.answers[i]);
    }
  }
}
