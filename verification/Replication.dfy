/** The replicated apply machine on values: delivery through dedup, the log,
    state transfer, and what a node's state says about the one total order. */
module Replication {
  import opened Wire
  import opened Text
  import opened Dedup
  import opened DeliveredLog

  datatype Node<S> = Node(store: S, dedup: DedupState, log: Log)

  /** Effect of one operation on the store, and the store's own reply. */
  function Effect<S>(m: Machine<S>, s: S, op: WriteOp): (S, Reply) {
    match ParseCommandLine(op.argv)
    case Some(cmd) => m.apply(s, cmd)
    case None => (s, Error(Ascii("ERR delivered write op had empty argv")))
  }

  /** The origin-resolved reply when there is one, else the apply result. */
  function ReplyTo(op: WriteOp, applied: Reply): Reply {
    if op.clientReply.Some? then op.clientReply.value else applied
  }

  function Deliver<S>(m: Machine<S>, nd: Node<S>, op: WriteOp): (Node<S>, Option<Reply>) {
    var (isNew, dedup) := FirstSeen(nd.dedup, op.origin, op.requestId);
    if !isNew then (nd.(dedup := dedup), None) else
      var (store, reply) := Effect(m, nd.store, op);
      (Node(store, dedup, Append(nd.log, op)), Some(ReplyTo(op, reply)))
  }

  function DeliverPayload<S>(m: Machine<S>, nd: Node<S>, p: Payload): Node<S> {
    if p.Op? then Deliver(m, nd, p.op).0 else nd
  }

  function DeliverAll<S>(m: Machine<S>, nd: Node<S>, ps: seq<Payload>): Node<S> {
    if ps == [] then nd
    else DeliverPayload(m, DeliverAll(m, nd, ps[..|ps| - 1]), ps[|ps| - 1])
  }

  // ---------- the reference: one order, replayed ----------

  /** Plain fold of the store machine over a list of operations. */
  function Replay<S>(m: Machine<S>, ops: seq<WriteOp>): S {
    if ops == [] then m.init
    else Effect(m, Replay(m, ops[..|ops| - 1]), ops[|ops| - 1]).0
  }

  /** The reply that position `i` of the order earns. */
  function ReplyAt<S>(m: Machine<S>, ops: seq<WriteOp>, i: nat): Reply
    requires i < |ops|
  {
    ReplyTo(ops[i], Effect(m, Replay(m, ops[..i]), ops[i]).1)
  }

  /** The operations of a stream that are new with respect to `known`: first
      occurrences only, undecodable payloads dropped. */
  function Fresh(known: set<OpKey>, ps: seq<Payload>): seq<WriteOp> {
    if ps == [] then [] else
      var before := Fresh(known, ps[..|ps| - 1]);
      var p := ps[|ps| - 1];
      if p.Op? && Key(p.op) !in known + Keys(before) then before + [p.op] else before
  }

  /** `nd` is the state reached by applying exactly `hist`, its log started at `base`. */
  ghost predicate AtFrom<S>(m: Machine<S>, nd: Node<S>, hist: seq<WriteOp>, base: nat) {
    && nd.store == Replay(m, hist)
    && Canonical(nd.dedup)
    && Applied(nd.dedup) == Keys(hist)
    && Tracks(nd.log, hist, base)
  }

  ghost predicate At<S>(m: Machine<S>, nd: Node<S>, hist: seq<WriteOp>) {
    exists base :: AtFrom(m, nd, hist, base)
  }

  function InitNode<S>(m: Machine<S>, cap: nat): Node<S> {
    Node(m.init, map[], NewLog(cap))
  }

  lemma InitIsAt<S>(m: Machine<S>, cap: nat)
    ensures AtFrom(m, InitNode(m, cap), [], 0)
  {
    ResumedTracks([], cap);
    assert Applied(map[]) == {};
  }

  lemma KeysAppend(hist: seq<WriteOp>, op: WriteOp)
    ensures Keys(hist + [op]) == Keys(hist) + {Key(op)}
  {
    var grown := hist + [op];
    assert forall i :: 0 <= i < |hist| ==> grown[i] == hist[i];
    assert grown[|hist|] == op;
    forall k | k in Keys(hist) + {Key(op)} ensures k in Keys(grown) {
      if k in Keys(hist) {
        var i :| 0 <= i < |hist| && Key(hist[i]) == k;
        assert Key(grown[i]) == k;
      }
    }
  }

  lemma ReplayAppend<S>(m: Machine<S>, hist: seq<WriteOp>, op: WriteOp)
    ensures Replay(m, hist + [op]) == Effect(m, Replay(m, hist), op).0
  {
    assert (hist + [op])[..|hist|] == hist;
  }

  /** One delivery: a known operation changes nothing, a new one extends the
      history by itself and earns the reply of its position. */
  lemma DeliverStep<S>(m: Machine<S>, nd: Node<S>, hist: seq<WriteOp>, base: nat, op: WriteOp)
    requires AtFrom(m, nd, hist, base)
    ensures Key(op) in Keys(hist) ==> Deliver(m, nd, op) == (nd, None)
    ensures Key(op) !in Keys(hist) ==>
              && AtFrom(m, Deliver(m, nd, op).0, hist + [op], base)
              && Deliver(m, nd, op).1 == Some(ReplyAt(m, hist + [op], |hist|))
  {
    FirstSeenIsSetInsert(nd.dedup, op.origin, op.requestId);
    if Key(op) in Keys(hist) {
      DedupCanonical(nd.dedup, FirstSeen(nd.dedup, op.origin, op.requestId).1);
    } else {
      KeysAppend(hist, op);
      ReplayAppend(m, hist, op);
      AppendTracks(nd.log, hist, base, op);
      assert (hist + [op])[..|hist|] == hist;
    }
  }

  /** A node is determined by the history it stands for and its log parameters. */
  lemma HistoryDeterminesNode<S>(m: Machine<S>, a: Node<S>, b: Node<S>, hist: seq<WriteOp>, base: nat)
    requires AtFrom(m, a, hist, base) && AtFrom(m, b, hist, base) && a.log.cap == b.log.cap
    ensures a == b
  {
    DedupCanonical(a.dedup, b.dedup);
  }

  /** Two nodes with the same history agree, whatever their logs retain. */
  lemma SameHistorySameState<S>(m: Machine<S>, a: Node<S>, b: Node<S>, hist: seq<WriteOp>)
    requires At(m, a, hist) && At(m, b, hist)
    ensures a.store == b.store && a.dedup == b.dedup && a.log.head == b.log.head
  {
    DedupCanonical(a.dedup, b.dedup);
  }

  // ---------- streams with re-deliveries ----------

  /** Delivering any stream leaves the node at its history plus the stream's
      first occurrences. */
  lemma {:induction false} DeliverAllIsFresh<S>(m: Machine<S>, nd: Node<S>, hist: seq<WriteOp>, base: nat, ps: seq<Payload>)
    requires AtFrom(m, nd, hist, base)
    ensures AtFrom(m, DeliverAll(m, nd, ps), hist + Fresh(Keys(hist), ps), base)
    ensures DeliverAll(m, nd, ps).log.cap == nd.log.cap
  {
    if ps == [] {
      assert hist + [] == hist;
    } else {
      var before := ps[..|ps| - 1];
      var p := ps[|ps| - 1];
      DeliverAllIsFresh(m, nd, hist, base, before);
      var now := hist + Fresh(Keys(hist), before);
      KeysOfConcat(hist, Fresh(Keys(hist), before));
      if p.Op? {
        DeliverStep(m, DeliverAll(m, nd, before), now, base, p.op);
        assert now + [p.op] == hist + (Fresh(Keys(hist), before) + [p.op]);
      }
    }
  }

  lemma {:induction false} KeysOfConcat(a: seq<WriteOp>, b: seq<WriteOp>)
    ensures Keys(a + b) == Keys(a) + Keys(b)
  {
    if b == [] {
      assert a + b == a;
    } else {
      var b' := b[..|b| - 1];
      KeysOfConcat(a, b');
      KeysAppend(b', b[|b| - 1]);
      KeysAppend(a + b', b[|b| - 1]);
      assert b == b' + [b[|b| - 1]];
      assert a + b == (a + b') + [b[|b| - 1]];
    }
  }

  /** Streams with the same first occurrences lead to the same node: store,
      dedup, head and retained log. */
  lemma StreamDeterminesNode<S>(m: Machine<S>, nd: Node<S>, hist: seq<WriteOp>, base: nat, p: seq<Payload>, q: seq<Payload>)
    requires AtFrom(m, nd, hist, base)
    requires Fresh(Keys(hist), p) == Fresh(Keys(hist), q)
    ensures DeliverAll(m, nd, p) == DeliverAll(m, nd, q)
  {
    DeliverAllIsFresh(m, nd, hist, base, p);
    DeliverAllIsFresh(m, nd, hist, base, q);
    HistoryDeterminesNode(m, DeliverAll(m, nd, p), DeliverAll(m, nd, q), hist + Fresh(Keys(hist), p), base);
  }

  /** The first occurrences of a longer stream: those of its front, then those of
      its back that the front did not bring. */
  lemma {:induction false} FreshConcat(known: set<OpKey>, a: seq<Payload>, b: seq<Payload>)
    ensures Fresh(known, a + b) == Fresh(known, a) + Fresh(known + Keys(Fresh(known, a)), b)
  {
    if b == [] {
      assert a + b == a;
    } else {
      var b', front := b[..|b| - 1], Fresh(known, a);
      FreshConcat(known, a, b');
      assert (a + b)[..|a + b| - 1] == a + b';
      KeysOfConcat(front, Fresh(known + Keys(front), b'));
    }
  }

  lemma FreshOne(known: set<OpKey>, p: Payload)
    ensures Fresh(known, [p]) == if p.Op? && Key(p.op) !in known then [p.op] else []
    ensures p.Op? ==> Keys([p.op]) == {Key(p.op)}
  {
    assert [p][..0] == [];
    assert Fresh(known, []) == [] && known + Keys([]) == known;
    if p.Op? {
      KeysAppend([], p.op);
      assert [] + [p.op] == [p.op];
    }
  }

  lemma FreshHead(known: set<OpKey>, p: Payload, rest: seq<Payload>)
    ensures Fresh(known, [p] + rest) ==
            if p.Op? && Key(p.op) !in known then [p.op] + Fresh(known + {Key(p.op)}, rest) else Fresh(known, rest)
  {
    FreshConcat(known, [p], rest);
    FreshOne(known, p);
    assert known + Keys([]) == known;
  }

  /** The keys that occur in a stream. */
  function Seen(ps: seq<Payload>): set<OpKey> {
    set i | 0 <= i < |ps| && ps[i].Op? :: Key(ps[i].op)
  }

  /** The kept positions of `q`, in order. */
  function Select(q: seq<Payload>, keep: seq<bool>): seq<Payload>
    requires |q| == |keep|
  {
    if q == [] then [] else
      var before := Select(q[..|q| - 1], keep[..|q| - 1]);
      if keep[|q| - 1] then before + [q[|q| - 1]] else before
  }

  /** Every position not kept is undecodable or repeats an earlier key. */
  ghost predicate Redundant(known: set<OpKey>, q: seq<Payload>, keep: seq<bool>)
    requires |q| == |keep|
  {
    forall i :: 0 <= i < |q| && !keep[i] ==> q[i].Garbage? || Key(q[i].op) in known + Seen(q[..i])
  }

  lemma {:induction false} FreshCoversSeen(known: set<OpKey>, ps: seq<Payload>)
    ensures known + Keys(Fresh(known, ps)) == known + Seen(ps)
  {
    if ps == [] {
    } else {
      var before := ps[..|ps| - 1];
      var p := ps[|ps| - 1];
      FreshCoversSeen(known, before);
      SeenAppend(before, p);
      assert ps == before + [p];
      if p.Op? && Key(p.op) !in known + Keys(Fresh(known, before)) {
        KeysAppend(Fresh(known, before), p.op);
      }
    }
  }

  lemma SeenAppend(ps: seq<Payload>, p: Payload)
    ensures Seen(ps + [p]) == Seen(ps) + if p.Op? then {Key(p.op)} else {}
  {
    var grown := ps + [p];
    assert forall i :: 0 <= i < |ps| ==> grown[i] == ps[i];
    assert grown[|ps|] == p;
    forall k | k in Seen(ps) ensures k in Seen(grown) {
      var i :| 0 <= i < |ps| && ps[i].Op? && Key(ps[i].op) == k;
      assert grown[i].Op? && Key(grown[i].op) == k;
    }
    if p.Op? {
      assert grown[|ps|].Op? && Key(grown[|ps|].op) in Seen(grown);
    }
  }

  lemma {:induction false} PaddingIsInvisible(known: set<OpKey>, q: seq<Payload>, keep: seq<bool>)
    requires |q| == |keep| && Redundant(known, q, keep)
    ensures Fresh(known, q) == Fresh(known, Select(q, keep))
  {
    if q == [] {
    } else {
      var n := |q| - 1;
      var before := q[..n];
      assert Redundant(known, before, keep[..n]) by {
        forall i | 0 <= i < |before| && !keep[..n][i]
          ensures before[i].Garbage? || Key(before[i].op) in known + Seen(before[..i])
        {
          assert q[..i] == before[..i];
        }
      }
      PaddingIsInvisible(known, before, keep[..n]);
      FreshCoversSeen(known, before);
      if keep[n] {
        var sel := Select(before, keep[..n]);
        assert (sel + [q[n]])[..|sel|] == sel;
      }
    }
  }

  /** Inserting re-deliveries of operations delivered earlier, or undecodable
      payloads, anywhere in a stream changes nothing at all. */
  lemma RedeliveryChangesNothing<S>(m: Machine<S>, nd: Node<S>, hist: seq<WriteOp>, base: nat, q: seq<Payload>, keep: seq<bool>)
    requires AtFrom(m, nd, hist, base)
    requires |q| == |keep| && Redundant(Keys(hist), q, keep)
    ensures DeliverAll(m, nd, q) == DeliverAll(m, nd, Select(q, keep))
  {
    PaddingIsInvisible(Keys(hist), q, keep);
    StreamDeterminesNode(m, nd, hist, base, q, Select(q, keep));
  }

  /** All payloads of a sequence of delivery batches. */
  function Flatten(batches: seq<seq<Payload>>): seq<Payload> {
    if batches == [] then [] else Flatten(batches[..|batches| - 1]) + batches[|batches| - 1]
  }

  function DeliverBatches<S>(m: Machine<S>, nd: Node<S>, batches: seq<seq<Payload>>): Node<S> {
    if batches == [] then nd
    else DeliverAll(m, DeliverBatches(m, nd, batches[..|batches| - 1]), batches[|batches| - 1])
  }

  lemma {:induction false} DeliverAllConcat<S>(m: Machine<S>, nd: Node<S>, a: seq<Payload>, b: seq<Payload>)
    ensures DeliverAll(m, nd, a + b) == DeliverAll(m, DeliverAll(m, nd, a), b)
  {
    if b == [] {
      assert a + b == a;
    } else {
      DeliverAllConcat(m, nd, a, b[..|b| - 1]);
      assert (a + b)[..|a + b| - 1] == a + b[..|b| - 1];
    }
  }

  /** How the ring groups deliveries into batches is invisible. */
  lemma {:induction false} BatchingIsInvisible<S>(m: Machine<S>, nd: Node<S>, batches: seq<seq<Payload>>)
    ensures DeliverBatches(m, nd, batches) == DeliverAll(m, nd, Flatten(batches))
  {
    if batches != [] {
      var before := batches[..|batches| - 1];
      BatchingIsInvisible(m, nd, before);
      DeliverAllConcat(m, nd, Flatten(before), batches[|batches| - 1]);
    }
  }

  // ---------- the same, said directly ----------

  /** Applying `op` to the store state `s` leaves `s'`, and earns its client `reply`:
      the command that the arguments spell is run, and its result is the reply unless
      the origin resolved one. An empty argument vector is an error and runs nothing. */
  ghost predicate Executed<S>(m: Machine<S>, op: WriteOp, s: S, s': S, reply: Reply) {
    if op.argv == [] then
      s' == s && if op.clientReply.Some? then reply == op.clientReply.value else reply.Error?
    else
      var out := m.apply(s, Command(CommandName(op.argv[0]), op.argv));
      s' == out.0 && reply == if op.clientReply.Some? then op.clientReply.value else out.1
  }

  /** `states` are the store states before, between and after executing `ops`. */
  ghost predicate Trace<S>(m: Machine<S>, ops: seq<WriteOp>, states: seq<S>, replies: seq<Reply>) {
    && |states| == |ops| + 1 && |replies| == |ops|
    && forall i :: 0 <= i < |ops| ==> Executed(m, ops[i], states[i], states[i + 1], replies[i])
  }

  /** A delivery executes a new operation, and does nothing for a known one. */
  lemma DeliverExecutes<S>(m: Machine<S>, nd: Node<S>, op: WriteOp)
    requires Canonical(nd.dedup)
    ensures var (nd', reply) := Deliver(m, nd, op);
            if Key(op) in Applied(nd.dedup) then nd' == nd && reply.None?
            else reply.Some? && Executed(m, op, nd.store, nd'.store, reply.value)
                 && Canonical(nd'.dedup) && Applied(nd'.dedup) == Applied(nd.dedup) + {Key(op)}
                 && nd'.log.head == nd.log.head + 1
  {
    FirstSeenIsSetInsert(nd.dedup, op.origin, op.requestId);
    if Key(op) in Applied(nd.dedup) {
      DedupCanonical(nd.dedup, FirstSeen(nd.dedup, op.origin, op.requestId).1);
    }
  }

  lemma TraceGrows<S>(m: Machine<S>, ops: seq<WriteOp>, states: seq<S>, replies: seq<Reply>, op: WriteOp, s: S, reply: Reply)
    requires Trace(m, ops, states, replies) && Executed(m, op, states[|ops|], s, reply)
    ensures Trace(m, ops + [op], states + [s], replies + [reply])
  {
  }

  /** The reference replay is such an execution: it starts in the machine's initial
      state, and every position executes its operation and earns its reply. */
  lemma ReplayExecutes<S>(m: Machine<S>, ops: seq<WriteOp>, i: nat)
    requires i < |ops|
    ensures Replay(m, ops[..0]) == m.init
    ensures Executed(m, ops[i], Replay(m, ops[..i]), Replay(m, ops[..i + 1]), ReplyAt(m, ops, i))
  {
    assert ops[..i + 1][..i] == ops[..i];
  }

  /** Delivering a stream executes its new operations, in order and once each. */
  lemma {:induction false} DeliverAllTrace<S>(m: Machine<S>, nd: Node<S>, ps: seq<Payload>)
      returns (states: seq<S>, replies: seq<Reply>)
    requires Canonical(nd.dedup)
    ensures var news := Fresh(Applied(nd.dedup), ps);
            var nd' := DeliverAll(m, nd, ps);
            && Trace(m, news, states, replies)
            && states[0] == nd.store && states[|news|] == nd'.store
            && Canonical(nd'.dedup) && Applied(nd'.dedup) == Applied(nd.dedup) + Keys(news)
            && nd'.log.head == nd.log.head + |news|
  {
    if ps == [] {
      states, replies := [nd.store], [];
    } else {
      var before, p := ps[..|ps| - 1], ps[|ps| - 1];
      states, replies := DeliverAllTrace(m, nd, before);
      if p.Op? {
        var news, mid := Fresh(Applied(nd.dedup), before), DeliverAll(m, nd, before);
        DeliverExecutes(m, mid, p.op);
        if Key(p.op) !in Applied(mid.dedup) {
          var (nd', reply) := Deliver(m, mid, p.op);
          TraceGrows(m, news, states, replies, p.op, nd'.store, reply.value);
          KeysAppend(news, p.op);
          states, replies := states + [nd'.store], replies + [reply.value];
        }
      }
    }
  }
}
