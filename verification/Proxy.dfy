/** The proxy's two roles as mutable objects: a passive replica catching up, and
    the driver of an active ring member. */
module Proxy {
  import opened Wire
  import opened Text
  import opened Dedup
  import opened DeliveredLog
  import opened Replication
  import opened StateTransfer
  import D = Driver
  import opened Store
  import opened Effects
  import opened Classify
  import opened Replicas

  const PROMOTE_IDLE_ROUNDS: nat := 2

  // ---------- the passive replica ----------

  /** What a round of fetches leads to: the node, whether some transfer applied
      completely, and whether that one brought anything. */
  datatype RoundResult<S> = RoundResult(node: Node<S>, served: bool, progress: bool)

  /** Ask the survivors in turn (None is a failed fetch) until one transfer applies
      completely; a failed one may leave part of a tail behind. */
  function TryAll<S>(m: Machine<S>, nd: Node<S>, fetched: seq<Option<Transfer<S>>>): RoundResult<S>
    decreases |fetched|
  {
    if fetched == [] then RoundResult(nd, false, false)
    else if fetched[0].None? then TryAll(m, nd, fetched[1..])
    else
      var x := fetched[0].value;
      var r := ApplyTransfer(m, nd, x);
      if r.ok then RoundResult(r.node, true, r.applied > 0 || !x.snap.NoSnap?)
      else TryAll(m, r.node, fetched[1..])
  }

  /** Every fetch that succeeded brought a truthful answer to `have` with respect to
      the order `hist`, intact or damaged on the way. */
  ghost predicate Truthful<S(!new)>(m: Machine<S>, fetched: seq<Option<Transfer<S>>>, hist: seq<WriteOp>, have: nat) {
    forall i :: 0 <= i < |fetched| && fetched[i].Some? ==> FromTruth(m, fetched[i].value, hist, have)
  }

  ghost predicate FromTruth<S(!new)>(m: Machine<S>, y: Transfer<S>, hist: seq<WriteOp>, have: nat) {
    exists x :: Answers(m, x, hist, have) && Damaged(x, y)
  }

  /** A whole catch-up round, over any mix of survivors and failures: a rejoiner
      with an arbitrary stale store is in a prefix state as soon as one transfer
      applied, and one that was in a prefix state stays in one. */
  lemma {:induction false} RoundKeepsRejoiner<S(!new)>(m: Machine<S>, nd: Node<S>, fetched: seq<Option<Transfer<S>>>,
                                                       hist: seq<WriteOp>, have: nat, synced: bool)
    requires Distinct(hist) && Truthful(m, fetched, hist, have) && RejoinerOk(m, nd, synced, have, hist)
    ensures var r := TryAll(m, nd, fetched);
            if r.served then RejoinerOk(m, r.node, true, 0, hist) else RejoinerOk(m, r.node, synced, have, hist)
    decreases |fetched|
  {
    if fetched != [] {
      assert Truthful(m, fetched[1..], hist, have);
      if fetched[0].None? {
        RoundKeepsRejoiner(m, nd, fetched[1..], hist, have, synced);
      } else {
        var y := fetched[0].value;
        assert FromTruth(m, y, hist, have);
        var x :| Answers(m, x, hist, have) && Damaged(x, y);
        TransferKeepsRejoiner(m, nd, synced, have, hist, x, y);
        if !ApplyTransfer(m, nd, y).ok {
          RoundKeepsRejoiner(m, ApplyTransfer(m, nd, y).node, fetched[1..], hist, have, synced);
        }
      }
    }
  }

  predicate Promotable<S>(f: Option<Transfer<S>>) {
    f.Some? && f.value.snap.Snap? && f.value.snap.s.view.Some?
  }

  /** The last fetch before promotion: the first snapshot that decodes and carries a
      view replaces everything. */
  function FinalState<S>(m: Machine<S>, nd: Node<S>, fetched: seq<Option<Transfer<S>>>): (Node<S>, Option<View>)
    decreases |fetched|
  {
    if fetched == [] then (nd, None)
    else if Promotable(fetched[0]) then
      var x := fetched[0].value;
      (DeliverAll(m, Import(nd, x.snap.s), AsStream(x.tail)), x.snap.s.view)
    else FinalState(m, nd, fetched[1..])
  }

  /** The seed of a promotion is a prefix state, whatever the node held before. */
  lemma {:induction false} SeedIsPrefix<S(!new)>(m: Machine<S>, nd: Node<S>, fetched: seq<Option<Transfer<S>>>, hist: seq<WriteOp>)
    requires Truthful(m, fetched, hist, 0)
    ensures var (seed, view) := FinalState(m, nd, fetched);
            if view.None? then seed == nd
            else seed.log.head <= |hist| && At(m, seed, hist[..seed.log.head])
    decreases |fetched|
  {
    if fetched != [] {
      if Promotable(fetched[0]) {
        var y := fetched[0].value;
        assert FromTruth(m, y, hist, 0);
        var x :| Answers(m, x, hist, 0) && Damaged(x, y);
        ImportIsAt(m, nd, y.snap.s, hist);
        assert AsStream(y.tail) == [];
      } else {
        assert Truthful(m, fetched[1..], hist, 0);
        SeedIsPrefix(m, nd, fetched[1..], hist);
      }
    }
  }

  // ---------- rounds, said directly ----------

  /** The first `k` fetches did not bring a transfer that decodes; `nodes` are the
      states between them, a bad transfer leaving the part of it that was applied. */
  ghost predicate FailedUpTo<S>(m: Machine<S>, nd: Node<S>, fetched: seq<Option<Transfer<S>>>, k: nat, nodes: seq<Node<S>>) {
    && k <= |fetched| && |nodes| == k + 1 && nodes[0] == nd
    && forall i :: 0 <= i < k ==>
         if fetched[i].None? then nodes[i + 1] == nodes[i]
         else !Decodes(fetched[i].value) && nodes[i + 1] == ApplyTransfer(m, nodes[i], fetched[i].value).node
  }

  /** The round ended at the k-th fetch, the first that brought a transfer which
      decodes, or after all of them. */
  ghost predicate RoundEnded<S>(m: Machine<S>, nd: Node<S>, fetched: seq<Option<Transfer<S>>>,
                                k: nat, nodes: seq<Node<S>>, r: RoundResult<S>)
  {
    && FailedUpTo(m, nd, fetched, k, nodes)
    && if k == |fetched| then r == RoundResult(nodes[k], false, false) else
         && fetched[k].Some? && Decodes(fetched[k].value)
         && var applied := ApplyTransfer(m, nodes[k], fetched[k].value);
            r == RoundResult(applied.node, true, applied.applied > 0 || fetched[k].value.snap.Snap?)
  }

  /** A fetch brought a transfer that decodes. */
  predicate Brought<S>(f: Option<Transfer<S>>) {
    f.Some? && Decodes(f.value)
  }

  lemma {:induction false} RoundEnds<S>(m: Machine<S>, nd: Node<S>, fetched: seq<Option<Transfer<S>>>)
      returns (k: nat, nodes: seq<Node<S>>)
    ensures RoundEnded(m, nd, fetched, k, nodes, TryAll(m, nd, fetched))
    ensures TryAll(m, nd, fetched).served <==> exists i :: 0 <= i < |fetched| && Brought(fetched[i])
    decreases |fetched|
  {
    if fetched == [] {
      k, nodes := 0, [nd];
    } else {
      var f, rest := fetched[0], fetched[1..];
      if f.Some? {
        TransferMeans(m, nd, f.value);
      }
      if Brought(f) {
        k, nodes := 0, [nd];
      } else {
        var next := if f.None? then nd else ApplyTransfer(m, nd, f.value).node;
        k, nodes := RoundEnds(m, next, rest);
        FailedOnceMore(m, nd, fetched, next, k, nodes);
        k, nodes := k + 1, [nd] + nodes;
        BroughtLater(fetched);
      }
    }
  }

  /** An intact answer ends the round served, whatever the fetches before it brought. */
  lemma IntactIsServed<S(!new)>(m: Machine<S>, nd: Node<S>, fetched: seq<Option<Transfer<S>>>, i: nat,
                                hist: seq<WriteOp>, have: nat)
    requires i < |fetched| && fetched[i].Some? && Answers(m, fetched[i].value, hist, have)
    ensures TryAll(m, nd, fetched).served
  {
    assert Brought(fetched[i]);
    var _, _ := RoundEnds(m, nd, fetched);
  }

  lemma BroughtLater<S>(fetched: seq<Option<Transfer<S>>>)
    requires fetched != [] && !Brought(fetched[0])
    ensures (exists i :: 0 <= i < |fetched| && Brought(fetched[i])) <==>
            exists i :: 0 <= i < |fetched[1..]| && Brought(fetched[1..][i])
  {
    if i :| 0 <= i < |fetched| && Brought(fetched[i]) {
      assert Brought(fetched[1..][i - 1]);
    }
    if i :| 0 <= i < |fetched[1..]| && Brought(fetched[1..][i]) {
      assert Brought(fetched[i + 1]);
    }
  }

  lemma FailedOnceMore<S>(m: Machine<S>, nd: Node<S>, fetched: seq<Option<Transfer<S>>>, next: Node<S>, k: nat, nodes: seq<Node<S>>)
    requires fetched != [] && FailedUpTo(m, next, fetched[1..], k, nodes)
    requires if fetched[0].None? then next == nd
             else !Decodes(fetched[0].value) && next == ApplyTransfer(m, nd, fetched[0].value).node
    ensures FailedUpTo(m, nd, fetched, k + 1, [nd] + nodes)
  {
    var longer := [nd] + nodes;
    forall i | 0 <= i < k + 1
      ensures if fetched[i].None? then longer[i + 1] == longer[i]
              else !Decodes(fetched[i].value) && longer[i + 1] == ApplyTransfer(m, longer[i], fetched[i].value).node
    {
      if i > 0 {
        assert fetched[i] == fetched[1..][i - 1];
        assert longer[i] == nodes[i - 1] && longer[i + 1] == nodes[i];
      } else {
        assert longer[0] == nd && longer[1] == nodes[0];
      }
    }
  }

  /** The k-th fetch is the first snapshot that decodes and carries a view. */
  ghost predicate FirstPromotable<S>(fetched: seq<Option<Transfer<S>>>, k: nat) {
    k < |fetched| && Promotable(fetched[k]) && forall i :: 0 <= i < k ==> !Promotable(fetched[i])
  }

  /** The first such snapshot replaces store and dedup state and restarts the log at its
      index, what decodes of its tail is delivered, and its view is the result; without
      one nothing changes. */
  lemma {:induction false} FinalMeans<S>(m: Machine<S>, nd: Node<S>, fetched: seq<Option<Transfer<S>>>)
    ensures FinalState(m, nd, fetched).1.Some? <==> exists i :: 0 <= i < |fetched| && Promotable(fetched[i])
    ensures FinalState(m, nd, fetched).1.None? ==> FinalState(m, nd, fetched).0 == nd
    ensures forall k: nat :: FirstPromotable(fetched, k) ==>
              var s := fetched[k].value.snap.s;
              FinalState(m, nd, fetched) ==
                (DeliverAll(m, Node(s.store, s.dedup, Log([], s.index, Max1(nd.log.cap))), AsStream(fetched[k].value.tail)), s.view)
    decreases |fetched|
  {
    if fetched != [] {
      var rest := fetched[1..];
      FinalMeans(m, nd, rest);
      assert forall i :: 0 < i < |fetched| ==> fetched[i] == rest[i - 1];
      if !Promotable(fetched[0]) {
        if i :| 0 <= i < |fetched| && Promotable(fetched[i]) {
          assert Promotable(rest[i - 1]);
        }
        forall k: nat | FirstPromotable(fetched, k) ensures k > 0 && FirstPromotable(rest, k - 1) {
          assert forall i :: 0 <= i < k - 1 ==> rest[i] == fetched[i + 1];
        }
      }
    }
  }

  /** Off the ring: pulls the missing operations from survivors, round by round. */
  class PassiveReplica<S(!new)> {
    const node: Replica<S>
    var idle: nat

    ghost predicate Valid()
      reads this, node, node.log
    {
      node.Valid()
    }

    constructor (node: Replica<S>)
      requires node.Valid()
      ensures this.node == node && idle == 0 && Valid()
    {
      this.node := node;
      idle := 0;
    }

    /** One round of the catch-up loop. Every survivor of the round is asked with the
        `have` read at its start; `fetched` holds what the fetches brought. */
    method CatchUpRound(fetched: seq<Option<Transfer<S>>>, promote: bool)
        returns (served: bool, progress: bool, promoteNow: bool)
      requires Valid()
      modifies this, node`store, node.dedup, node.log
      ensures Valid()
      ensures RoundResult(node.View(), served, progress) == TryAll(node.m, old(node.View()), fetched)
      ensures var quiet := promote && served && !progress && node.log.head > 0;
              && idle == (if quiet then old(idle) + 1 else if progress then 0 else old(idle))
              && (promoteNow <==> quiet && idle >= PROMOTE_IDLE_ROUNDS)
      ensures served <==> exists i :: 0 <= i < |fetched| && Brought(fetched[i])
      ensures exists k, nodes ::
                RoundEnded(node.m, old(node.View()), fetched, k, nodes, RoundResult(node.View(), served, progress))
    {
      ghost var k, nodes := RoundEnds(node.m, node.View(), fetched);
      served, progress, promoteNow := false, false, false;
      var i := 0;
      while i < |fetched| && !served
        invariant i <= |fetched| && Valid() && idle == old(idle)
        invariant !served ==> !progress
        invariant (if served then RoundResult(node.View(), true, progress) else TryAll(node.m, node.View(), fetched[i..]))
                  == TryAll(node.m, old(node.View()), fetched)
      {
        if fetched[i].Some? {
          var x := fetched[i].value;
          var applied, ok := node.ApplyStateTransfer(x);
          if ok {
            served, progress := true, applied > 0 || !x.snap.NoSnap?;
          }
        }
        i := i + 1;
      }
      if promote && served && !progress && node.log.head > 0 {
        idle := idle + 1;
        promoteNow := idle >= PROMOTE_IDLE_ROUNDS;
      } else if progress {
        idle := 0;
      }
    }

    /** The final fetch, asking with 0; without a result the replica keeps tailing. */
    method FinalSnapshot(fetched: seq<Option<Transfer<S>>>) returns (view: Option<View>)
      requires Valid()
      modifies this, node`store, node.dedup, node.log
      ensures Valid()
      ensures (node.View(), view) == FinalState(node.m, old(node.View()), fetched)
      ensures idle == if view.None? then 0 else old(idle)
      ensures view.Some? <==> exists i :: 0 <= i < |fetched| && Promotable(fetched[i])
      ensures forall k: nat :: FirstPromotable(fetched, k) ==> view == fetched[k].value.snap.s.view
      ensures view.None? ==> node.View() == old(node.View())
    {
      FinalMeans(node.m, node.View(), fetched);
      for i := 0 to |fetched|
        invariant Valid() && node.View() == old(node.View()) && idle == old(idle)
        invariant FinalState(node.m, old(node.View()), fetched[i..]) == FinalState(node.m, old(node.View()), fetched)
      {
        if Promotable(fetched[i]) {
          var x := fetched[i].value;
          node.ImportSnapshot(x.snap.s);
          ApplyGoodFrames(x.tail);
          return x.snap.s.view;
        }
      }
      idle := 0;
      view := None;
    }

    method ApplyGoodFrames(tail: seq<TailFrame>)
      requires Valid()
      modifies node`store, node.dedup, node.log
      ensures Valid() && node.View() == DeliverAll(node.m, old(node.View()), AsStream(tail))
    {
      for k := 0 to |tail|
        invariant Valid() && node.View() == DeliverAll(node.m, old(node.View()), AsStream(tail)[..k])
      {
        assert AsStream(tail)[..k + 1][..k] == AsStream(tail)[..k];
        if tail[k].Frame? {
          var _ := node.ApplyDelivered(tail[k].e.op);
        }
      }
      assert AsStream(tail)[..|tail|] == AsStream(tail);
    }
  }

  // ---------- the active driver ----------

  /** What to do with a client's write request. */
  function Decide<S>(m: Machine<S>, rules: Rules, floats: (S, Command) -> Resolution, s: S, argv: seq<Bytes>): Action {
    match ParseCommandLine(argv)
    case None => ReplyNow(Error(Ascii("ERR empty command")))
    case Some(cmd) =>
      match ClassOf(cmd.name)
      case DeterministicWrite => Send(argv, None)
      case NonDeterministic => ResolvedAction(Resolve(m, rules, floats, s, cmd))
      case _ => ReplyNow(Error(Ascii("ERR command is not replicable as a write")))
  }

  lemma PumpAllStep<S>(m: Machine<S>, d: D.Driver<S>, done: seq<Payload>, ps: seq<Payload>, i: nat)
    requires i < |ps|
    ensures D.PumpAll(m, d, done + ps[..i + 1]) == D.Pump(m, D.PumpAll(m, d, done + ps[..i]), ps[i])
  {
    var now := done + ps[..i + 1];
    assert now[..|now| - 1] == done + ps[..i];
  }

  lemma {:induction false} PumpAllAccounted<S>(m: Machine<S>, d: D.Driver<S>, ps: seq<Payload>)
    requires D.Accounted(d)
    ensures D.Accounted(D.PumpAll(m, d, ps))
  {
    if ps != [] {
      PumpAllAccounted(m, d, ps[..|ps| - 1]);
      D.PumpAccounted(m, D.PumpAll(m, d, ps[..|ps| - 1]), ps[|ps| - 1]);
    }
  }

  /** What is done with a request: an empty one is an error; a replicable write is sent
      as it is; a non-deterministic one is answered or sent as what it resolves to, with
      the origin's reply; everything else is an error. */
  lemma DecideMeans<S>(m: Machine<S>, rules: Rules, floats: (S, Command) -> Resolution, s: S, argv: seq<Bytes>)
    ensures var a := Decide(m, rules, floats, s, argv);
            if argv == [] then a.ReplyNow? && a.reply.Error? else
              match ClassOf(CommandName(argv[0]))
              case DeterministicWrite => a == Send(argv, None)
              case NonDeterministic =>
                (match Resolve(m, rules, floats, s, Command(CommandName(argv[0]), argv))
                 case Immediate(reply) => a == ReplyNow(reply)
                 case Broadcast(effect, reply) => a == Send(effect, Some(reply)))
              case _ => a.ReplyNow? && a.reply.Error?
  {
  }

  /** A waiting client is still waiting after pumping, or among those that were woken. */
  lemma WriteIsBooked<S>(m: Machine<S>, d: D.Driver<S>, ps: seq<Payload>, r: nat, woken: seq<D.Answer>)
    requires r in d.pending && D.PumpAll(m, d, ps).answers == d.answers + woken
    ensures var d' := D.PumpAll(m, d, ps);
            && d'.nextRid == d.nextRid
            && if r in d'.pending then d'.pending[r] == d.pending[r]
               else exists a :: a in woken && D.AnsweredUnder(a, d.pending[r], (d.id, r), ps)
  {
    var d' := D.PumpAll(m, d, ps);
    D.WaitsOrIsAnswered(m, d, ps, r);
    PumpAllKeepsRid(m, d, ps);
    if r !in d'.pending {
      var i :| |d.answers| <= i < |d'.answers| && D.AnsweredUnder(d'.answers[i], d.pending[r], (d.id, r), ps);
      assert woken[i - |d.answers|] == d'.answers[i];
    }
  }

  lemma {:induction false} PumpAllKeepsRid<S>(m: Machine<S>, d: D.Driver<S>, ps: seq<Payload>)
    ensures D.PumpAll(m, d, ps).nextRid == d.nextRid
  {
    if ps != [] {
      PumpAllKeepsRid(m, d, ps[..|ps| - 1]);
    }
  }

  /** The woken clients are the answers added. */
  lemma PumpWitness<S>(m: Machine<S>, d: D.Driver<S>, ps: seq<Payload>)
      returns (woken: seq<D.Answer>, states: seq<S>, replies: seq<Reply>)
    requires Canonical(d.node.dedup)
    ensures D.Pumped(m, d, Fresh(Dedup.Applied(d.node.dedup), ps), D.PumpAll(m, d, ps), woken, states, replies)
    ensures forall w: seq<D.Answer> :: D.PumpAll(m, d, ps).answers == d.answers + w ==> w == woken
  {
    woken, states, replies := D.PumpAllPumps(m, d, ps);
    forall w: seq<D.Answer> | D.PumpAll(m, d, ps).answers == d.answers + w ensures w == woken {
      assert w == (d.answers + w)[|d.answers|..] && woken == (d.answers + woken)[|d.answers|..];
    }
  }

  class DriverState<S(!new)> {
    const id: ProcId
    const m: Machine<S>
    const dedup: WriteDedup
    const log: RingLog
    var store: S
    var nextRid: nat
    var pending: map<nat, nat>
    ghost var issued: seq<D.Issued>
    ghost var answers: seq<D.Answer>

    ghost function View(): D.Driver<S>
      reads this, dedup, log
    {
      D.Driver(id, Node(store, dedup.origins, log.View()), nextRid, pending, issued, answers)
    }

    ghost predicate Valid()
      reads this, dedup, log
    {
      log.Valid() && D.Accounted(View())
    }

    /** A cold start, or (with the pieces of a caught-up passive replica) a
        promotion; either way ids start at 0. */
    constructor (id: ProcId, m: Machine<S>, store: S, dedup: WriteDedup, log: RingLog)
      requires log.Valid()
      ensures Valid() && this.id == id && this.m == m && this.dedup == dedup && this.log == log
      ensures View() == D.Start(id, Node(store, dedup.origins, log.View()))
    {
      this.id, this.m, this.store, this.dedup, this.log := id, m, store, dedup, log;
      nextRid, pending, issued, answers := 0, map[], [], [];
    }

    /** `pump_outputs`: apply the delivered stream and wake the waiting clients. */
    method PumpOutputs<T>(outs: seq<Output<T>>) returns (woken: seq<D.Answer>, forward: seq<T>, hints: seq<ProcId>)
      requires Valid()
      modifies this`store, this`pending, this`answers, dedup, log
      ensures Valid()
      ensures View() == D.PumpAll(m, old(View()), Delivered(outs))
      ensures answers == old(answers) + woken
      ensures Routed(Delivered(outs), forward, hints) == Route(outs)
      ensures AllPayloads(outs, Delivered(outs)) && AllTrains(outs, forward) && AllHints(outs, hints)
      ensures Canonical(old(dedup.origins)) ==>
                exists states, replies ::
                  D.Pumped(m, old(View()), Fresh(Dedup.Applied(old(dedup.origins)), Delivered(outs)), View(), woken, states, replies)
    {
      PumpAllAccounted(m, View(), Delivered(outs));
      RoutedPayloads(outs);
      RoutedTrains(outs);
      RoutedHints(outs);
      if Canonical(dedup.origins) {
        ghost var _, states, replies := PumpWitness(m, View(), Delivered(outs));
      }
      woken, forward, hints := PumpStream(outs);
    }

    method PumpStream<T>(outs: seq<Output<T>>) returns (woken: seq<D.Answer>, forward: seq<T>, hints: seq<ProcId>)
      requires log.Valid()
      modifies this`store, this`pending, this`answers, dedup, log
      ensures log.Valid() && View() == D.PumpAll(m, old(View()), Delivered(outs))
      ensures answers == old(answers) + woken
      ensures Routed(Delivered(outs), forward, hints) == Route(outs)
    {
      woken, forward, hints := [], [], [];
      ghost var done := [];
      for i := 0 to |outs|
        invariant log.Valid() && View() == D.PumpAll(m, old(View()), done)
        invariant answers == old(answers) + woken
        invariant Routed(done, forward, hints) == Route(outs[..i])
      {
        RouteStep(outs, i);
        match outs[i]
        case ForwardTrain(train) => forward := forward + [train];
        case DeclareCrash(victim) => hints := hints + [victim];
        case DeliverBatch(payloads) =>
          var more := PumpBatch(old(View()), done, payloads);
          woken, done := woken + more, done + payloads;
      }
      assert outs[..|outs|] == outs;
    }

    /** One batch, after `done` has been pumped starting from `before`. */
    method PumpBatch(ghost before: D.Driver<S>, ghost done: seq<Payload>, payloads: seq<Payload>)
        returns (woken: seq<D.Answer>)
      requires log.Valid() && View() == D.PumpAll(m, before, done)
      modifies this`store, this`pending, this`answers, dedup, log
      ensures log.Valid() && View() == D.PumpAll(m, before, done + payloads)
      ensures answers == old(answers) + woken
    {
      woken := [];
      assert done + payloads[..0] == done;
      for i := 0 to |payloads|
        invariant log.Valid() && View() == D.PumpAll(m, before, done + payloads[..i])
        invariant answers == old(answers) + woken
      {
        PumpAllStep(m, before, done, payloads, i);
        if payloads[i].Op? {
          var more := PumpOne(payloads[i].op);
          woken := woken + more;
        }
      }
      assert payloads[..|payloads|] == payloads;
    }

    method PumpOne(op: WriteOp) returns (woken: seq<D.Answer>)
      requires log.Valid()
      modifies this`store, this`pending, this`answers, dedup, log
      ensures log.Valid()
      ensures View() == D.Pump(m, old(View()), Op(op))
      ensures answers == old(answers) + woken
    {
      var isNew := dedup.FirstSeenOp(op.origin, op.requestId);
      if !isNew {
        return [];
      }
      var out := Effect(m, store, op);
      store := out.0;
      var at := log.AppendOp(op);
      woken := [];
      if op.origin == id && op.requestId in pending {
        var answer := D.Answer(pending[op.requestId], op.requestId, op, at, ReplyTo(op, out.1));
        pending := pending - {op.requestId};
        woken := [answer];
        answers := answers + woken;
      }
    }

    /** `handle_write_request`: answer at once, or take the next id and broadcast.
        A failed encoding consumes no id. */
    method HandleWriteRequest<T>(client: nat, argv: seq<Bytes>, rules: Rules, floats: (S, Command) -> Resolution,
                                 encodes: bool, outs: seq<Output<T>>)
        returns (immediate: Option<Reply>, sent: Option<WriteOp>, woken: seq<D.Answer>, forward: seq<T>)
      requires Valid()
      modifies this, dedup, log
      ensures Valid()
      ensures var a := Decide(m, rules, floats, old(store), argv);
              if a.Send? && encodes then
                && immediate == None
                && sent == Some(WriteOp(id, old(nextRid), a.argv, a.clientReply))
                && View() == D.PumpAll(m, D.Broadcast(old(View()), client, a.argv, a.clientReply), Delivered(outs))
                && answers == old(answers) + woken && forward == Route(outs).trains
              else
                && immediate.Some? && sent == None && woken == [] && forward == []
                && (a.ReplyNow? ==> immediate == Some(a.reply))
                && View() == old(View())
      ensures sent.Some? ==>
                && nextRid == old(nextRid) + 1 && AllTrains(outs, forward)
                && if old(nextRid) in pending then pending[old(nextRid)] == client
                   else exists a :: a in woken && D.AnsweredUnder(a, client, (id, old(nextRid)), Delivered(outs))
    {
      woken, forward := [], [];
      var a := Decide(m, rules, floats, store, argv);
      match a
      case ReplyNow(reply) => return Some(reply), None, [], [];
      case Send(effect, clientReply) =>
        if !encodes {
          return Some(Error(Ascii("ERR failed to encode write for replication"))), None, [], [];
        }
        immediate, sent := None, Some(WriteOp(id, nextRid, effect, clientReply));
        woken, forward := BroadcastFor(client, effect, clientReply, outs);
    }

    /** Take the next id on behalf of `client`, broadcast, and pump what the kernel
        answers. The client then waits under the id, or was answered already. */
    method BroadcastFor<T>(client: nat, effect: seq<Bytes>, clientReply: Option<Reply>, outs: seq<Output<T>>)
        returns (woken: seq<D.Answer>, forward: seq<T>)
      requires Valid()
      modifies this, dedup, log
      ensures Valid()
      ensures View() == D.PumpAll(m, D.Broadcast(old(View()), client, effect, clientReply), Delivered(outs))
      ensures answers == old(answers) + woken && forward == Route(outs).trains && AllTrains(outs, forward)
      ensures nextRid == old(nextRid) + 1
      ensures if old(nextRid) in pending then pending[old(nextRid)] == client
              else exists a :: a in woken && D.AnsweredUnder(a, client, (id, old(nextRid)), Delivered(outs))
    {
      D.BroadcastAccounted(View(), client, effect, clientReply);
      issued := issued + [D.Issued(client, WriteOp(id, nextRid, effect, clientReply))];
      pending := pending[nextRid := client];
      nextRid := nextRid + 1;
      ghost var d := View();
      var hints;
      woken, forward, hints := PumpOutputs(outs);
      WriteIsBooked(m, d, Delivered(outs), old(nextRid), woken);
    }

    /** `serve_state_transfer`. */
    method ServeStateTransfer(have: nat, view: View) returns (x: Transfer<S>)
      requires Valid()
      ensures x == Build(View().node, have, Some(view))
    {
      var low := LowWater(log.View());
      if have > 0 && low <= have <= log.head {
        var tail, _ := log.Tail(have);
        return Transfer(NoSnap, Frames(tail));
      }
      var snap := Export(Node(store, dedup.origins, log.View()), Some(view));
      var tail, _ := log.Tail(snap.index);
      x := Transfer(Snap(snap), Frames(tail));
    }
  }
}
