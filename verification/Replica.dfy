/** The replica as a mutable object: the I/O-free heart of the proxy. */
module Replicas {
  import opened Wire
  import opened Dedup
  import opened DeliveredLog
  import opened Replication
  import opened StateTransfer
  import opened Store
  import opened Effects
  import opened Classify

  /** What the protocol kernel hands back; trains are opaque. */
  datatype Output<T> = ForwardTrain(train: T) | DeliverBatch(payloads: seq<Payload>) | DeclareCrash(victim: ProcId)

  datatype Applied = Applied(origin: ProcId, requestId: nat, reply: Reply)

  function PayloadsOf<T>(o: Output<T>): seq<Payload> {
    if o.DeliverBatch? then o.payloads else []
  }

  /** What a list of outputs asks for, each kind in order: payloads to apply, trains
      to forward, nodes declared crashed. */
  datatype Routed<T> = Routed(payloads: seq<Payload>, trains: seq<T>, hints: seq<ProcId>)

  function Also<T>(r: Routed<T>, o: Output<T>): Routed<T> {
    match o
    case ForwardTrain(train) => r.(trains := r.trains + [train])
    case DeliverBatch(payloads) => r.(payloads := r.payloads + payloads)
    case DeclareCrash(victim) => r.(hints := r.hints + [victim])
  }

  function Route<T>(outs: seq<Output<T>>): Routed<T> {
    if outs == [] then Routed([], [], []) else Also(Route(outs[..|outs| - 1]), outs[|outs| - 1])
  }

  function Delivered<T>(outs: seq<Output<T>>): seq<Payload> {
    Route(outs).payloads
  }

  lemma RouteStep<T>(outs: seq<Output<T>>, i: nat)
    requires i < |outs|
    ensures Route(outs[..i + 1]) == Also(Route(outs[..i]), outs[i])
    ensures Delivered(outs[..i + 1]) == Delivered(outs[..i]) + PayloadsOf(outs[i])
  {
    assert outs[..i + 1][..i] == outs[..i];
  }

  // How many payloads, trains and hints a list of outputs holds.

  function CountPayloads<T>(outs: seq<Output<T>>): nat {
    if outs == [] then 0 else
      var last := outs[|outs| - 1];
      CountPayloads(outs[..|outs| - 1]) + if last.DeliverBatch? then |last.payloads| else 0
  }

  function CountTrains<T>(outs: seq<Output<T>>): nat {
    if outs == [] then 0
    else CountTrains(outs[..|outs| - 1]) + if outs[|outs| - 1].ForwardTrain? then 1 else 0
  }

  function CountHints<T>(outs: seq<Output<T>>): nat {
    if outs == [] then 0
    else CountHints(outs[..|outs| - 1]) + if outs[|outs| - 1].DeclareCrash? then 1 else 0
  }

  /** `ps` are exactly the payloads of the outputs, in order. */
  ghost predicate AllPayloads<T>(outs: seq<Output<T>>, ps: seq<Payload>) {
    && |ps| == CountPayloads(outs)
    && forall i :: 0 <= i < |outs| && outs[i].DeliverBatch? ==> BatchAt(ps, CountPayloads(outs[..i]), outs[i].payloads)
  }

  ghost predicate BatchAt(ps: seq<Payload>, from: nat, batch: seq<Payload>) {
    from + |batch| <= |ps| && ps[from..from + |batch|] == batch
  }

  /** `trains` are exactly the trains of the outputs, in order. */
  ghost predicate AllTrains<T>(outs: seq<Output<T>>, trains: seq<T>) {
    && |trains| == CountTrains(outs)
    && forall i :: 0 <= i < |outs| && outs[i].ForwardTrain? ==>
         CountTrains(outs[..i]) < |trains| && trains[CountTrains(outs[..i])] == outs[i].train
  }

  /** `hints` are exactly the nodes that the outputs declare crashed, in order. */
  ghost predicate AllHints<T>(outs: seq<Output<T>>, hints: seq<ProcId>) {
    && |hints| == CountHints(outs)
    && forall i :: 0 <= i < |outs| && outs[i].DeclareCrash? ==>
         CountHints(outs[..i]) < |hints| && hints[CountHints(outs[..i])] == outs[i].victim
  }

  lemma BatchBehind(before: seq<Payload>, more: seq<Payload>)
    ensures BatchAt(before + more, |before|, more)
    ensures forall from: nat, batch: seq<Payload> :: BatchAt(before, from, batch) ==> BatchAt(before + more, from, batch)
  {
    forall from: nat, batch: seq<Payload> | BatchAt(before, from, batch) ensures BatchAt(before + more, from, batch) {
      assert (before + more)[from..from + |batch|] == before[from..from + |batch|];
    }
  }

  /** Routing loses, adds and reorders nothing. */
  lemma {:induction false} RoutedPayloads<T>(outs: seq<Output<T>>)
    ensures AllPayloads(outs, Delivered(outs))
  {
    if outs != [] {
      var n := |outs| - 1;
      var before := Delivered(outs[..n]);
      RoutedPayloads(outs[..n]);
      assert Delivered(outs) == before + PayloadsOf(outs[n]);
      BatchBehind(before, PayloadsOf(outs[n]));
      forall i | 0 <= i < |outs| && outs[i].DeliverBatch?
        ensures BatchAt(Delivered(outs), CountPayloads(outs[..i]), outs[i].payloads)
      {
        if i < n {
          assert outs[..n][..i] == outs[..i] && outs[..n][i] == outs[i];
          assert BatchAt(before, CountPayloads(outs[..i]), outs[i].payloads);
        }
      }
    }
  }

  lemma {:induction false} RoutedTrains<T>(outs: seq<Output<T>>)
    ensures AllTrains(outs, Route(outs).trains)
  {
    if outs != [] {
      var n := |outs| - 1;
      RoutedTrains(outs[..n]);
      forall i | 0 <= i < |outs| && outs[i].ForwardTrain?
        ensures CountTrains(outs[..i]) < |Route(outs).trains|
        ensures Route(outs).trains[CountTrains(outs[..i])] == outs[i].train
      {
        if i < n {
          assert outs[..n][..i] == outs[..i] && outs[..n][i] == outs[i];
        }
      }
    }
  }

  lemma {:induction false} RoutedHints<T>(outs: seq<Output<T>>)
    ensures AllHints(outs, Route(outs).hints)
  {
    if outs != [] {
      var n := |outs| - 1;
      RoutedHints(outs[..n]);
      forall i | 0 <= i < |outs| && outs[i].DeclareCrash?
        ensures CountHints(outs[..i]) < |Route(outs).hints|
        ensures Route(outs).hints[CountHints(outs[..i])] == outs[i].victim
      {
        if i < n {
          assert outs[..n][..i] == outs[..i] && outs[..n][i] == outs[i];
        }
      }
    }
  }

  /** The writes that delivering `ps` to `nd` applies, with their replies. */
  function AppliedBy<S>(m: Machine<S>, nd: Node<S>, ps: seq<Payload>): seq<Applied> {
    if ps == [] then [] else
      var before := ps[..|ps| - 1];
      var p := ps[|ps| - 1];
      var done := AppliedBy(m, nd, before);
      if p.Garbage? then done else
        match Deliver(m, DeliverAll(m, nd, before), p.op).1
        case None => done
        case Some(reply) => done + [Applied(p.op.origin, p.op.requestId, reply)]
  }

  /** What applying `news` on top of `hist` must report: every operation once, in
      order, with the reply of its position. */
  function Reports<S>(m: Machine<S>, hist: seq<WriteOp>, news: seq<WriteOp>): seq<Applied> {
    if news == [] then [] else
      var last := news[|news| - 1];
      Reports(m, hist, news[..|news| - 1]) +
      [Applied(last.origin, last.requestId, ReplyAt(m, hist + news, |hist + news| - 1))]
  }

  /** For a node at some history, the reported writes are exactly the stream's
      first occurrences, each with the reply of its position in the order. */
  lemma {:induction false} AppliedByIsFresh<S>(m: Machine<S>, nd: Node<S>, hist: seq<WriteOp>, base: nat, ps: seq<Payload>)
    requires AtFrom(m, nd, hist, base)
    ensures AppliedBy(m, nd, ps) == Reports(m, hist, Fresh(Keys(hist), ps))
  {
    if ps != [] {
      var before := ps[..|ps| - 1];
      var p := ps[|ps| - 1];
      AppliedByIsFresh(m, nd, hist, base, before);
      DeliverAllIsFresh(m, nd, hist, base, before);
      var news := Fresh(Keys(hist), before);
      KeysOfConcat(hist, news);
      if p.Op? {
        DeliverStep(m, DeliverAll(m, nd, before), hist + news, base, p.op);
        ReportsAppend(m, hist, news, p.op);
      }
    }
  }

  lemma ReportsAppend<S>(m: Machine<S>, hist: seq<WriteOp>, news: seq<WriteOp>, op: WriteOp)
    ensures Reports(m, hist, news + [op]) ==
            Reports(m, hist, news) + [Applied(op.origin, op.requestId, ReplyAt(m, hist + news + [op], |hist + news|))]
  {
    assert hist + news + [op] == hist + (news + [op]);
    assert (news + [op])[..|news|] == news;
  }

  lemma {:induction false} AppliedByConcat<S>(m: Machine<S>, nd: Node<S>, a: seq<Payload>, b: seq<Payload>)
    ensures AppliedBy(m, nd, a + b) == AppliedBy(m, nd, a) + AppliedBy(m, DeliverAll(m, nd, a), b)
  {
    if b == [] {
      assert a + b == a;
    } else {
      AppliedByConcat(m, nd, a, b[..|b| - 1]);
      DeliverAllConcat(m, nd, a, b[..|b| - 1]);
      assert (a + b)[..|a + b| - 1] == a + b[..|b| - 1];
    }
  }

  /** Absorbing `ps` executed its new operations, in order and once each, and reported
      them with the replies that they earned. */
  ghost predicate Absorbed<S>(m: Machine<S>, nd: Node<S>, ps: seq<Payload>, s: S, applied: seq<Applied>,
                              states: seq<S>, replies: seq<Reply>)
  {
    var news := Fresh(Dedup.Applied(nd.dedup), ps);
    && Trace(m, news, states, replies)
    && states[0] == nd.store && states[|news|] == s
    && |applied| == |news|
    && forall i :: 0 <= i < |news| ==> applied[i] == Applied(news[i].origin, news[i].requestId, replies[i])
  }

  lemma {:induction false} AbsorbExecutes<S>(m: Machine<S>, nd: Node<S>, ps: seq<Payload>)
      returns (states: seq<S>, replies: seq<Reply>)
    requires Canonical(nd.dedup)
    ensures Absorbed(m, nd, ps, DeliverAll(m, nd, ps).store, AppliedBy(m, nd, ps), states, replies)
  {
    if ps == [] {
      states, replies := [nd.store], [];
    } else {
      var before, p := ps[..|ps| - 1], ps[|ps| - 1];
      states, replies := AbsorbExecutes(m, nd, before);
      var _, _ := DeliverAllTrace(m, nd, before);
      var mid := DeliverAll(m, nd, before);
      if p.Op? {
        DeliverExecutes(m, mid, p.op);
        if Key(p.op) !in Dedup.Applied(mid.dedup) {
          var (nd', reply) := Deliver(m, mid, p.op);
          TraceGrows(m, Fresh(Dedup.Applied(nd.dedup), before), states, replies, p.op, nd'.store, reply.value);
          states, replies := states + [nd'.store], replies + [reply.value];
        }
      }
    }
  }

  lemma AbsorbStep<S, T>(m: Machine<S>, nd: Node<S>, outs: seq<Output<T>>, i: nat)
    requires i < |outs|
    ensures var before, ps := Delivered(outs[..i]), PayloadsOf(outs[i]);
            && DeliverAll(m, nd, Delivered(outs[..i + 1])) == DeliverAll(m, DeliverAll(m, nd, before), ps)
            && AppliedBy(m, nd, Delivered(outs[..i + 1])) ==
               AppliedBy(m, nd, before) + AppliedBy(m, DeliverAll(m, nd, before), ps)
  {
    RouteStep(outs, i);
    DeliverAllConcat(m, nd, Delivered(outs[..i]), PayloadsOf(outs[i]));
    AppliedByConcat(m, nd, Delivered(outs[..i]), PayloadsOf(outs[i]));
  }

  /** What to do with a client's command. */
  datatype Action = ReplyNow(reply: Reply) | Send(argv: seq<Bytes>, clientReply: Option<Reply>)

  function UnknownCommand(name: string): Reply {
    Error(Ascii("ERR unknown command '" + name + "' (not in the replication table)"))
  }

  /** The write that a non-deterministic command stands for, or the answer to it. */
  function ResolvedAction(r: Resolution): Action {
    match r
    case Immediate(reply) => ReplyNow(reply)
    case Broadcast(argv, reply) => Send(argv, Some(reply))
  }

  /** Routing of a command: reads locally, writes verbatim, resolved writes as their
      effect with the origin's reply. */
  function ActionFor<S>(m: Machine<S>, rules: Rules, floats: (S, Command) -> Resolution, s: S, cmd: Command): Action {
    match ClassOf(cmd.name)
    case ReadOnly => ReplyNow(m.query(s, cmd))
    case DeterministicWrite => Send(cmd.argv, None)
    case NonDeterministic => ResolvedAction(Resolve(m, rules, floats, s, cmd))
    case Unsupported => ReplyNow(UnknownCommand(cmd.name))
  }

  datatype ClientOutcome = Immediately(reply: Reply) | Broadcasting(requestId: nat)

  class Replica<S(!new)> {
    const id: ProcId
    const m: Machine<S>
    const dedup: WriteDedup
    const log: RingLog
    var nextRid: nat
    var store: S

    ghost predicate Valid()
      reads this, log
    {
      log.Valid()
    }

    function View(): Node<S>
      reads this, dedup, log
    {
      Node(store, dedup.origins, log.View())
    }

    constructor (id: ProcId, m: Machine<S>, cap: nat)
      ensures Valid() && fresh(dedup) && fresh(log)
      ensures this.id == id && this.m == m && nextRid == 0
      ensures View() == InitNode(m, cap)
    {
      this.id, this.m := id, m;
      nextRid, store := 0, m.init;
      dedup := new WriteDedup();
      log := new RingLog(cap);
    }

    /** Dedup, apply, log: shared by the live ring path and the catch-up path. */
    method ApplyDelivered(op: WriteOp) returns (reply: Option<Reply>)
      requires Valid()
      modifies this`store, dedup, log
      ensures Valid()
      ensures (View(), reply) == Deliver(m, old(View()), op)
      ensures Canonical(old(dedup.origins)) ==>
                if Key(op) in Dedup.Applied(old(dedup.origins)) then reply.None? && View() == old(View())
                else reply.Some? && Executed(m, op, old(store), store, reply.value)
    {
      if Canonical(dedup.origins) {
        DeliverExecutes(m, View(), op);
      }
      var isNew := dedup.FirstSeenOp(op.origin, op.requestId);
      if !isNew {
        return None;
      }
      var out := Effect(m, store, op);
      store := out.0;
      var _ := log.AppendOp(op);
      reply := Some(ReplyTo(op, out.1));
    }

    /** Apply everything a list of kernel outputs delivers, in order, skipping
        undecodable payloads and repeated operations. */
    method Absorb<T>(outs: seq<Output<T>>) returns (applied: seq<Applied>, forward: seq<T>)
      requires Valid()
      modifies this`store, dedup, log
      ensures Valid()
      ensures View() == DeliverAll(m, old(View()), Delivered(outs))
      ensures applied == AppliedBy(m, old(View()), Delivered(outs)) && forward == Route(outs).trains
      ensures AllPayloads(outs, Delivered(outs)) && AllTrains(outs, forward)
      ensures Canonical(old(dedup.origins)) ==>
                exists states, replies :: Absorbed(m, old(View()), Delivered(outs), store, applied, states, replies)
    {
      RoutedPayloads(outs);
      RoutedTrains(outs);
      if Canonical(dedup.origins) {
        var states, replies := AbsorbExecutes(m, View(), Delivered(outs));
      }
      applied, forward := [], [];
      for i := 0 to |outs|
        invariant Valid() && View() == DeliverAll(m, old(View()), Delivered(outs[..i]))
        invariant applied == AppliedBy(m, old(View()), Delivered(outs[..i])) && forward == Route(outs[..i]).trains
      {
        AbsorbStep(m, old(View()), outs, i);
        RouteStep(outs, i);
        match outs[i]
        case ForwardTrain(train) => forward := forward + [train];
        case DeclareCrash(_) =>
        case DeliverBatch(payloads) =>
          var more := AbsorbBatch(payloads);
          applied := applied + more;
      }
      assert outs[..|outs|] == outs;
    }

    method AbsorbBatch(payloads: seq<Payload>) returns (applied: seq<Applied>)
      requires Valid()
      modifies this`store, dedup, log
      ensures Valid()
      ensures View() == DeliverAll(m, old(View()), payloads)
      ensures applied == AppliedBy(m, old(View()), payloads)
    {
      applied := [];
      for i := 0 to |payloads|
        invariant Valid() && View() == DeliverAll(m, old(View()), payloads[..i])
        invariant applied == AppliedBy(m, old(View()), payloads[..i])
      {
        assert payloads[..i + 1][..i] == payloads[..i];
        if payloads[i].Op? {
          var op := payloads[i].op;
          var reply := ApplyDelivered(op);
          if reply.Some? {
            applied := applied + [Applied(op.origin, op.requestId, reply.value)];
          }
        }
      }
      assert payloads[..|payloads|] == payloads;
    }

    /** Assign an id and broadcast; `encodes` is whether the operation could be
        serialised, `outs` what the kernel answered to the local broadcast. The id
        is consumed only when something was broadcast. */
    method BroadcastWrite<T>(argv: seq<Bytes>, clientReply: Option<Reply>, encodes: bool, outs: seq<Output<T>>)
        returns (outcome: ClientOutcome, sent: Option<WriteOp>, forward: seq<T>)
      requires Valid()
      modifies this`store, this`nextRid, dedup, log
      ensures Valid()
      ensures encodes ==>
                && outcome == Broadcasting(old(nextRid)) && nextRid == old(nextRid) + 1
                && sent == Some(WriteOp(id, old(nextRid), argv, clientReply))
                && View() == DeliverAll(m, old(View()), Delivered(outs))
                && forward == Route(outs).trains && AllTrains(outs, forward)
      ensures !encodes ==>
                && outcome.Immediately? && sent == None && forward == []
                && nextRid == old(nextRid) && View() == old(View())
    {
      var requestId := nextRid;
      if !encodes {
        return Immediately(Error(Ascii("ERR failed to encode write for replication"))), None, [];
      }
      nextRid := nextRid + 1;
      sent := Some(WriteOp(id, requestId, argv, clientReply));
      var _, trains := Absorb(outs);
      outcome, forward := Broadcasting(requestId), trains;
    }

    /** `handle`: reads and refusals are answered at once and change nothing; only
        replicable writes and resolved effects are broadcast, and what the kernel
        delivers in answer is applied. */
    method Handle<T>(cmd: Command, rules: Rules, floats: (S, Command) -> Resolution, encodes: bool, outs: seq<Output<T>>)
        returns (outcome: ClientOutcome, sent: Option<WriteOp>, forward: seq<T>)
      requires Valid()
      modifies this`store, this`nextRid, dedup, log
      ensures Valid()
      ensures var a := ActionFor(m, rules, floats, old(store), cmd);
              if a.Send? && encodes then
                && outcome == Broadcasting(old(nextRid)) && nextRid == old(nextRid) + 1
                && sent == Some(WriteOp(id, old(nextRid), a.argv, a.clientReply))
                && View() == DeliverAll(m, old(View()), Delivered(outs)) && forward == Route(outs).trains
              else
                && outcome.Immediately? && (a.ReplyNow? ==> outcome.reply == a.reply)
                && sent == None && forward == []
                && View() == old(View()) && nextRid == old(nextRid)
      ensures match ClassOf(cmd.name)
              case ReadOnly => sent == None && outcome == Immediately(m.query(old(store), cmd))
              case Unsupported => sent == None && outcome.Immediately? && outcome.reply.Error?
              case DeterministicWrite =>
                encodes ==> sent == Some(WriteOp(id, old(nextRid), cmd.argv, None)) && AllTrains(outs, forward)
              case NonDeterministic =>
                match Resolve(m, rules, floats, old(store), cmd)
                case Immediate(reply) => sent == None && outcome == Immediately(reply)
                case Broadcast(argv, reply) =>
                  encodes ==> sent == Some(WriteOp(id, old(nextRid), argv, Some(reply))) && AllTrains(outs, forward)
    {
      match ClassOf(cmd.name)
      case ReadOnly =>
        return Immediately(m.query(store, cmd)), None, [];
      case DeterministicWrite =>
        outcome, sent, forward := BroadcastWrite(cmd.argv, None, encodes, outs);
      case NonDeterministic =>
        match Resolve(m, rules, floats, store, cmd) {
          case Immediate(reply) =>
            return Immediately(reply), None, [];
          case Broadcast(argv, reply) =>
            outcome, sent, forward := BroadcastWrite(argv, Some(reply), encodes, outs);
        }
      case Unsupported =>
        return Immediately(UnknownCommand(cmd.name)), None, [];
    }

    /** Survivor side of a state transfer. */
    method BuildStateTransfer(have: nat) returns (x: Transfer<S>)
      requires Valid()
      ensures x == Build(View(), have, None)
    {
      var low := LowWater(log.View());
      if have > 0 && low <= have <= log.head {
        var tail, _ := log.Tail(have);
        return Transfer(NoSnap, Frames(tail));
      }
      var snap := Export(View(), None);
      var tail, _ := log.Tail(snap.index);
      x := Transfer(Snap(snap), Frames(tail));
    }

    method ImportSnapshot(s: Snapshot<S>)
      requires Valid()
      modifies this`store, dedup, log
      ensures Valid() && View() == Import(old(View()), s)
    {
      store := s.store;
      dedup.Restore(s.dedup);
      log.Resume(s.index);
    }

    /** Rejoiner side: import the snapshot when there is one, then replay the tail,
        stopping at the first frame that does not decode. */
    method ApplyStateTransfer(x: Transfer<S>) returns (applied: nat, ok: bool)
      requires Valid()
      modifies this`store, dedup, log
      ensures Valid()
      ensures Outcome(View(), applied, ok) == ApplyTransfer(m, old(View()), x)
    {
      applied, ok := 0, false;
      match x.snap {
        case NoSnap =>
        case Snap(s) => ImportSnapshot(s);
        case BadSnap => return;
        case BadStore => return;
      }
      applied, ok := ReplayTail(x.tail);
    }

    method ReplayTail(tail: seq<TailFrame>) returns (applied: nat, ok: bool)
      requires Valid()
      modifies this`store, dedup, log
      ensures Valid()
      ensures Outcome(View(), applied, ok) == ApplyTail(m, old(View()), tail)
    {
      applied := 0;
      for i := 0 to |tail|
        invariant Valid() && Outcome(View(), applied, true) == ApplyTail(m, old(View()), tail[..i])
        invariant forall k :: 0 <= k < i ==> tail[k].Frame?
      {
        assert tail[..i + 1][..i] == tail[..i];
        if tail[i].BadFrame? {
          TailStopsAtBadFrame(m, old(View()), tail, i);
          return applied, false;
        }
        var reply := ApplyDelivered(tail[i].e.op);
        if reply.Some? {
          applied := applied + 1;
        }
      }
      assert tail[..|tail|] == tail;
      ok := true;
    }
  }
}
