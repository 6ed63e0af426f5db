/** The listener's admission gate: a global permit pool and a per-address counter
    map, taken and given back in separate atomic sections. */
module Gate {

  type Ip = nat

  const PER_IP_CONN_CAP: nat := 32

  /** Where a connection stands between acquiring and releasing its permit. */
  datatype Phase =
    | Acquired(ip: Ip)   // permit taken, address not yet checked
    | Admitted(ip: Ip)   // counted and being served
    | Rejected(ip: Ip)   // over the address cap, permit not yet returned
    | Dropped(ip: Ip)    // uncounted, permit not yet returned

  /** `conns` records every connection that holds a permit. */
  datatype State = State(available: nat, perIp: map<Ip, nat>, conns: map<nat, Phase>)

  datatype Step = Acquire(t: nat, ip: Ip) | Check(t: nat) | Decrement(t: nat) | Release(t: nat)

  predicate Enabled(s: State, e: Step) {
    match e
    case Acquire(t, _) => t !in s.conns
    case Check(t) => t in s.conns && s.conns[t].Acquired?
    case Decrement(t) => t in s.conns && s.conns[t].Admitted?
    case Release(t) => t in s.conns && (s.conns[t].Rejected? || s.conns[t].Dropped?)
  }

  function CountFor(perIp: map<Ip, nat>, ip: Ip): nat {
    if ip in perIp then perIp[ip] else 0
  }

  function SaturatingDec(c: nat): nat {
    if c == 0 then 0 else c - 1
  }

  function Next(s: State, e: Step): State
    requires Enabled(s, e)
  {
    match e
    case Acquire(t, ip) =>
      if s.available == 0 then s
      else s.(available := s.available - 1, conns := s.conns[t := Acquired(ip)])
    case Check(t) =>
      var ip := s.conns[t].ip;
      var c := CountFor(s.perIp, ip);
      if c >= PER_IP_CONN_CAP then s.(perIp := s.perIp[ip := c], conns := s.conns[t := Rejected(ip)])
      else s.(perIp := s.perIp[ip := c + 1], conns := s.conns[t := Admitted(ip)])
    case Decrement(t) =>
      var ip := s.conns[t].ip;
      s.(perIp := if ip !in s.perIp then s.perIp
                  else if SaturatingDec(s.perIp[ip]) == 0 then s.perIp - {ip}
                  else s.perIp[ip := SaturatingDec(s.perIp[ip])],
         conns := s.conns[t := Dropped(ip)])
    case Release(t) => s.(available := s.available + 1, conns := s.conns - {t})
  }

  /** The connections currently counted for an address. */
  ghost function Counted(conns: map<nat, Phase>, ip: Ip): set<nat> {
    set t | t in conns && conns[t] == Admitted(ip)
  }

  ghost predicate Inv(s: State, max: nat) {
    && s.available + |s.conns| == max
    && (forall ip :: ip in s.perIp ==> 1 <= s.perIp[ip] <= PER_IP_CONN_CAP)
    && Exact(s)
  }

  lemma PhaseChange(conns: map<nat, Phase>, t: nat, phase: Phase, ip: Ip)
    ensures Counted(conns[t := phase], ip) ==
            if phase == Admitted(ip) then Counted(conns, ip) + {t} else Counted(conns, ip) - {t}
  {
  }

  lemma NextInv(s: State, e: Step, max: nat)
    requires Inv(s, max) && Enabled(s, e)
    ensures Inv(Next(s, e), max)
  {
    match e
    case Acquire(t, ip) =>
      if s.available > 0 {
        UncountedChange(s, t, Acquired(ip));
      }
    case Check(t) =>
      CheckCounts(s, t);
      assert Next(s, e).conns.Keys == s.conns.Keys;
    case Decrement(t) =>
      DecrementCounts(s, t);
      assert Next(s, e).conns.Keys == s.conns.Keys;
    case Release(t) => ReleaseCounts(s, t);
  }

  ghost predicate Exact(s: State) {
    forall a :: CountFor(s.perIp, a) == |Counted(s.conns, a)|
  }

  /** A connection that is counted neither before nor after changes no count. */
  lemma UncountedChange(s: State, t: nat, phase: Phase)
    requires Exact(s) && !phase.Admitted? && (t in s.conns ==> !s.conns[t].Admitted?)
    ensures Exact(s.(conns := s.conns[t := phase]))
  {
    forall a ensures Counted(s.conns[t := phase], a) == Counted(s.conns, a) {
      PhaseChange(s.conns, t, phase, a);
      assert t !in Counted(s.conns, a);
    }
  }

  /** Admitting an uncounted connection adds one to its address and nothing elsewhere. */
  lemma AdmitCounts(conns: map<nat, Phase>, t: nat, ip: Ip)
    requires t in conns && !conns[t].Admitted?
    ensures forall a :: |Counted(conns[t := Admitted(ip)], a)| == |Counted(conns, a)| + if a == ip then 1 else 0
  {
    forall a ensures |Counted(conns[t := Admitted(ip)], a)| == |Counted(conns, a)| + if a == ip then 1 else 0 {
      PhaseChange(conns, t, Admitted(ip), a);
      assert t !in Counted(conns, a);
      assert Counted(conns, a) - {t} == Counted(conns, a);
    }
  }

  lemma CheckCounts(s: State, t: nat)
    requires Enabled(s, Check(t)) && Exact(s)
    ensures Exact(Next(s, Check(t)))
  {
    var ip := s.conns[t].ip;
    if CountFor(s.perIp, ip) >= PER_IP_CONN_CAP {
      UncountedChange(s, t, Rejected(ip));
      forall a ensures CountFor(Next(s, Check(t)).perIp, a) == |Counted(s.conns[t := Rejected(ip)], a)| {
        assert CountFor(s.perIp, a) == |Counted(s.conns[t := Rejected(ip)], a)|;
      }
    } else {
      AdmitCounts(s.conns, t, ip);
      forall a ensures CountFor(Next(s, Check(t)).perIp, a) == |Counted(s.conns[t := Admitted(ip)], a)| {
        assert CountFor(s.perIp, a) == |Counted(s.conns, a)|;
      }
    }
  }

  lemma ReleaseCounts(s: State, t: nat)
    requires Enabled(s, Release(t)) && Exact(s)
    ensures Exact(Next(s, Release(t)))
    ensures |s.conns - {t}| == |s.conns| - 1
  {
    assert (s.conns - {t}).Keys == s.conns.Keys - {t};
    forall a ensures Counted(s.conns - {t}, a) == Counted(s.conns, a) {
    }
  }

  lemma DecrementCounts(s: State, t: nat)
    requires Enabled(s, Decrement(t))
    requires Exact(s)
    ensures Exact(Next(s, Decrement(t)))
    ensures s.conns[t].ip in s.perIp
  {
    var s' := Next(s, Decrement(t));
    var ip := s.conns[t].ip;
    assert t in Counted(s.conns, ip) && CountFor(s.perIp, ip) == |Counted(s.conns, ip)|;
    forall a ensures CountFor(s'.perIp, a) == |Counted(s'.conns, a)| {
      PhaseChange(s.conns, t, Dropped(ip), a);
      assert CountFor(s.perIp, a) == |Counted(s.conns, a)|;
      if a == ip {
        assert t in Counted(s.conns, a);
      } else {
        assert t !in Counted(s.conns, a);
      }
    }
  }

  function Run(s: State, es: seq<Step>): State
    requires ValidRun(s, es)
    decreases |es|, 1
  {
    if es == [] then s else Next(Run(s, es[..|es| - 1]), es[|es| - 1])
  }

  predicate ValidRun(s: State, es: seq<Step>)
    decreases |es|, 0
  {
    es == [] || (ValidRun(s, es[..|es| - 1]) && Enabled(Run(s, es[..|es| - 1]), es[|es| - 1]))
  }

  lemma {:induction false} RunInv(max: nat, es: seq<Step>)
    requires ValidRun(State(max, map[], map[]), es)
    ensures Inv(Run(State(max, map[], map[]), es), max)
    decreases |es|
  {
    var start := State(max, map[], map[]);
    if es == [] {
      forall ip ensures |Counted(start.conns, ip)| == 0 {
        assert Counted(start.conns, ip) == {};
      }
    } else {
      RunInv(max, es[..|es| - 1]);
      NextInv(Run(start, es[..|es| - 1]), es[|es| - 1], max);
    }
  }

  /** Under every interleaving of all connections: permits in use never exceed the
      pool, every address has at most the cap admitted and its counter is exact,
      the map holds no zero entry, and the decrement under a guard always finds a
      positive entry. */
  lemma CapsHold(max: nat, es: seq<Step>)
    requires ValidRun(State(max, map[], map[]), es)
    ensures var s := Run(State(max, map[], map[]), es);
            && |s.conns| <= max
            && (forall ip :: |Counted(s.conns, ip)| <= PER_IP_CONN_CAP)
            && (forall ip :: ip in s.perIp <==> Counted(s.conns, ip) != {})
            && (forall t :: t in s.conns && s.conns[t].Admitted? ==>
                  s.conns[t].ip in s.perIp && s.perIp[s.conns[t].ip] >= 1)
  {
    RunInv(max, es);
    var s := Run(State(max, map[], map[]), es);
    forall ip ensures |Counted(s.conns, ip)| <= PER_IP_CONN_CAP && (ip in s.perIp <==> Counted(s.conns, ip) != {}) {
      assert CountFor(s.perIp, ip) == |Counted(s.conns, ip)|;
    }
    forall t | t in s.conns && s.conns[t].Admitted? ensures s.conns[t].ip in s.perIp {
      assert t in Counted(s.conns, s.conns[t].ip);
    }
  }

  /** When every connection is gone, the gate is as it was at the start. */
  lemma GateRecovers(max: nat, es: seq<Step>)
    requires ValidRun(State(max, map[], map[]), es)
    requires Run(State(max, map[], map[]), es).conns == map[]
    ensures Run(State(max, map[], map[]), es) == State(max, map[], map[])
  {
    CapsHold(max, es);
    RunInv(max, es);
    var s := Run(State(max, map[], map[]), es);
    forall ip ensures ip !in s.perIp {
      assert Counted(s.conns, ip) == {};
    }
    assert s.perIp == map[];
  }

  // ---------- the mutable form ----------

  /** Each method is one atomic section of the source; `conns` is a ghost record. */
  class ConnGate {
    const max: nat
    var available: nat
    var perIp: map<Ip, nat>
    ghost var conns: map<nat, Phase>

    ghost function View(): State
      reads this
    {
      State(available, perIp, conns)
    }

    ghost predicate Valid()
      reads this
    {
      Inv(View(), max)
    }

    constructor (max: nat)
      ensures Valid() && View() == State(max, map[], map[])
    {
      this.max, available, perIp, conns := max, max, map[], map[];
      new;
      RunInv(max, []);
    }

    /** `try_acquire_owned` on the semaphore. */
    method TryAcquire(t: nat, ip: Ip) returns (ok: bool)
      requires Valid() && t !in conns
      modifies this
      ensures Valid() && View() == Next(old(View()), Acquire(t, ip))
      ensures ok <==> t in conns
      ensures ok <==> old(available) > 0
      ensures available == (if ok then old(available) - 1 else 0) && perIp == old(perIp)
    {
      NextInv(View(), Acquire(t, ip), max);
      ok := available > 0;
      if ok {
        available := available - 1;
        conns := conns[t := Acquired(ip)];
      }
    }

    /** The locked section of `try_admit`. */
    method CheckAddress(t: nat, ip: Ip) returns (admitted: bool)
      requires Valid() && t in conns && conns[t] == Acquired(ip)
      modifies this
      ensures Valid() && View() == Next(old(View()), Check(t))
      ensures admitted <==> conns[t] == Admitted(ip)
      ensures admitted <==> |Counted(old(conns), ip)| < PER_IP_CONN_CAP
      ensures available == old(available)
      ensures forall a :: CountFor(perIp, a) == old(CountFor(perIp, a)) + if admitted && a == ip then 1 else 0
    {
      NextInv(View(), Check(t), max);
      assert CountFor(perIp, ip) == |Counted(conns, ip)|;
      if ip !in perIp {
        perIp := perIp[ip := 0];
      }
      admitted := perIp[ip] < PER_IP_CONN_CAP;
      if admitted {
        perIp := perIp[ip := perIp[ip] + 1];
        conns := conns[t := Admitted(ip)];
      } else {
        conns := conns[t := Rejected(ip)];
      }
    }

    /** The locked section of the guard's drop. */
    method DecrementAddress(t: nat, ip: Ip)
      requires Valid() && t in conns && conns[t] == Admitted(ip)
      modifies this
      ensures Valid() && View() == Next(old(View()), Decrement(t))
      ensures old(CountFor(perIp, ip)) == CountFor(perIp, ip) + 1
      ensures available == old(available)
      ensures forall a :: a != ip ==> CountFor(perIp, a) == old(CountFor(perIp, a))
    {
      NextInv(View(), Decrement(t), max);
      assert CountFor(perIp, ip) == |Counted(conns, ip)|;
      assert t in Counted(conns, ip);
      if ip in perIp {
        var c := SaturatingDec(perIp[ip]);
        if c == 0 {
          perIp := perIp - {ip};
        } else {
          perIp := perIp[ip := c];
        }
      }
      conns := conns[t := Dropped(ip)];
    }

    /** The permit's own drop. */
    method ReleasePermit(t: nat)
      requires Valid() && t in conns && (conns[t].Rejected? || conns[t].Dropped?)
      modifies this
      ensures Valid() && View() == Next(old(View()), Release(t))
      ensures available == old(available) + 1 && perIp == old(perIp)
    {
      NextInv(View(), Release(t), max);
      available := available + 1;
      conns := conns - {t};
    }
  }
}
