/** Successor computation on the ring of positions `0..n`. */
module Ring {

  ghost predicate Live(n: nat, dead: set<nat>, i: nat) {
    i < n && i !in dead
  }

  /** Hops from `a` forward to `b`, between 1 and `n`. */
  function Dist(n: nat, a: nat, b: nat): int {
    if a < b then b - a else b + n - a
  }

  /** `j` is the first position met going forward from `me` that is live or `me` itself. */
  ghost predicate IsNext(n: nat, dead: set<nat>, me: nat, j: nat) {
    && j < n
    && (j == me || j !in dead)
    && forall x :: Live(n, dead, x) ==> Dist(n, me, j) <= Dist(n, me, x)
  }

  /** One hop is one unit of distance, until `me` is reached. */
  lemma HopAdvances(n: nat, me: nat, j: nat)
    requires me < n && j < n
    ensures (j + 1) % n == if j + 1 == n then 0 else j + 1
    ensures j != me ==> Dist(n, me, (j + 1) % n) == Dist(n, me, j) + 1
  {
    if j + 1 == n {
      assert (j + 1) % n == 0;
    }
  }

  /** The scan of `next_alive` from candidate `j`. */
  function Scan(n: nat, dead: set<nat>, me: nat, j: nat): nat
    requires me < n && j < n
    decreases n - Dist(n, me, j)
  {
    HopAdvances(n, me, j);
    if j in dead && j != me then Scan(n, dead, me, (j + 1) % n) else j
  }

  function NextAlive(n: nat, dead: set<nat>, me: nat): nat
    requires me < n
  {
    Scan(n, dead, me, (me + 1) % n)
  }

  lemma {:induction false} ScanFindsNext(n: nat, dead: set<nat>, me: nat, j: nat)
    requires me < n && j < n
    requires forall x :: Live(n, dead, x) ==> Dist(n, me, j) <= Dist(n, me, x)
    ensures IsNext(n, dead, me, Scan(n, dead, me, j))
    decreases n - Dist(n, me, j)
  {
    HopAdvances(n, me, j);
    if j in dead && j != me {
      ScanFindsNext(n, dead, me, (j + 1) % n);
    }
  }

  /** What `next_alive` computes, for every ring size and dead set. */
  lemma NextAliveIsNext(n: nat, dead: set<nat>, me: nat)
    requires me < n
    ensures IsNext(n, dead, me, NextAlive(n, dead, me))
  {
    HopAdvances(n, me, me);
    ScanFindsNext(n, dead, me, (me + 1) % n);
  }

  /** The description pins the result. */
  lemma NextIsUnique(n: nat, dead: set<nat>, me: nat, j: nat)
    requires me < n && IsNext(n, dead, me, j)
    ensures j == NextAlive(n, dead, me)
  {
    NextAliveIsNext(n, dead, me);
    var k := NextAlive(n, dead, me);
    assert j != me ==> Live(n, dead, j);
    assert k != me ==> Live(n, dead, k);
  }

  // ---------- the live nodes form one cycle ----------

  /** The live positions in increasing order. */
  function LiveList(n: nat, dead: set<nat>): seq<nat> {
    if n == 0 then [] else
      LiveList(n - 1, dead) + if n - 1 in dead then [] else [n - 1]
  }

  lemma {:induction false} LiveListSorted(n: nat, dead: set<nat>)
    ensures forall i :: 0 <= i < |LiveList(n, dead)| ==> Live(n, dead, LiveList(n, dead)[i])
    ensures forall i, j :: 0 <= i < j < |LiveList(n, dead)| ==> LiveList(n, dead)[i] < LiveList(n, dead)[j]
    ensures forall x :: Live(n, dead, x) ==> x in LiveList(n, dead)
  {
    if n > 0 {
      LiveListSorted(n - 1, dead);
      forall x | Live(n, dead, x) ensures x in LiveList(n, dead) {
        assert x == n - 1 || Live(n - 1, dead, x);
      }
    }
  }

  /** The successor of the i-th live node is the next one in the list, wrapping. */
  lemma SuccessorInList(n: nat, dead: set<nat>, i: nat)
    requires i < |LiveList(n, dead)|
    ensures LiveList(n, dead)[i] < n
    ensures NextAlive(n, dead, LiveList(n, dead)[i]) ==
            LiveList(n, dead)[if i + 1 == |LiveList(n, dead)| then 0 else i + 1]
  {
    LiveListSorted(n, dead);
    var l := LiveList(n, dead);
    var me := l[i];
    var j := l[if i + 1 == |l| then 0 else i + 1];
    forall x | Live(n, dead, x) ensures Dist(n, me, j) <= Dist(n, me, x) {
      var k :| 0 <= k < |l| && l[k] == x;
      if i + 1 == |l| {
        assert k > 0 ==> l[0] < l[k];
        assert k < i ==> l[k] < l[i];
      } else {
        assert k < i ==> l[k] < l[i];
        assert k > i + 1 ==> l[i + 1] < l[k];
      }
    }
    NextIsUnique(n, dead, me, j);
  }

  /** Follow the successor pointers `k` times. */
  function Hops(n: nat, dead: set<nat>, me: nat, k: nat): (r: nat)
    requires me < n
    ensures r < n
  {
    if k == 0 then me else
      NextAliveIsNext(n, dead, Hops(n, dead, me, k - 1));
      NextAlive(n, dead, Hops(n, dead, me, k - 1))
  }

  lemma {:induction false} HopsInList(n: nat, dead: set<nat>, i: nat, k: nat)
    requires i < |LiveList(n, dead)| && LiveList(n, dead)[i] < n && k <= |LiveList(n, dead)|
    ensures Hops(n, dead, LiveList(n, dead)[i], k) ==
            LiveList(n, dead)[if i + k < |LiveList(n, dead)| then i + k else i + k - |LiveList(n, dead)|]
  {
    if k > 0 {
      HopsInList(n, dead, i, k - 1);
      var l := |LiveList(n, dead)|;
      SuccessorInList(n, dead, if i + (k - 1) < l then i + (k - 1) else i + (k - 1) - l);
    }
  }

  /** The place in the list reached after `k` of `p` hops from place `i`. */
  function Wrap(i: nat, k: nat, p: nat): int {
    if i + k < p then i + k else i + k - p
  }

  /** Reading a list of distinct values from place `i` on, wrapping around, meets
      each of them once. */
  lemma RotationVisitsAll(l: seq<nat>, i: nat, orbit: seq<nat>)
    requires i < |l| && |orbit| == |l|
    requires forall a, b :: 0 <= a < b < |l| ==> l[a] != l[b]
    requires forall k :: 0 <= k < |l| ==> 0 <= Wrap(i, k, |l|) < |l| && orbit[k] == l[Wrap(i, k, |l|)]
    ensures forall x :: x in l ==> x in orbit
    ensures forall a, b :: 0 <= a < b < |orbit| ==> orbit[a] != orbit[b]
  {
    forall x | x in l ensures x in orbit {
      var t :| 0 <= t < |l| && l[t] == x;
      var k := if i <= t then t - i else t + |l| - i;
      assert Wrap(i, k, |l|) == t;
      assert orbit[k] == x;
    }
  }

  function Orbit(n: nat, dead: set<nat>, me: nat, p: nat): seq<nat>
    requires me < n
  {
    seq(p, k requires 0 <= k < p => Hops(n, dead, me, k))
  }

  lemma OrbitIsRotation(n: nat, dead: set<nat>, i: nat)
    requires i < |LiveList(n, dead)| && LiveList(n, dead)[i] < n
    ensures var l := LiveList(n, dead);
            var orbit := Orbit(n, dead, l[i], |l|);
            && Hops(n, dead, l[i], |l|) == l[i]
            && forall k :: 0 <= k < |l| ==> 0 <= Wrap(i, k, |l|) < |l| && orbit[k] == l[Wrap(i, k, |l|)]
  {
    var l := LiveList(n, dead);
    HopsInList(n, dead, i, |l|);
    forall k | 0 <= k < |l| ensures Orbit(n, dead, l[i], |l|)[k] == l[Wrap(i, k, |l|)] {
      HopsInList(n, dead, i, k);
    }
  }

  /** From any live node, the successor pointers visit every live node exactly
      once in as many hops as there are live nodes, and come back to the start. */
  lemma OneCycle(n: nat, dead: set<nat>, me: nat)
    requires Live(n, dead, me)
    ensures var orbit := Orbit(n, dead, me, |LiveList(n, dead)|);
            && Hops(n, dead, me, |orbit|) == me
            && (forall x :: x in orbit <==> Live(n, dead, x))
            && (forall a, b :: 0 <= a < b < |orbit| ==> orbit[a] != orbit[b])
  {
    LiveListSorted(n, dead);
    var l := LiveList(n, dead);
    var i :| 0 <= i < |l| && l[i] == me;
    OrbitIsRotation(n, dead, i);
    RotationVisitsAll(l, i, Orbit(n, dead, me, |l|));
  }

  // ---------- excluding and readmitting ----------

  /** Excluding a live node changes exactly the successor of its nearest live
      predecessor, which now points past it. */
  lemma ExcludeChangesOnePointer(n: nat, dead: set<nat>, me: nat, victim: nat)
    requires Live(n, dead, me) && Live(n, dead, victim) && me != victim
    ensures NextAlive(n, dead + {victim}, me) ==
            if NextAlive(n, dead, me) == victim then NextAlive(n, dead, victim) else NextAlive(n, dead, me)
  {
    NextAliveIsNext(n, dead, me);
    NextAliveIsNext(n, dead, victim);
    var was := NextAlive(n, dead, me);
    var now := if was == victim then NextAlive(n, dead, victim) else was;
    forall x | Live(n, dead + {victim}, x) ensures Dist(n, me, now) <= Dist(n, me, x) {
      assert Live(n, dead, x);
    }
    assert Live(n, dead, me);
    NextIsUnique(n, dead + {victim}, me, now);
  }

  /** Exactly one live node pointed at the victim. */
  lemma OnePredecessor(n: nat, dead: set<nat>, a: nat, b: nat)
    requires Live(n, dead, a) && Live(n, dead, b) && NextAlive(n, dead, a) == NextAlive(n, dead, b)
    ensures a == b
  {
    LiveListSorted(n, dead);
    var l := LiveList(n, dead);
    var i :| 0 <= i < |l| && l[i] == a;
    var j :| 0 <= j < |l| && l[j] == b;
    SuccessorInList(n, dead, i);
    SuccessorInList(n, dead, j);
    var s, t := if i + 1 == |l| then 0 else i + 1, if j + 1 == |l| then 0 else j + 1;
    assert l[s] == l[t];
    assert s == t;
  }

  // ---------- the driver's view ----------

  /** A membership change that a node learns of. */
  datatype Change = Exclude(victim: nat) | Readmit(rejoiner: nat)

  /** What a node keeps about the ring. */
  datatype Pointers = Pointers(dead: set<nat>, succ: nat)

  /** The successor is looked up again only when the dead set changes. */
  function Follow(id: nat, n: nat, p: Pointers, c: Change): Pointers
    requires id < n
  {
    match c
    case Exclude(v) => if v in p.dead then p else Pointers(p.dead + {v}, NextAlive(n, p.dead + {v}, id))
    case Readmit(r) => if r !in p.dead then p else Pointers(p.dead - {r}, NextAlive(n, p.dead - {r}, id))
  }

  function FollowAll(id: nat, n: nat, p: Pointers, changes: seq<Change>): Pointers
    requires id < n
  {
    if changes == [] then p
    else Follow(id, n, FollowAll(id, n, p, changes[..|changes| - 1]), changes[|changes| - 1])
  }

  /** The last thing said about a node decides whether it is dead. */
  function DeadAfter(dead: set<nat>, changes: seq<Change>, x: nat): bool {
    if changes == [] then x in dead else
      match changes[|changes| - 1]
      case Exclude(v) => v == x || DeadAfter(dead, changes[..|changes| - 1], x)
      case Readmit(r) => r != x && DeadAfter(dead, changes[..|changes| - 1], x)
  }

  /** After any sequence of exclusions and readmissions, repeated ones included, a node
      is taken for dead exactly if the last change about it excluded it, and the
      successor is the next live node. */
  lemma {:induction false} SuccessorAfterChanges(id: nat, n: nat, p: Pointers, changes: seq<Change>)
    requires id < n && p.succ == NextAlive(n, p.dead, id)
    ensures var q := FollowAll(id, n, p, changes);
            && (forall x :: x in q.dead <==> DeadAfter(p.dead, changes, x))
            && IsNext(n, q.dead, id, q.succ) && q.succ == NextAlive(n, q.dead, id)
  {
    NextAliveIsNext(n, FollowAll(id, n, p, changes).dead, id);
    if changes != [] {
      SuccessorAfterChanges(id, n, p, changes[..|changes| - 1]);
    }
  }

  /** The part of the driver state the ring is kept in, and its updates: both are
      no-ops when the membership does not change. */
  class RingView {
    const id: nat
    const n: nat
    var dead: set<nat>
    var succ: nat

    ghost predicate Valid()
      reads this
    {
      id < n && succ == NextAlive(n, dead, id)
    }

    function View(): Pointers
      reads this
    {
      Pointers(dead, succ)
    }

    /** A cold start: nobody is dead. */
    constructor (id: nat, n: nat)
      requires id < n
      ensures Valid() && dead == {} && this.id == id && this.n == n
    {
      this.id, this.n := id, n;
      dead, succ := {}, (id + 1) % n;
    }

    /** A promotion: the survivor's dead set without the node itself. */
    constructor Promoted(id: nat, n: nat, viewDead: set<nat>)
      requires id < n
      ensures Valid() && dead == viewDead - {id} && this.id == id && this.n == n
    {
      this.id, this.n := id, n;
      var others := set d | d in viewDead && d != id;
      dead := others;
      new;
      var s := ScanForward(id, n, others);
      succ := s;
      assert others == viewDead - {id};
    }

    method ExcludeNode(victim: nat) returns (retargeted: bool)
      requires Valid()
      modifies this
      ensures Valid() && dead == old(dead) + {victim}
      ensures View() == Follow(id, n, old(View()), Exclude(victim))
      ensures retargeted <==> succ != old(succ)
      ensures victim in old(dead) ==> succ == old(succ)
      ensures Live(n, old(dead), id) && Live(n, old(dead), victim) && id != victim ==>
                succ == if old(succ) == victim then NextAlive(n, old(dead), victim) else old(succ)
    {
      if victim in dead {
        assert dead + {victim} == dead;
        return false;
      }
      if id !in dead && victim < n && id != victim {
        ExcludeChangesOnePointer(n, dead, id, victim);
      }
      dead := dead + {victim};
      var ns := ScanForward(id, n, dead);
      retargeted := ns != succ;
      if retargeted {
        succ := ns;
      }
    }

    /** Readmission undoes an exclusion. */
    method ReadmitNode(rejoiner: nat) returns (retargeted: bool)
      requires Valid()
      modifies this
      ensures Valid() && dead == old(dead) - {rejoiner}
      ensures View() == Follow(id, n, old(View()), Readmit(rejoiner))
      ensures retargeted <==> succ != old(succ)
      ensures forall before :: old(dead) == before + {rejoiner} && rejoiner !in before ==>
                dead == before && succ == NextAlive(n, before, id)
    {
      if rejoiner !in dead {
        assert dead - {rejoiner} == dead;
        return false;
      }
      dead := dead - {rejoiner};
      var ns := ScanForward(id, n, dead);
      retargeted := ns != succ;
      if retargeted {
        succ := ns;
      }
      assert forall before :: old(dead) == before + {rejoiner} && rejoiner !in before ==> dead == before;
    }
  }

  /** `next_alive`. */
  method ScanForward(me: nat, n: nat, dead: set<nat>) returns (j: nat)
    requires me < n
    ensures j == NextAlive(n, dead, me)
    ensures IsNext(n, dead, me, j)
  {
    j := (me + 1) % n;
    while j in dead && j != me
      invariant j < n && Scan(n, dead, me, j) == NextAlive(n, dead, me)
      decreases n - Dist(n, me, j)
    {
      HopAdvances(n, me, j);
      j := (j + 1) % n;
    }
    NextAliveIsNext(n, dead, me);
  }
}
