/** Hawkeye's OPTgen: an exact-time counter, its optimality, and the 128-slot ring that refines it. */
module OptgenSpec {
  import opened Common

  const QUANTA: int := 128
  const TIMER_SIZE: int := 1024

  // ---- OPTgen with unbounded time. Tick t may offer one reuse interval [p, t). ----

  /** offers[t] == Some(p): at tick t the interval [p, t) is offered. Ticks before 0 are idle. */
  type Offers = seq<Option<int>>

  predicate Eligible(offers: Offers, t: nat)
  {
    t < |offers| && offers[t].Some? && 1 <= t - offers[t].value < QUANTA
  }

  predicate Covers(offers: Offers, t: nat, x: int) {
    t < |offers| && offers[t].Some? && offers[t].value <= x < t
  }

  /** How many intervals of S cover tick x. */
  ghost function Load(offers: Offers, S: set<nat>, x: int): nat {
    |set t | t in S && Covers(offers, t, x)|
  }

  ghost predicate Room(offers: Offers, S: set<nat>, capacity: nat, p: int, t: int) {
    forall x | p <= x < t :: Load(offers, S, x) < capacity
  }

  /** The ends of the intervals accepted during the first n ticks. */
  ghost function Accepted(offers: Offers, capacity: nat, n: nat): set<nat>
    requires n <= |offers|
  {
    if n == 0 then {}
    else
      var A := Accepted(offers, capacity, n - 1);
      if Eligible(offers, n - 1) && Room(offers, A, capacity, offers[n-1].value, n - 1) then A + {n - 1} else A
  }

  // ---- Optimality ----

  /** A set of offered intervals that a cache of this capacity could have kept. */
  ghost predicate Feasible(offers: Offers, capacity: nat, S: set<nat>) {
    && (forall t | t in S :: Eligible(offers, t))
    && (forall x :: Load(offers, S, x) <= capacity)
  }

  lemma LoadAdd(offers: Offers, S: set<nat>, t: nat, x: int)
    requires t !in S
    ensures Load(offers, S + {t}, x) == Load(offers, S, x) + if Covers(offers, t, x) then 1 else 0
  {
    var A, B := set s | s in S && Covers(offers, s, x), set s | s in S + {t} && Covers(offers, s, x);
    assert B == if Covers(offers, t, x) then A + {t} else A;
  }

  lemma LoadMonotone(offers: Offers, S: set<nat>, T: set<nat>, x: int)
    requires S <= T
    ensures Load(offers, S, x) <= Load(offers, T, x)
  {
    SubsetSize(set t | t in S && Covers(offers, t, x), set t | t in T && Covers(offers, t, x));
  }

  lemma SubsetSize(A: set<nat>, B: set<nat>)
    requires A <= B
    ensures |A| <= |B|
  {
    assert B == A + (B - A);
  }

  lemma LoadWitness(offers: Offers, S: set<nat>, T: set<nat>, x: int) returns (t: nat)
    requires Load(offers, S, x) < Load(offers, T, x)
    ensures t in T && t !in S && Covers(offers, t, x)
  {
    var A, B := set s | s in S && Covers(offers, s, x), set s | s in T && Covers(offers, s, x);
    if B <= A {
      SubsetSize(B, A);
    }
    t :| t in B && t !in A;
  }

  lemma {:induction false} AcceptedBounds(offers: Offers, capacity: nat, n: nat)
    requires n <= |offers|
    ensures forall t | t in Accepted(offers, capacity, n) :: t < n && Eligible(offers, t)
  {
    if n > 0 {
      AcceptedBounds(offers, capacity, n - 1);
    }
  }

  /** The accepted set never overloads the cache. */
  lemma {:induction false} AcceptedFeasible(offers: Offers, capacity: nat, n: nat)
    requires n <= |offers|
    ensures Feasible(offers, capacity, Accepted(offers, capacity, n))
  {
    AcceptedBounds(offers, capacity, n);
    if n == 0 {
      forall x ensures Load(offers, {}, x) == 0 {
        assert (set t | t in {} && Covers(offers, t, x)) == {};
      }
    } else {
      var A := Accepted(offers, capacity, n - 1);
      AcceptedBounds(offers, capacity, n - 1);
      AcceptedFeasible(offers, capacity, n - 1);
      forall x ensures Load(offers, Accepted(offers, capacity, n), x) <= capacity {
        LoadAdd(offers, A, n - 1, x);
      }
    }
  }

  function Prefix(S: set<nat>, k: nat): set<nat> {
    set t | t in S && t < k
  }

  /** Among the later intervals that reach back before k, one that starts first. */
  lemma {:induction false} EarliestStart(offers: Offers, T: set<nat>) returns (j: nat)
    requires T != {} && forall t | t in T :: Eligible(offers, t)
    ensures j in T && Eligible(offers, j)
    ensures forall t | t in T :: Eligible(offers, t) && offers[j].value <= offers[t].value
    decreases |T|
  {
    j :| j in T;
    if T != {j} {
      var i := EarliestStart(offers, T - {j});
      if offers[i].value <= offers[j].value {
        j := i;
      }
    }
  }

  /** Exchange step: a feasible set that agrees with OPTgen before tick k can be changed, without
      losing an interval, into one that agrees up to and including tick k. */
  lemma Exchange(offers: Offers, capacity: nat, S: set<nat>, k: nat) returns (S': set<nat>)
    requires k < |offers| && Feasible(offers, capacity, S)
    requires Prefix(S, k) == Accepted(offers, capacity, k)
    ensures Feasible(offers, capacity, S') && |S'| >= |S|
    ensures Prefix(S', k + 1) == Accepted(offers, capacity, k + 1)
  {
    var A := Accepted(offers, capacity, k);
    var accepts := Eligible(offers, k) && Room(offers, A, capacity, offers[k].value, k);
    if k in S {
      if !accepts {
        RejectedNotFeasible(offers, capacity, S, k);
      }
      S' := S;
      assert Prefix(S, k + 1) == A + {k};
    } else if !accepts {
      S' := S;
      assert Prefix(S, k + 1) == A;
    } else {
      S' := SwapIn(offers, capacity, S, k);
    }
  }

  lemma RejectedNotFeasible(offers: Offers, capacity: nat, S: set<nat>, k: nat)
    requires k < |offers| && Feasible(offers, capacity, S) && k in S
    requires Prefix(S, k) == Accepted(offers, capacity, k)
    ensures Room(offers, Accepted(offers, capacity, k), capacity, offers[k].value, k)
  {
    var A := Accepted(offers, capacity, k);
    forall x | offers[k].value <= x < k ensures Load(offers, A, x) < capacity {
      LoadAdd(offers, A, k, x);
      LoadMonotone(offers, A + {k}, S, x);
    }
  }

  /** At a tick of k's interval that a later interval of S does not relieve, S leaves room. */
  lemma RoomUnlessLater(offers: Offers, capacity: nat, S: set<nat>, k: nat, x: int)
    requires Eligible(offers, k) && Feasible(offers, capacity, S) && k !in S && Covers(offers, k, x)
    requires Prefix(S, k) == Accepted(offers, capacity, k)
    requires Room(offers, Accepted(offers, capacity, k), capacity, offers[k].value, k)
    requires forall t | t in S && t > k :: !Covers(offers, t, x)
    ensures Load(offers, S, x) < capacity
  {
    var A := Accepted(offers, capacity, k);
    if Load(offers, A, x) < Load(offers, S, x) {
      var t := LoadWitness(offers, A, S, x);
      assert false;
    }
  }

  lemma LoadReplace(offers: Offers, S: set<nat>, j: nat, k: nat, x: int)
    requires j in S && k !in S
    ensures Load(offers, S - {j} + {k}, x)
      == Load(offers, S, x) + (if Covers(offers, k, x) then 1 else 0) - (if Covers(offers, j, x) then 1 else 0)
  {
    LoadAdd(offers, S - {j}, k, x);
    LoadAdd(offers, S - {j}, j, x);
    assert S - {j} + {j} == S;
  }

  /** With no later interval starting before k, k can simply be added. */
  lemma AddIn(offers: Offers, capacity: nat, S: set<nat>, T: set<nat>, k: nat)
    requires Eligible(offers, k) && Feasible(offers, capacity, S) && k !in S
    requires Prefix(S, k) == Accepted(offers, capacity, k)
    requires Room(offers, Accepted(offers, capacity, k), capacity, offers[k].value, k)
    requires T == (set t | t in S && t > k && offers[t].value < k) && T == {}
    ensures Feasible(offers, capacity, S + {k})
  {
    forall x ensures Load(offers, S + {k}, x) <= capacity {
      LoadAdd(offers, S, k, x);
      if Covers(offers, k, x) {
        assert forall t | t in S && t > k :: t !in T;
        RoomUnlessLater(offers, capacity, S, k, x);
      }
    }
  }

  /** The later interval that starts first covers every tick of k's interval that any covers. */
  lemma SwapOut(offers: Offers, capacity: nat, S: set<nat>, T: set<nat>, k: nat) returns (S': set<nat>)
    requires Eligible(offers, k) && Feasible(offers, capacity, S) && k !in S
    requires Prefix(S, k) == Accepted(offers, capacity, k)
    requires Room(offers, Accepted(offers, capacity, k), capacity, offers[k].value, k)
    requires T == (set t | t in S && t > k && offers[t].value < k) && T != {}
    ensures Feasible(offers, capacity, S') && |S'| >= |S|
    ensures k in S' && S' <= S + {k} && Prefix(S', k) == Prefix(S, k)
  {
    var j := EarliestStart(offers, T);
    S' := S - {j} + {k};
    forall x ensures Load(offers, S', x) <= capacity {
      LoadReplace(offers, S, j, k, x);
      if Covers(offers, k, x) && !Covers(offers, j, x) {
        forall t | t in S && t > k ensures !Covers(offers, t, x) {
          assert Covers(offers, t, x) ==> t in T;
        }
        RoomUnlessLater(offers, capacity, S, k, x);
      }
    }
  }

  lemma PrefixNext(S: set<nat>, S': set<nat>, k: nat)
    requires k in S' && Prefix(S', k) == Prefix(S, k)
    ensures Prefix(S', k + 1) == Prefix(S, k) + {k}
  {
    assert Prefix(S', k + 1) == Prefix(S', k) + {k};
  }

  lemma SwapIn(offers: Offers, capacity: nat, S: set<nat>, k: nat) returns (S': set<nat>)
    requires Eligible(offers, k) && Feasible(offers, capacity, S) && k !in S
    requires Prefix(S, k) == Accepted(offers, capacity, k)
    requires Room(offers, Accepted(offers, capacity, k), capacity, offers[k].value, k)
    ensures Feasible(offers, capacity, S') && |S'| >= |S|
    ensures Prefix(S', k + 1) == Accepted(offers, capacity, k + 1)
  {
    var T := set t | t in S && t > k && offers[t].value < k;
    if T == {} {
      AddIn(offers, capacity, S, T, k);
      S' := S + {k};
      assert Prefix(S', k) == Prefix(S, k);
    } else {
      S' := SwapOut(offers, capacity, S, T, k);
    }
    PrefixNext(S, S', k);
  }

  lemma {:induction false} ExchangeAll(offers: Offers, capacity: nat, S: set<nat>, k: nat)
    requires k <= |offers| && Feasible(offers, capacity, S)
    requires Prefix(S, k) == Accepted(offers, capacity, k)
    ensures |S| <= |Accepted(offers, capacity, |offers|)|
    decreases |offers| - k
  {
    if k == |offers| {
      assert Prefix(S, k) == S;
    } else {
      var S' := Exchange(offers, capacity, S, k);
      ExchangeAll(offers, capacity, S', k + 1);
    }
  }

  /** OPTgen is optimal: no set of offered intervals that fits the capacity is larger than the set
      it accepts online. */
  lemma Optimal(offers: Offers, capacity: nat, S: set<nat>)
    requires Feasible(offers, capacity, S)
    ensures Feasible(offers, capacity, Accepted(offers, capacity, |offers|))
    ensures |S| <= |Accepted(offers, capacity, |offers|)|
  {
    AcceptedFeasible(offers, capacity, |offers|);
    assert Prefix(S, 0) == Accepted(offers, capacity, 0);
    ExchangeAll(offers, capacity, S, 0);
  }
}

/** The implementation: 128 saturating slots indexed by a 10-bit clock. */
module OptgenRing {
  import opened OptgenSpec

  /** How far slot s lies after slot p, going round the ring. */
  function Offset(p: int, s: int): int { if s >= p then s - p else s - p + QUANTA }

  function NextSlot(s: int): (n: int)
    requires 0 <= s < QUANTA
    ensures n == if s == QUANTA - 1 then 0 else s + 1
  {
    (s + 1) % QUANTA
  }

  /** The slots that the walk from previous up to current visits. */
  predicate Visits(previous: nat, current: nat, s: nat) {
    s < QUANTA && Offset(previous % QUANTA, s) < Offset(previous % QUANTA, current % QUANTA)
  }

  /** What addInterval does to the ring. */
  ghost predicate AddSpec(occ: seq<nat>, capacity: nat, previous: nat, current: nat, distance: nat,
                          accepted: bool, occ': seq<nat>)
  {
    && |occ| == |occ'| == QUANTA
    && (accepted <==>
          1 <= distance < QUANTA && forall s | 0 <= s < QUANTA && Visits(previous, current, s) :: occ[s] < capacity)
    && (forall s | 0 <= s < QUANTA ::
          occ'[s] == occ[s] + if accepted && Visits(previous, current, s) then 1 else 0)
  }

  class Optgen {
    const capacity: nat
    const occupancy: array<nat>

    constructor (capacity: nat)
      ensures this.capacity == (if capacity < 1 then 1 else capacity)
      ensures fresh(occupancy) && occupancy.Length == QUANTA
      ensures forall s | 0 <= s < QUANTA :: occupancy[s] == 0
    {
      this.capacity := if capacity < 1 then 1 else capacity;
      occupancy := new nat[QUANTA](_ => 0);
    }

    method Advance(quantum: nat)
      requires occupancy.Length == QUANTA
      modifies occupancy
      ensures occupancy[..] == old(occupancy[..])[quantum % QUANTA := 0]
    {
      occupancy[quantum % QUANTA] := 0;
    }

    method AddInterval(previous: nat, current: nat, distance: nat) returns (accepted: bool)
      requires occupancy.Length == QUANTA
      modifies occupancy
      ensures AddSpec(old(occupancy[..]), capacity, previous, current, distance, accepted, occupancy[..])
    {
      if distance == 0 || distance >= QUANTA {
        return false;
      }
      ghost var occ := occupancy[..];
      var start := previous % QUANTA;
      var quantum := start;
      var end := current % QUANTA;
      while quantum != end
        invariant 0 <= quantum < QUANTA && Offset(start, quantum) <= Offset(start, end)
        invariant forall s | 0 <= s < QUANTA && Offset(start, s) < Offset(start, quantum) :: occ[s] < capacity
        decreases Offset(start, end) - Offset(start, quantum)
      {
        if occupancy[quantum] >= capacity {
          assert Visits(previous, current, quantum);
          return false;
        }
        quantum := NextSlot(quantum);
      }
      quantum := start;
      while quantum != end
        invariant 0 <= quantum < QUANTA && Offset(start, quantum) <= Offset(start, end)
        invariant forall s | 0 <= s < QUANTA ::
          occupancy[s] == occ[s] + if Offset(start, s) < Offset(start, quantum) then 1 else 0
        decreases Offset(start, end) - Offset(start, quantum)
      {
        occupancy[quantum] := occupancy[quantum] + 1;
        quantum := NextSlot(quantum);
      }
      return true;
    }
  }
}

/** The ring with its wrapping clock makes the decisions of the unbounded-time specification. */
module OptgenRefinement {
  import opened Common
  import opened OptgenSpec
  import opened OptgenRing

  /** What State::access passes as `distance`: the 10-bit difference of the two clock readings. */
  function Elapsed(now: nat, lastTime: nat): int {
    (now % TIMER_SIZE + TIMER_SIZE - lastTime) % TIMER_SIZE
  }

  /** The absolute start of the interval that the ring sees at tick `now`. */
  function SeenStart(now: nat, lastTime: nat): int {
    now - Elapsed(now, lastTime)
  }

  /** Each slot holds the load of the one tick of the last 128 that it stands for. */
  ghost predicate RingInv(occ: seq<nat>, offers: Offers, capacity: nat) {
    && |occ| == QUANTA
    && forall x | |offers| - QUANTA <= x < |offers| ::
         occ[x % QUANTA] == Load(offers, Accepted(offers, capacity, |offers|), x)
  }

  lemma EmptyRing(occ: seq<nat>, capacity: nat)
    requires |occ| == QUANTA && forall s | 0 <= s < QUANTA :: occ[s] == 0
    ensures RingInv(occ, [], capacity)
  {
    forall x ensures Load([], {}, x) == 0 {
      assert (set t | t in {} && Covers([], t, x)) == {};
    }
  }

  // ---- Slot arithmetic ----

  /** The slot of a tick at most 128 before now. */
  lemma SlotBehind(now: int, back: int)
    requires 0 <= back <= QUANTA
    ensures (now - back) % QUANTA ==
      if back <= now % QUANTA then now % QUANTA - back else now % QUANTA - back + QUANTA
  {
  }

  lemma SameSlot(x: int, y: int, k: int)
    requires x == y + TIMER_SIZE * k
    ensures x % QUANTA == y % QUANTA
  {
  }

  lemma ClockSlots(now: nat, lastTime: nat)
    requires lastTime < TIMER_SIZE
    ensures now % TIMER_SIZE % QUANTA == now % QUANTA
    ensures lastTime % QUANTA == SeenStart(now, lastTime) % QUANTA
    ensures 0 <= Elapsed(now, lastTime) < TIMER_SIZE
  {
    var q, r := now / TIMER_SIZE, now % TIMER_SIZE;
    SameSlot(now, r, q);
    if lastTime <= r {
      assert Elapsed(now, lastTime) == r - lastTime;
      SameSlot(SeenStart(now, lastTime), lastTime, q);
    } else {
      assert Elapsed(now, lastTime) == r - lastTime + TIMER_SIZE;
      SameSlot(SeenStart(now, lastTime), lastTime, q - 1);
    }
  }

  /** From the slot p that lies e behind c, the walk visits the slot s that lies back behind c when back <= e. */
  lemma RingDistance(p: nat, c: nat, s: nat, e: nat, back: nat)
    requires c < QUANTA && 1 <= e < QUANTA && 1 <= back <= QUANTA
    requires p == if e <= c then c - e else c - e + QUANTA
    requires s == if back <= c then c - back else c - back + QUANTA
    ensures (Visits(p, c, s) <==> back <= e) && Offset(p, c) == e
  {
  }

  /** The walk visits exactly the slots of the ticks in [start, now): it takes `distance` steps. */
  lemma VisitsInterval(now: nat, lastTime: nat, x: int)
    requires lastTime < TIMER_SIZE && 1 <= Elapsed(now, lastTime) < QUANTA
    requires now - QUANTA <= x < now
    ensures Visits(lastTime % QUANTA, now % TIMER_SIZE % QUANTA, x % QUANTA) <==> SeenStart(now, lastTime) <= x
    ensures Offset(lastTime % QUANTA, now % TIMER_SIZE % QUANTA) == Elapsed(now, lastTime)
  {
    ClockSlots(now, lastTime);
    SlotBehind(now, Elapsed(now, lastTime));
    SlotBehind(now, now - x);
    RingDistance(lastTime % QUANTA, now % QUANTA, x % QUANTA, Elapsed(now, lastTime), now - x);
  }

  /** Every slot stands for a tick of the window. */
  function TickOf(now: int, s: int): (x: int)
    requires 0 <= s < QUANTA
    ensures now - QUANTA <= x < now && x % QUANTA == s
  {
    now - QUANTA + (s - now) % QUANTA
  }

  // ---- One tick ----

  lemma {:induction false} AcceptedExtend(offers: Offers, o: Option<int>, capacity: nat, n: nat)
    requires n <= |offers|
    ensures Accepted(offers + [o], capacity, n) == Accepted(offers, capacity, n)
  {
    if n > 0 {
      AcceptedExtend(offers, o, capacity, n - 1);
      AcceptedBounds(offers, capacity, n - 1);
      var A := Accepted(offers, capacity, n - 1);
      forall x ensures Load(offers + [o], A, x) == Load(offers, A, x) {
        LoadExtend(offers, o, A, x);
      }
    }
  }

  lemma LoadExtend(offers: Offers, o: Option<int>, S: set<nat>, x: int)
    requires forall t | t in S :: t < |offers|
    ensures Load(offers + [o], S, x) == Load(offers, S, x)
  {
    assert (set t | t in S && Covers(offers + [o], t, x)) == (set t | t in S && Covers(offers, t, x));
  }

  /** The specification's decision on an offer [p, |offers|). */
  ghost predicate Accepts(offers: Offers, capacity: nat, p: int) {
    && 1 <= |offers| - p < QUANTA
    && Room(offers, Accepted(offers, capacity, |offers|), capacity, p, |offers|)
  }

  ghost predicate AcceptsOffer(offers: Offers, capacity: nat, o: Option<int>) {
    o.Some? && Accepts(offers, capacity, o.value)
  }

  lemma AcceptedNext(offers: Offers, o: Option<int>, capacity: nat)
    ensures var A := Accepted(offers, capacity, |offers|);
      Accepted(offers + [o], capacity, |offers| + 1) == if AcceptsOffer(offers, capacity, o) then A + {|offers|} else A
  {
    var A := Accepted(offers, capacity, |offers|);
    AcceptedExtend(offers, o, capacity, |offers|);
    AcceptedBounds(offers, capacity, |offers|);
    forall x ensures Load(offers + [o], A, x) == Load(offers, A, x) {
      LoadExtend(offers, o, A, x);
    }
  }

  /** The ring's test is the specification's test. */
  lemma RingDecides(occ: seq<nat>, offers: Offers, capacity: nat, lastTime: nat)
    requires RingInv(occ, offers, capacity) && lastTime < TIMER_SIZE
    ensures var now, d := |offers|, Elapsed(|offers|, lastTime);
      Accepts(offers, capacity, SeenStart(now, lastTime)) <==>
        1 <= d < QUANTA && forall s | 0 <= s < QUANTA &&
          Visits(lastTime % QUANTA, now % TIMER_SIZE % QUANTA, s) :: occ[s] < capacity
  {
    var now, d, p := |offers|, Elapsed(|offers|, lastTime), SeenStart(|offers|, lastTime);
    var A := Accepted(offers, capacity, now);
    if 1 <= d < QUANTA {
      if Room(offers, A, capacity, p, now) {
        forall s | 0 <= s < QUANTA && Visits(lastTime % QUANTA, now % TIMER_SIZE % QUANTA, s)
          ensures occ[s] < capacity
        {
          var x := TickOf(now, s);
          VisitsInterval(now, lastTime, x);
          assert Load(offers, A, x) < capacity;
        }
      } else {
        var x :| p <= x < now && Load(offers, A, x) >= capacity;
        VisitsInterval(now, lastTime, x);
        assert occ[x % QUANTA] >= capacity;
      }
    }
  }

  /** Refinement: one access keeps the ring in step with the specification, and decides as it does. */
  lemma RingTick(occ: seq<nat>, occ1: seq<nat>, offers: Offers, capacity: nat, lastTime: nat, accepted: bool)
    requires RingInv(occ, offers, capacity) && lastTime < TIMER_SIZE
    requires AddSpec(occ, capacity, lastTime % QUANTA, |offers| % TIMER_SIZE % QUANTA,
                     Elapsed(|offers|, lastTime), accepted, occ1)
    ensures var o := Some(SeenStart(|offers|, lastTime));
      && (accepted <==> AcceptsOffer(offers, capacity, o))
      && RingInv(occ1[|offers| % QUANTA := 0], offers + [o], capacity)
  {
    var now := |offers|;
    var p := SeenStart(now, lastTime);
    var offers', A := offers + [Some(p)], Accepted(offers, capacity, now);
    RingDecides(occ, offers, capacity, lastTime);
    AcceptedNext(offers, Some(p), capacity);
    AcceptedBounds(offers, capacity, now);
    forall x | now + 1 - QUANTA <= x < now + 1
      ensures occ1[now % QUANTA := 0][x % QUANTA] == Load(offers', Accepted(offers', capacity, now + 1), x)
    {
      LoadExtend(offers, Some(p), A, x);
      LoadAdd(offers', A, now, x);
      if x == now {
        NothingCoversNow(offers, A, now);
      } else {
        SlotBehind(now, now - x);
        if accepted {
          VisitsInterval(now, lastTime, x);
        }
      }
    }
  }

  /** A tick without a reuse only frees the slot of the new tick. */
  lemma IdleTick(occ: seq<nat>, offers: Offers, capacity: nat)
    requires RingInv(occ, offers, capacity)
    ensures RingInv(occ[|offers| % QUANTA := 0], offers + [None], capacity)
  {
    var now, A := |offers|, Accepted(offers, capacity, |offers|);
    AcceptedNext(offers, None, capacity);
    AcceptedBounds(offers, capacity, now);
    forall x | now + 1 - QUANTA <= x < now + 1
      ensures occ[now % QUANTA := 0][x % QUANTA] == Load(offers + [None], A, x)
    {
      LoadExtend(offers, None, A, x);
      if x == now {
        NothingCoversNow(offers, A, now);
      } else {
        SlotBehind(now, now - x);
      }
    }
  }

  lemma NothingCoversNow(offers: Offers, A: set<nat>, now: nat)
    requires forall t | t in A :: t < now
    ensures Load(offers, A, now) == 0
  {
    assert (set t | t in A && Covers(offers, t, now)) == {};
  }

  /** No slot ever exceeds the capacity. */
  lemma RingWithinCapacity(occ: seq<nat>, offers: Offers, capacity: nat, s: nat)
    requires RingInv(occ, offers, capacity) && s < QUANTA
    ensures occ[s] <= capacity
  {
    AcceptedFeasible(offers, capacity, |offers|);
    var x := TickOf(|offers|, s);
    assert Load(offers, Accepted(offers, capacity, |offers|), x) <= capacity;
  }

  // ---- The 10-bit clock ----

  lemma SameReading(x: int, y: int, k: int)
    requires x == y + TIMER_SIZE * k
    ensures x % TIMER_SIZE == y % TIMER_SIZE
  {
  }

  /** A line last used at absolute tick `last` is offered with the start of its residue mod 1024. */
  lemma SeenStartOf(now: nat, last: nat)
    requires last <= now
    ensures SeenStart(now, last % TIMER_SIZE) == now - (now - last) % TIMER_SIZE
    ensures now - last < TIMER_SIZE ==> SeenStart(now, last % TIMER_SIZE) == last
  {
    var k := 1 - now / TIMER_SIZE + last / TIMER_SIZE;
    SameReading(now % TIMER_SIZE + TIMER_SIZE - last % TIMER_SIZE, now - last, k);
  }

  /** The wrapping clock decides as unbounded time does exactly when fewer than 1024 ticks have passed,
      or the elapsed time modulo 1024 is no legal distance, or a slot on the aliased way is full. */
  lemma WrappedClockAgrees(occ: seq<nat>, offers: Offers, capacity: nat, last: nat)
    requires RingInv(occ, offers, capacity) && last <= |offers|
    ensures var now := |offers|;
      Accepts(offers, capacity, SeenStart(now, last % TIMER_SIZE)) == Accepts(offers, capacity, last) <==>
        (|| now - last < TIMER_SIZE
         || !(1 <= (now - last) % TIMER_SIZE < QUANTA)
         || exists s ::
              0 <= s < QUANTA && Visits(last % TIMER_SIZE % QUANTA, now % TIMER_SIZE % QUANTA, s) && occ[s] >= capacity)
  {
    SeenStartOf(|offers|, last);
    RingDecides(occ, offers, capacity, last % TIMER_SIZE);
  }

  /** The exception is real on every history: a line that comes back 1025 ticks after its last use, or
      any larger multiple of 1024 and one, is accepted as if it came back after one. */
  lemma WrappedClockAliases(offers: Offers, capacity: nat, last: nat)
    requires capacity >= 1 && last + TIMER_SIZE <= |offers| && (|offers| - last) % TIMER_SIZE == 1
    ensures var o := SeenStart(|offers|, last % TIMER_SIZE);
      o == |offers| - 1 && Accepts(offers, capacity, o) && !Accepts(offers, capacity, last)
  {
    SeenStartOf(|offers|, last);
    var A := Accepted(offers, capacity, |offers|);
    AcceptedBounds(offers, capacity, |offers|);
    assert (set t | t in A && Covers(offers, t, |offers| - 1)) == {};
  }
}
