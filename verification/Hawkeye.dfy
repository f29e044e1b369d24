/** The Hawkeye policy state: sampler, OPTgen rings and the two predictors, driven by accesses. */
module Hawkeye {
  import Arithmetic
  import opened Common
  import opened OptgenSpec
  import opened OptgenRing
  import opened OptgenRefinement
  import opened Sampler

  const PREDICTOR_ENTRIES: int := 2048
  const SAMPLER_SETS: int := 350
  const SAMPLED_CACHE_SETS: int := 64
  const PREDICTOR_MAX: nat := 7
  const PREDICTOR_THRESHOLD: nat := 4

  /** A three-bit saturating counter after one training event. */
  function Trained(c: nat, up: bool): nat {
    if up then (if c < PREDICTOR_MAX then c + 1 else c) else (if c > 0 then c - 1 else c)
  }

  /** Every counter of a new predictor sits at the threshold. */
  function NewTable(): (c: seq<nat>)
    ensures |c| == PREDICTOR_ENTRIES
  {
    seq(PREDICTOR_ENTRIES, _ => PREDICTOR_THRESHOLD)
  }

  class Predictor {
    const crc32: nat -> nat
    const counters: array<nat>

    constructor (crc32: nat -> nat)
      ensures this.crc32 == crc32 && fresh(counters) && counters.Length == PREDICTOR_ENTRIES
      ensures counters[..] == NewTable()
    {
      this.crc32 := crc32;
      counters := new nat[PREDICTOR_ENTRIES](_ => PREDICTOR_THRESHOLD);
    }

    function Index(signature: nat): nat { crc32(signature) % PREDICTOR_ENTRIES }

    predicate Friendly(signature: nat)
      requires counters.Length == PREDICTOR_ENTRIES
      reads counters
    {
      counters[Index(signature)] >= PREDICTOR_THRESHOLD
    }

    method Increase(signature: nat)
      requires counters.Length == PREDICTOR_ENTRIES
      modifies counters
      ensures counters[..] == old(counters[..])[Index(signature) := Trained(old(counters[Index(signature)]), true)]
    {
      if counters[Index(signature)] < PREDICTOR_MAX {
        counters[Index(signature)] := counters[Index(signature)] + 1;
      }
    }

    method Decrease(signature: nat)
      requires counters.Length == PREDICTOR_ENTRIES
      modifies counters
      ensures counters[..] == old(counters[..])[Index(signature) := Trained(old(counters[Index(signature)]), false)]
    {
      if counters[Index(signature)] > 0 {
        counters[Index(signature)] := counters[Index(signature)] - 1;
      }
    }
  }

  // ---- The history an access sees ----

  /** One sampled access: its tag, the cache set and that set's absolute tick, and what it trains. */
  datatype Use = Use(tag: nat, cacheSet: nat, tick: nat, prefetch: bool, signature: nat)

  function TagsOf(h: seq<Use>): (l: seq<nat>)
    ensures |l| == |h| && forall i | 0 <= i < |h| :: l[i] == h[i].tag
  {
    seq(|h|, i requires 0 <= i < |h| => h[i].tag)
  }

  function LastUse(h: seq<Use>, tag: nat): Use
    requires tag in TagsOf(h)
  {
    h[Last(TagsOf(h), tag)]
  }

  predicate Remembered(h: seq<Use>, tag: nat) {
    tag in TagsOf(h) && tag in Take(Mru(TagsOf(h)))
  }

  /** The reuse interval an access offers: from the clock reading stored with the line's last use. */
  function ReuseOffer(h: seq<Use>, tag: nat, now: nat): Option<int> {
    if Remembered(h, tag) then Some(SeenStart(now, LastUse(h, tag).tick % TIMER_SIZE)) else None
  }

  /** Every valid entry records the last use of its tag. */
  ghost predicate EntryOf(e: Entry, h: seq<Use>) {
    && e.tag in TagsOf(h)
    && var u := LastUse(h, e.tag);
       e.lastTime == u.tick % TIMER_SIZE && e.prefetch == u.prefetch && e.signature == u.signature
  }

  ghost predicate RowOk(row: Row, order: seq<nat>, h: seq<Use>) {
    && Refines(row, order, TagsOf(h))
    && forall w | 0 <= w < |order| :: EntryOf(row[w], h)
  }

  lemma LastUseAppend(h: seq<Use>, u: Use, tag: nat)
    requires tag == u.tag || tag in TagsOf(h)
    ensures tag in TagsOf(h + [u])
    ensures LastUse(h + [u], tag) == if tag == u.tag then u else LastUse(h, tag)
  {
    var l := TagsOf(h + [u]);
    assert l == TagsOf(h) + [u.tag];
    assert l[|h|] == u.tag;
    if tag != u.tag {
      var k := Last(TagsOf(h), tag);
      assert l[k] == tag;
    }
  }

  /** A way whose entry is rewritten for use u while all others keep their tags. */
  lemma EntriesAppend(row: Row, row': Row, n: nat, h: seq<Use>, w: nat, u: Use)
    requires |row| == |row'| && n <= |row| && w < |row|
    requires forall v | 0 <= v < n && v != w :: EntryOf(row[v], h) && row'[v] == row[v].(lru := row'[v].lru)
    requires forall v | 0 <= v < n && v != w :: row[v].tag != u.tag
    requires EntryFor(row'[w], u)
    ensures forall v | 0 <= v < n :: EntryOf(row'[v], h + [u])
  {
    forall v | 0 <= v < n ensures EntryOf(row'[v], h + [u]) {
      LastUseAppend(h, u, row'[v].tag);
    }
  }

  ghost predicate EntryFor(e: Entry, u: Use) {
    && e.valid && e.lru == 0 && e.tag == u.tag && e.lastTime == u.tick % TIMER_SIZE
    && e.prefetch == u.prefetch && e.signature == u.signature
  }

  lemma TagsInRow(row: Row, order: seq<nat>, h: seq<Use>, tag: nat)
    requires RowOk(row, order, h)
    ensures Remembered(h, tag) <==> exists w :: 0 <= w < |order| && row[w].tag == tag
    ensures Remembered(h, tag) <==> tag in Tags(row, order)
  {
    var l := Tags(row, order);
    if w :| 0 <= w < |order| && row[w].tag == tag {
      assert l[row[w].lru] == tag;
      assert EntryOf(row[w], h);
    }
    if tag in l {
      var i :| 0 <= i < |l| && l[i] == tag;
      assert EntryOf(row[order[i]], h);
    }
  }

  lemma TagsDiffer(row: Row, order: seq<nat>, h: seq<Use>, v: nat, w: nat)
    requires RowOk(row, order, h) && v < |order| && w < |order| && v != w
    ensures row[v].tag != row[w].tag
  {
    MruDistinct(TagsOf(h));
    var l := Tags(row, order);
    assert l[row[v].lru] == row[v].tag && l[row[w].lru] == row[w].tag;
    assert order[row[v].lru] == v && order[row[w].lru] == w;
  }

  /** The ways by rank after an access that found or chose way w. */
  function NextOrder(row: Row, order: seq<nat>, w: nat): seq<nat>
    requires w < |row|
  {
    if w < |order| && row[w].lru < |order| then Promote(order, row[w].lru) else [w] + order
  }

  lemma HitRow(row: Row, order: seq<nat>, h: seq<Use>, w: nat, e: Entry, u: Use)
    requires RowOk(row, order, h) && w < |order| && row[w].tag == u.tag && EntryFor(e, u)
    ensures RowOk(Aged(row, w, row[w].lru)[w := e], NextOrder(row, order, w), h + [u])
  {
    HitRefines(row, order, TagsOf(h), w, e);
    assert TagsOf(h + [u]) == TagsOf(h) + [u.tag];
    forall v | 0 <= v < |order| && v != w ensures EntryOf(row[v], h) && row[v].tag != u.tag {
      TagsDiffer(row, order, h, v, w);
    }
    EntriesAppend(row, Aged(row, w, row[w].lru)[w := e], |order|, h, w, u);
  }

  /** The way selectSamplerVictim picks: the first invalid one, else the least recently used one. */
  ghost predicate IsVictim(row: Row, order: seq<nat>, w: nat) {
    if |order| < WAYS then w == |order| else w < WAYS && |row| == WAYS && row[w].lru == WAYS - 1
  }

  lemma MissRow(row: Row, order: seq<nat>, h: seq<Use>, w: nat, e: Entry, u: Use)
    requires RowOk(row, order, h) && IsVictim(row, order, w) && EntryFor(e, u)
    requires !Remembered(h, u.tag)
    ensures RowOk(Aged(row, w, WAYS)[w := e], NextOrder(row, order, w), h + [u])
  {
    TagsInRow(row, order, h, u.tag);
    assert TagsOf(h + [u]) == TagsOf(h) + [u.tag];
    if |order| < WAYS {
      InsertRefines(row, order, TagsOf(h), e);
      EntriesAppend(row, Aged(row, w, WAYS)[w := e], |order| + 1, h, w, u);
    } else {
      EvictRefines(row, order, TagsOf(h), w, e);
      EntriesAppend(row, Aged(row, w, WAYS)[w := e], |order|, h, w, u);
    }
  }

  // ---- One cache set: its ring, its clock, the offers so far and how many were accepted ----

  ghost predicate SetOk(occ: seq<nat>, timer: nat, offers: Offers, hits: nat, capacity: nat) {
    && RingInv(occ, offers, capacity) && timer == |offers| % TIMER_SIZE
    && hits == |Accepted(offers, capacity, |offers|)|
  }

  lemma ClockStep(now: nat)
    ensures now % TIMER_SIZE % TIMER_SIZE == now % TIMER_SIZE
    ensures (now % TIMER_SIZE + 1) % TIMER_SIZE == (now + 1) % TIMER_SIZE
    ensures now % TIMER_SIZE % QUANTA == now % QUANTA
  {
    SameReading(now + 1, now % TIMER_SIZE + 1, now / TIMER_SIZE);
    SameSlot(now, now % TIMER_SIZE, now / TIMER_SIZE);
  }

  function NextTimer(timer: nat): nat { (timer % TIMER_SIZE + 1) % TIMER_SIZE }

  ghost function Hit(offers: Offers, capacity: nat, o: Option<int>): nat {
    if AcceptsOffer(offers, capacity, o) then 1 else 0
  }

  lemma HitsStep(offers: Offers, hits: nat, capacity: nat, o: Option<int>)
    requires hits == |Accepted(offers, capacity, |offers|)|
    ensures hits + Hit(offers, capacity, o) == |Accepted(offers + [o], capacity, |offers| + 1)|
  {
    AcceptedNext(offers, o, capacity);
    AcceptedBounds(offers, capacity, |offers|);
  }

  lemma ReuseSet(occ: seq<nat>, occ1: seq<nat>, timer: nat, offers: Offers, hits: nat, capacity: nat,
                 lastTime: nat, accepted: bool)
    requires SetOk(occ, timer, offers, hits, capacity) && lastTime < TIMER_SIZE
    requires AddSpec(occ, capacity, lastTime % QUANTA, timer % TIMER_SIZE % QUANTA,
                     Elapsed(timer, lastTime), accepted, occ1)
    ensures var o := Some(SeenStart(|offers|, lastTime));
      && (accepted <==> AcceptsOffer(offers, capacity, o))
      && SetOk(occ1[timer % TIMER_SIZE % QUANTA := 0], NextTimer(timer), offers + [o],
               hits + Hit(offers, capacity, o), capacity)
  {
    var o := Some(SeenStart(|offers|, lastTime));
    ClockStep(|offers|);
    RingTick(occ, occ1, offers, capacity, lastTime, accepted);
    HitsStep(offers, hits, capacity, o);
  }

  lemma IdleSet(occ: seq<nat>, timer: nat, offers: Offers, hits: nat, capacity: nat)
    requires SetOk(occ, timer, offers, hits, capacity)
    ensures SetOk(occ[timer % TIMER_SIZE % QUANTA := 0], NextTimer(timer), offers + [None],
                  hits + Hit(offers, capacity, None), capacity)
  {
    ClockStep(|offers|);
    IdleTick(occ, offers, capacity);
    HitsStep(offers, hits, capacity, None);
  }

  ghost function OfferAt(now: nat, reused: bool, lastTime: nat): Option<int>
    requires reused ==> lastTime < TIMER_SIZE
  {
    if reused then Some(SeenStart(now, lastTime)) else None
  }

  ghost predicate Separate(ring: Optgen, predictor: Predictor)
    reads ring, predictor
  {
    && ring.occupancy != predictor.counters
    && ring.occupancy.Length == QUANTA && predictor.counters.Length == PREDICTOR_ENTRIES
  }

  /** The reuse half of an access: ask OPTgen and train the predictor of the line's last use. */
  method TrainReuse(ring: Optgen, predictor: Predictor, e: Entry, now: nat) returns (accepted: bool)
    requires Separate(ring, predictor) && e.lastTime < TIMER_SIZE
    modifies ring.occupancy, predictor.counters
    ensures AddSpec(old(ring.occupancy[..]), ring.capacity, e.lastTime % QUANTA, now % QUANTA,
                    Elapsed(now, e.lastTime), accepted, ring.occupancy[..])
    ensures Training(old(predictor.counters[..]), predictor.counters[..], predictor.Index(e.signature), accepted)
  {
    var distance := (now % TIMER_SIZE + TIMER_SIZE - e.lastTime) % TIMER_SIZE;
    accepted := ring.AddInterval(e.lastTime % QUANTA, now % QUANTA, distance);
    if accepted {
      predictor.Increase(e.signature);
    } else {
      predictor.Decrease(e.signature);
    }
  }

  /** Clearing the slot of the current quantum, which is already reduced. */
  method ClearSlot(ring: Optgen, slot: nat)
    requires ring.occupancy.Length == QUANTA && slot < QUANTA
    modifies ring.occupancy
    ensures ring.occupancy[..] == old(ring.occupancy[..])[slot := 0]
  {
    ring.Advance(slot);
  }

  /** A tick with a reuse: judge it, train on the verdict, and clear the slot of the tick. */
  method TickReuse(ring: Optgen, predictor: Predictor, timer: nat, e: Entry, ghost offers: Offers, ghost hits: nat)
    requires Separate(ring, predictor) && e.lastTime < TIMER_SIZE
    requires SetOk(ring.occupancy[..], timer, offers, hits, ring.capacity)
    modifies ring.occupancy, predictor.counters
    ensures var o := Some(SeenStart(|offers|, e.lastTime));
      && SetOk(ring.occupancy[..], NextTimer(timer), offers + [o], hits + Hit(offers, ring.capacity, o), ring.capacity)
      && Training(old(predictor.counters[..]), predictor.counters[..], predictor.Index(e.signature),
                  AcceptsOffer(offers, ring.capacity, o))
  {
    JudgeReuse(ring, predictor, timer, e, offers, hits, Some(SeenStart(|offers|, e.lastTime)));
    ClearSlot(ring, timer % TIMER_SIZE % QUANTA);
  }

  method JudgeReuse(ring: Optgen, predictor: Predictor, timer: nat, e: Entry, ghost offers: Offers, ghost hits: nat,
                    ghost o: Option<int>)
    requires Separate(ring, predictor) && e.lastTime < TIMER_SIZE && o == Some(SeenStart(|offers|, e.lastTime))
    requires SetOk(ring.occupancy[..], timer, offers, hits, ring.capacity)
    modifies ring.occupancy, predictor.counters
    ensures SetOk(ring.occupancy[..][timer % TIMER_SIZE % QUANTA := 0], NextTimer(timer), offers + [o],
                  hits + Hit(offers, ring.capacity, o), ring.capacity)
    ensures Training(old(predictor.counters[..]), predictor.counters[..], predictor.Index(e.signature),
                     AcceptsOffer(offers, ring.capacity, o))
  {
    ghost var occ := ring.occupancy[..];
    ClockElapsed(timer, e.lastTime);
    var accepted := TrainReuse(ring, predictor, e, timer % TIMER_SIZE);
    ReuseSet(occ, ring.occupancy[..], timer, offers, hits, ring.capacity, e.lastTime, accepted);
  }

  lemma ClockElapsed(timer: nat, lastTime: nat)
    requires lastTime < TIMER_SIZE
    ensures timer % TIMER_SIZE % TIMER_SIZE == timer % TIMER_SIZE
    ensures Elapsed(timer % TIMER_SIZE, lastTime) == Elapsed(timer, lastTime)
  {
  }

  /** A tick without a reuse. */
  method TickIdle(ring: Optgen, timer: nat, ghost offers: Offers, ghost hits: nat)
    requires ring.occupancy.Length == QUANTA && SetOk(ring.occupancy[..], timer, offers, hits, ring.capacity)
    modifies ring.occupancy
    ensures SetOk(ring.occupancy[..], NextTimer(timer), offers + [None], hits + Hit(offers, ring.capacity, None),
      ring.capacity)
  {
    IdleSet(ring.occupancy[..], timer, offers, hits, ring.capacity);
    ClearSlot(ring, timer % TIMER_SIZE % QUANTA);
  }

  // ---- The whole state ----

  /** Two ways are kept out of OPTgen's account where there are more than two. */
  function Capacity(ways: nat): (c: nat)
    ensures c >= 1 && (ways > 2 ==> c + 2 == ways) && (1 <= ways <= 2 ==> c == ways) && (ways == 0 ==> c == 1)
  {
    var c := if ways > 2 then ways - 2 else ways;
    if c < 1 then 1 else c
  }

  function EmptyRow(): (row: Row)
    ensures RowOk(row, [], [])
  {
    seq(WAYS, _ => Entry(false, false, 0, 0, 0, 0))
  }

  method MakeRings(n: nat, capacity: nat) returns (rings: seq<Optgen>)
    requires capacity >= 1
    ensures |rings| == n
    ensures forall i | 0 <= i < n ::
      rings[i].capacity == capacity && fresh(rings[i].occupancy) && rings[i].occupancy.Length == QUANTA
    ensures forall i | 0 <= i < n :: forall s | 0 <= s < QUANTA :: rings[i].occupancy[s] == 0
    ensures forall i, j | 0 <= i < j < n :: rings[i].occupancy != rings[j].occupancy
  {
    rings := [];
    while |rings| < n
      invariant |rings| <= n
      invariant forall i | 0 <= i < |rings| ::
        rings[i].capacity == capacity && fresh(rings[i].occupancy) && rings[i].occupancy.Length == QUANTA
      invariant forall i | 0 <= i < |rings| :: forall s | 0 <= s < QUANTA :: rings[i].occupancy[s] == 0
      invariant forall i, j | 0 <= i < j < |rings| :: rings[i].occupancy != rings[j].occupancy
      decreases n - |rings|
    {
      var ring := new Optgen(capacity);
      rings := rings + [ring];
    }
  }

  lemma SampledMultiples(s: nat, stride: nat)
    ensures stride > 0 ==> ((s % stride == 0 && s / stride < 64) <==> exists k: nat :: k < 64 && s == k * stride)
  {
    if stride > 0 {
      if s % stride == 0 {
        assert s == (s / stride) * stride;
      }
      forall k: nat | k < 64 && s == k * stride ensures s % stride == 0 && s / stride == k {
        Arithmetic.QuotientRemainder(0, k, stride);
      }
    }
  }

  class State {
    const crc32: nat -> nat
    const numSets: nat
    const capacity: nat
    const optgen: seq<Optgen>
    const demandPredictor: Predictor
    const prefetchPredictor: Predictor
    var timers: seq<nat>
    var sampler: seq<Row>

    // The histories the invariants speak of: reuse offers and accepted reuses per cache set, uses per row.
    ghost var offers: seq<Offers>
    ghost var hits: seq<nat>
    ghost var uses: seq<seq<Use>>
    ghost var orders: seq<seq<nat>>

    ghost predicate Shape()
      reads this
    {
      && demandPredictor.crc32 == prefetchPredictor.crc32 == crc32
      && numSets >= 1 && capacity >= 1 && |optgen| == |timers| == |offers| == |hits| == numSets
      && |sampler| == |uses| == |orders| == SAMPLER_SETS
      && demandPredictor.counters != prefetchPredictor.counters
      && demandPredictor.counters.Length == PREDICTOR_ENTRIES
      && prefetchPredictor.counters.Length == PREDICTOR_ENTRIES
      && (forall i | 0 <= i < numSets :: optgen[i].capacity == capacity && optgen[i].occupancy.Length == QUANTA)
      && (forall i | 0 <= i < numSets ::
            optgen[i].occupancy != demandPredictor.counters && optgen[i].occupancy != prefetchPredictor.counters)
      && (forall i, j | 0 <= i < j < numSets :: optgen[i].occupancy != optgen[j].occupancy)
    }

    ghost predicate RowsOk()
      reads `sampler, `orders, `uses
    {
      forall r | 0 <= r < |sampler| && r < |orders| && r < |uses| :: RowOk(sampler[r], orders[r], uses[r])
    }

    ghost predicate RingOk(s: nat)
      requires s < |optgen| && s < |timers| && s < |offers| && s < |hits|
      reads `timers, `offers, `hits, optgen[s].occupancy
    {
      SetOk(optgen[s].occupancy[..], timers[s], offers[s], hits[s], capacity)
    }

    ghost predicate RingsOk()
      requires |optgen| == |timers| == |offers| == |hits| == numSets
      reads `timers, `offers, `hits, set i | 0 <= i < |optgen| :: optgen[i].occupancy
    {
      forall i | 0 <= i < numSets :: RingOk(i)
    }

    /** Every row is the LRU stack of its uses; every ring is in step with its offers. */
    ghost predicate Valid()
      reads this, set i | 0 <= i < |optgen| :: optgen[i].occupancy
    {
      Shape() && RowsOk() && RingsOk()
    }

    constructor (numSets: nat, ways: nat, crc32: nat -> nat)
      ensures Valid() && this.numSets == (if numSets < 1 then 1 else numSets)
      ensures capacity == Capacity(ways) && this.crc32 == crc32
      ensures forall s | 0 <= s < this.numSets :: offers[s] == [] && hits[s] == 0
      ensures uses == seq(SAMPLER_SETS, _ => [])
      ensures fresh(demandPredictor.counters) && fresh(prefetchPredictor.counters)
      ensures forall s | 0 <= s < |optgen| :: fresh(optgen[s].occupancy)
      ensures demandPredictor.counters[..] == prefetchPredictor.counters[..] == NewTable()
    {
      var n: nat := if numSets < 1 then 1 else numSets;
      var rings := MakeRings(n, Capacity(ways));
      this.crc32, this.numSets, this.capacity := crc32, n, Capacity(ways);
      optgen := rings;
      timers := seq(n, _ => 0);
      sampler := seq(SAMPLER_SETS, _ => EmptyRow());
      offers := seq(n, _ => []);
      hits := seq(n, _ => 0);
      uses := seq(SAMPLER_SETS, _ => []);
      orders := seq(SAMPLER_SETS, _ => []);
      demandPredictor := new Predictor(crc32);
      prefetchPredictor := new Predictor(crc32);
      new;
      forall s | 0 <= s < n ensures RingOk(s) {
        EmptyRing(optgen[s].occupancy[..], capacity);
      }
    }

    /** All sets of a small cache, and 64 evenly spaced sets of a larger one. */
    predicate SampledSet(s: nat): (b: bool)
      ensures numSets <= 64 ==> (b <==> s < numSets)
      ensures numSets > 64 ==> (b <==> exists k: nat :: k < 64 && s == k * (numSets / 64))
    {
      SampledMultiples(s, numSets / 64);
      if numSets <= SAMPLED_CACHE_SETS then s < numSets
      else
        var stride := if numSets / SAMPLED_CACHE_SETS < 1 then 1 else numSets / SAMPLED_CACHE_SETS;
        s % stride == 0 && s / stride < SAMPLED_CACHE_SETS
    }

    function RowIndex(line: nat): nat { line % SAMPLER_SETS }

    function Tag(line: nat): nat { crc32(line / 64) % 256 }

    /** The way holding the tag, or WAYS. */
    method FindEntry(row: Row, tag: nat) returns (way: nat)
      requires |row| == WAYS
      ensures way <= WAYS
      ensures way < WAYS ==> row[way].valid && row[way].tag == tag
      ensures forall w | 0 <= w < way :: !(row[w].valid && row[w].tag == tag)
    {
      way := 0;
      while way < WAYS
        invariant way <= WAYS
        invariant forall w | 0 <= w < way :: !(row[w].valid && row[w].tag == tag)
      {
        if row[way].valid && row[way].tag == tag {
          return;
        }
        way := way + 1;
      }
    }

    /** selectSamplerVictim: the first invalid way, else the first way of greatest rank. */
    method SelectVictim(row: Row, ghost order: seq<nat>) returns (way: nat)
      requires RowInv(row, order)
      ensures way < WAYS && IsVictim(row, order, way)
    {
      way := 0;
      while way < WAYS
        invariant way <= |order|
      {
        if !row[way].valid {
          return;
        }
        way := way + 1;
      }
      way := 0;
      var w := 1;
      while w < WAYS
        invariant 1 <= w <= WAYS && way < WAYS
        invariant forall v | 0 <= v < w :: row[v].lru <= row[way].lru
      {
        if row[way].lru < row[w].lru {
          way := w;
        }
        w := w + 1;
      }
      assert row[order[WAYS-1]].lru == WAYS - 1;
    }

    /** ageHistory on one row of the sampler. */
    method AgeHistory(r: nat, touched: nat, threshold: nat)
      requires r < |sampler| && |sampler[r]| == WAYS
      modifies this`sampler
      ensures sampler == old(sampler)[r := Aged(old(sampler[r]), touched, threshold)]
    {
      ghost var row := sampler[r];
      var w := 0;
      while w < WAYS
        invariant w <= WAYS && |sampler| == |old(sampler)|
        invariant forall q | 0 <= q < |sampler| && q != r :: sampler[q] == old(sampler)[q]
        invariant |sampler[r]| == WAYS
        invariant forall v | 0 <= v < WAYS ::
          sampler[r][v] == if v < w then AgedEntry(row[v], v == touched, threshold) else row[v]
      {
        var e := sampler[r][w];
        if e.valid && w != touched {
          if e.lru < threshold && e.lru < WAYS - 1 {
            sampler := sampler[r := sampler[r][w := e.(lru := e.lru + 1)]];
          }
        }
        w := w + 1;
      }
      assert sampler[r] == Aged(row, touched, threshold);
    }

    function PredictorOf(prefetch: bool): Predictor {
      if prefetch then prefetchPredictor else demandPredictor
    }

    /** The sampler half of an access: age the row and rewrite the chosen way for use u. */
    method RecordUse(r: nat, way: nat, threshold: nat, e: Entry)
      requires r < |sampler| && |sampler[r]| == WAYS && way < WAYS
      modifies this`sampler
      ensures sampler == old(sampler)[r := Aged(old(sampler[r]), way, threshold)[way := e]]
    {
      AgeHistory(r, way, threshold);
      sampler := sampler[r := sampler[r][way := e]];
    }

    /** One row: find the tag or pick a victim, age the row, and rewrite the way. */
    method TouchRow(r: nat, entry: Entry, ghost u: Use, ghost h: seq<Use>, ghost order: seq<nat>)
      returns (reused: bool, previous: Entry, way: nat)
      requires r < |sampler| && RowOk(sampler[r], order, h) && EntryFor(entry, u)
      modifies this`sampler
      ensures |old(sampler[r])| == WAYS && way < WAYS && |sampler| == |old(sampler)|
      ensures sampler == old(sampler)[r := sampler[r]]
      ensures RowOk(sampler[r], NextOrder(old(sampler[r]), order, way), h + [u])
      ensures reused <==> Remembered(h, u.tag)
      ensures reused ==> EntryOf(previous, h) && previous.tag == u.tag
    {
      ghost var row := sampler[r];
      TagsInRow(row, order, h, u.tag);
      way := FindEntry(sampler[r], entry.tag);
      reused, previous := way < WAYS, entry;
      if reused {
        previous := sampler[r][way];
        assert EntryOf(row[way], h);
        HitRow(row, order, h, way, entry, u);
        RecordUse(r, way, previous.lru, entry);
      } else {
        way := SelectVictim(sampler[r], order);
        MissRow(row, order, h, way, entry, u);
        RecordUse(r, way, WAYS, entry);
      }
    }

    /** The sampler's part of State::access. It shares no state with OPTgen's part. */
    method AccessRow(r: nat, entry: Entry, ghost u: Use) returns (reused: bool, previous: Entry)
      requires Shape() && RowsOk() && r < SAMPLER_SETS && EntryFor(entry, u)
      modifies this`sampler, this`uses, this`orders
      ensures Shape() && RowsOk() && uses == old(uses)[r := old(uses[r]) + [u]]
      ensures reused <==> Remembered(old(uses[r]), u.tag)
      ensures reused ==> EntryOf(previous, old(uses[r])) && previous.tag == u.tag
    {
      var way;
      assert RowOk(sampler[r], orders[r], uses[r]);
      reused, previous, way := TouchRow(r, entry, u, uses[r], orders[r]);
      orders := orders[r := NextOrder(old(sampler[r]), orders[r], way)];
      uses := uses[r := uses[r] + [u]];
    }

    /** OPTgen's part of State::access, for the ring, the clock and the history of one set. */
    method AccessRing(s: nat, reused: bool, e: Entry)
      requires Shape() && s < numSets && RingsOk() && (reused ==> e.lastTime < TIMER_SIZE)
      modifies this`timers, this`offers, this`hits, optgen[s].occupancy, PredictorOf(e.prefetch).counters
      ensures Shape() && RingsOk()
      ensures var o := OfferAt(|old(offers[s])|, reused, e.lastTime);
        && offers == old(offers)[s := old(offers[s]) + [o]]
        && hits == old(hits)[s := old(hits[s]) + Hit(old(offers[s]), capacity, o)]
      ensures !reused ==> PredictorOf(e.prefetch).counters[..] == old(PredictorOf(e.prefetch).counters[..])
      ensures reused ==>
        Training(old(PredictorOf(e.prefetch).counters[..]), PredictorOf(e.prefetch).counters[..],
                 PredictorOf(e.prefetch).Index(e.signature),
                 AcceptsOffer(old(offers[s]), capacity, OfferAt(|old(offers[s])|, true, e.lastTime)))
    {
      ghost var o := OfferAt(|offers[s]|, reused, e.lastTime);
      assert RingOk(s);
      if reused {
        TickReuse(optgen[s], PredictorOf(e.prefetch), timers[s], e, offers[s], hits[s]);
      } else {
        TickIdle(optgen[s], timers[s], offers[s], hits[s]);
      }
      forall i | 0 <= i < numSets && i != s ensures RingOk(i) {
        assert old(RingOk(i)) && optgen[i].occupancy != optgen[s].occupancy;
      }
      StoreTick(s, o, hits[s] + Hit(offers[s], capacity, o));
    }

    /** The clock moves on, and the histories of the set with it. */
    method StoreTick(s: nat, ghost o: Option<int>, ghost hitsNow: nat)
      requires Shape() && s < numSets && forall i | 0 <= i < numSets && i != s :: RingOk(i)
      requires SetOk(optgen[s].occupancy[..], NextTimer(timers[s]), offers[s] + [o], hitsNow, capacity)
      modifies this`timers, this`offers, this`hits
      ensures Shape() && RingsOk()
      ensures offers == old(offers)[s := old(offers[s]) + [o]] && hits == old(hits)[s := hitsNow]
    {
      timers := timers[s := (timers[s] % TIMER_SIZE + 1) % TIMER_SIZE];
      hits := hits[s := hitsNow];
      offers := offers[s := offers[s] + [o]];
      assert RingOk(s);
      assert forall i | 0 <= i < numSets && i != s :: old(RingOk(i)) ==> RingOk(i);
    }

    /** The table of predictor p after an access with history h and offer o: trained by the verdict on
        the offer if the remembered use went through that predictor, and otherwise unchanged. */
    ghost function TableAfter(p: bool, h: seq<Use>, tag: nat, o: Option<int>, offers: Offers,
                              c: seq<nat>): (d: seq<nat>)
      requires (o.Some? ==> tag in TagsOf(h)) && |c| == PREDICTOR_ENTRIES
      ensures |d| == PREDICTOR_ENTRIES
    {
      if o.Some? && LastUse(h, tag).prefetch == p
      then TrainedTable(c, crc32(LastUse(h, tag).signature) % PREDICTOR_ENTRIES, AcceptsOffer(offers, capacity, o))
      else c
    }

    /** State::access for a sampled set, up to the prediction. */
    method AccessSampled(s: nat, line: nat, signature: nat, prefetch: bool)
      requires Valid() && s < numSets
      modifies this, demandPredictor.counters, prefetchPredictor.counters, optgen[s].occupancy
      ensures Valid()
      ensures var r, tag, now := RowIndex(line), Tag(line), |old(offers[s])|;
        var h := old(uses[r]);
        var o := ReuseOffer(h, tag, now);
        && uses == old(uses)[r := h + [Use(tag, s, now, prefetch, signature)]]
        && offers == old(offers)[s := old(offers[s]) + [o]]
        && hits == old(hits)[s := old(hits[s]) + Hit(old(offers[s]), capacity, o)]
        && demandPredictor.counters[..]
          == TableAfter(false, h, tag, o, old(offers[s]), old(demandPredictor.counters[..]))
        && prefetchPredictor.counters[..]
          == TableAfter(true, h, tag, o, old(offers[s]), old(prefetchPredictor.counters[..]))
    {
      var now := timers[s] % TIMER_SIZE;
      var r, tag: nat := line % SAMPLER_SETS, crc32(line / 64) % 256;
      assert r == RowIndex(line) && tag == Tag(line);
      ghost var u := Use(tag, s, |offers[s]|, prefetch, signature);
      assert RingOk(s);
      ClockStep(|offers[s]|);
      var reused, previous := AccessRow(r, Entry(true, prefetch, tag, 0, now, signature), u);
      AccessRing(s, reused, previous);
    }

    /** State::access. The reuse interval since the line's last remembered use is offered to the
        set's OPTgen, whose verdict trains the predictor entry of that last use. */
    method Access(s: nat, line: nat, signature: nat, prefetch: bool) returns (friendly: bool)
      requires Valid()
      modifies this, demandPredictor.counters, prefetchPredictor.counters,
               set i | 0 <= i < |optgen| :: optgen[i].occupancy
      ensures Valid()
      ensures var p := if prefetch then prefetchPredictor else demandPredictor;
        friendly <==> p.counters[crc32(signature) % PREDICTOR_ENTRIES] >= PREDICTOR_THRESHOLD
      ensures !(s < numSets && SampledSet(s)) ==>
        && uses == old(uses) && offers == old(offers) && hits == old(hits)
        && demandPredictor.counters[..] == old(demandPredictor.counters[..])
        && prefetchPredictor.counters[..] == old(prefetchPredictor.counters[..])
      ensures s < numSets && SampledSet(s) ==>
        var r, tag, now := RowIndex(line), Tag(line), |old(offers[s])|;
        var h := old(uses[r]);
        var o := ReuseOffer(h, tag, now);
        && uses == old(uses)[r := h + [Use(tag, s, now, prefetch, signature)]]
        && offers == old(offers)[s := old(offers[s]) + [o]]
        && hits == old(hits)[s := old(hits[s]) + Hit(old(offers[s]), capacity, o)]
        && demandPredictor.counters[..]
          == TableAfter(false, h, tag, o, old(offers[s]), old(demandPredictor.counters[..]))
        && prefetchPredictor.counters[..]
          == TableAfter(true, h, tag, o, old(offers[s]), old(prefetchPredictor.counters[..]))
    {
      if s < numSets && SampledSet(s) {
        AccessSampled(s, line, signature, prefetch);
      }
      friendly := PredictorOf(prefetch).Friendly(signature);
    }

    /** State::eviction: detrain the signature of an evicted line of a sampled set. */
    method Eviction(s: nat, signature: nat, prefetch: bool)
      requires Valid()
      modifies PredictorOf(prefetch).counters
      ensures Valid()
      ensures s < numSets && SampledSet(s) ==>
        Training(old(PredictorOf(prefetch).counters[..]), PredictorOf(prefetch).counters[..],
                 PredictorOf(prefetch).Index(signature), false)
      ensures !(s < numSets && SampledSet(s)) ==>
        PredictorOf(prefetch).counters[..] == old(PredictorOf(prefetch).counters[..])
    {
      if s < numSets && SampledSet(s) {
        PredictorOf(prefetch).Decrease(signature);
      }
      assert forall i | 0 <= i < numSets :: old(RingOk(i)) ==> RingOk(i);
    }
  }

  /** One training event on a predictor table. */
  function TrainedTable(c: seq<nat>, i: nat, up: bool): seq<nat>
    requires i < |c|
  {
    c[i := Trained(c[i], up)]
  }

  ghost predicate Training(c: seq<nat>, d: seq<nat>, i: nat, up: bool) {
    i < |c| && d == TrainedTable(c, i, up)
  }

  // ---- What every valid state satisfies ----

  /** In a valid state, which every run from a new state keeps, each set's hits are as many as any cache of its capacity
      could have had on the reuse intervals it was offered. */
  lemma HitsAreOptimal(state: State, s: nat, S: set<nat>)
    requires state.Valid() && s < state.numSets && Feasible(state.offers[s], state.capacity, S)
    ensures |S| <= state.hits[s]
  {
    assert state.RingOk(s);
    Optimal(state.offers[s], state.capacity, S);
  }

  /** The offered interval starts at the line's last use, if that was less than 1024 ticks ago. */
  lemma OfferIsReuseInterval(h: seq<Use>, tag: nat, now: nat)
    requires tag in TagsOf(h) && LastUse(h, tag).tick <= now < LastUse(h, tag).tick + TIMER_SIZE
    ensures ReuseOffer(h, tag, now) ==
      if |Elements(TagsOf(h)[Last(TagsOf(h), tag) + 1..])| < WAYS then Some(LastUse(h, tag).tick) else None
  {
    KeptIffRecent(TagsOf(h), tag);
    SeenStartOf(now, LastUse(h, tag).tick);
  }
}
