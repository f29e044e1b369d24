/** Plans and packed records for every accessed edge, in both container widths. */
module ReusePlanRecords {
  import opened Common
  import opened Arithmetic
  import Sorting
  import Epochs
  import opened ReusePlan
  import ReusePlanBuilder

  const MAX_EPOCHS: nat := 32768

  function NormalizeEpochCount(count: nat): nat {
    if count < 2 then 2 else if count < MAX_EPOCHS then count else MAX_EPOCHS
  }

  datatype Plan = Plan(first: nat, second: nat, tier: nat, valid: bool)

  // ---- The line of a destination ----

  function LineStart(dest: nat, perLine: nat, lineMin: bool): nat
    requires perLine > 0
  {
    if lineMin then dest / perLine * perLine else dest
  }

  function LineEnd(dest: nat, perLine: nat, lineMin: bool, n: nat): nat
    requires perLine > 0
  {
    var stop := if lineMin then LineStart(dest, perLine, lineMin) + perLine else dest + 1;
    if stop < n then stop else n
  }

  lemma DestOnLine(dest: nat, perLine: nat, lineMin: bool, n: nat)
    requires perLine > 0 && dest < n
    ensures LineStart(dest, perLine, lineMin) <= dest < LineEnd(dest, perLine, lineMin, n) <= n
  {
    DivBounds(dest, perLine);
  }

  /** v shares its cache line with dest; without the line-minimum mode every vertex is a line of its own. */
  predicate SameLine(v: nat, dest: nat, perLine: nat, lineMin: bool)
    requires perLine > 0
  {
    if lineMin then v / perLine == dest / perLine else v == dest
  }

  /** The vertices v0 to v1 - 1 are exactly those of dest's line. */
  ghost predicate IsLine(v0: nat, v1: nat, dest: nat, perLine: nat, lineMin: bool, n: nat)
    requires perLine > 0
  {
    v0 <= v1 <= n && forall v: nat | v < n :: v0 <= v < v1 <==> SameLine(v, dest, perLine, lineMin)
  }

  lemma LineIsLine(dest: nat, perLine: nat, lineMin: bool, n: nat)
    requires perLine > 0 && dest < n
    ensures IsLine(LineStart(dest, perLine, lineMin), LineEnd(dest, perLine, lineMin, n), dest, perLine, lineMin, n)
  {
    DestOnLine(dest, perLine, lineMin, n);
    forall v: nat | v < n
      ensures LineStart(dest, perLine, lineMin) <= v < LineEnd(dest, perLine, lineMin, n)
        <==> SameLine(v, dest, perLine, lineMin)
    {
      SameQuotient(v, dest / perLine, perLine);
    }
  }

  lemma SameQuotient(v: nat, q: nat, n: nat)
    requires n > 0
    ensures v / n == q <==> q * n <= v < q * n + n
  {
    ReachesQuotient(v, n, q);
    ReachesQuotient(v, n, q + 1);
  }

  ghost function LineOf(off: seq<nat>, readers: seq<nat>, v0: nat, v1: nat): (line: Line)
    requires v0 <= v1 && v1 + 1 <= |off| && ReusePlanBuilder.CsrShape(off, readers, |off| - 1)
    ensures |line| == v1 - v0 && forall k | 0 <= k < v1 - v0 ::
      line[k] == ReusePlanBuilder.Segment(off, readers, v0 + k)
  {
    seq(v1 - v0, k requires 0 <= k < v1 - v0 => ReusePlanBuilder.Segment(off, readers, v0 + k))
  }

  function MinTier(tiers: seq<nat>, v0: nat, v1: nat): nat
    requires v0 <= v1 <= |tiers|
  {
    if v0 == v1 then 3
    else
      var t := MinTier(tiers, v0, v1 - 1);
      if tiers[v1-1] < t then tiers[v1-1] else t
  }

  /** The tier of a line is that of one of its vertices, and no vertex has a smaller one. */
  lemma {:induction false} MinTierIsLeast(tiers: seq<nat>, v0: nat, v1: nat)
    requires v0 <= v1 <= |tiers| && forall v | v0 <= v < v1 :: tiers[v] <= 3
    ensures forall v | v0 <= v < v1 :: MinTier(tiers, v0, v1) <= tiers[v]
    ensures v0 < v1 ==> exists v :: v0 <= v < v1 && tiers[v] == MinTier(tiers, v0, v1)
    decreases v1
  {
    if v0 < v1 {
      MinTierIsLeast(tiers, v0, v1 - 1);
      if tiers[v1-1] < MinTier(tiers, v0, v1 - 1) || v0 == v1 - 1 {
        assert tiers[v1-1] == MinTier(tiers, v0, v1);
      } else {
        var v :| v0 <= v < v1 - 1 && tiers[v] == MinTier(tiers, v0, v1 - 1);
        assert tiers[v] == MinTier(tiers, v0, v1);
      }
    }
  }

  /** The plan of a line: the epochs of its two earliest references and its hottest tier. */
  ghost predicate PlanOk(line: Line, n: nat, src: nat, ne: nat, tier: nat, plan: Plan) {
    if forall w | 0 <= w < |line| :: line[w] == [] then plan == Plan(0, 0, 0, false)
    else
      && plan.valid && plan.tier == tier
      && exists a, b :: TwoEarliest(line, n, src, a, b)
           && plan.first == EpochOf(line, n, src, ne, a) && plan.second == EpochOf(line, n, src, ne, b)
  }

  lemma BestIsTwoEarliest(line: Line, n: nat, src: nat, ne: nat, best: Best, x0: Option<Ref>, x1: Option<Ref>)
    requires BestOk(line, n, src, ne, Below(line, n, src, |line|), best, x0, x1) && x0.Some? && x1.Some?
    ensures TwoEarliest(line, n, src, x0.value, x1.value)
    ensures best.e0 == EpochOf(line, n, src, ne, x0.value) && best.e1 == EpochOf(line, n, src, ne, x1.value)
  {
    forall x | Future(line, n, src, x) && x != x0.value && x != x1.value
      ensures Offset(line, n, src, x1.value) <= Offset(line, n, src, x)
    {
      assert x in Below(line, n, src, |line|);
    }
  }

  method HottestTier(tiers: seq<nat>, v0: nat, v1: nat) returns (hottest: nat)
    requires v0 <= v1 <= |tiers|
    ensures hottest == MinTier(tiers, v0, v1)
  {
    hottest := 3;
    var w := v0;
    while w < v1
      invariant v0 <= w <= v1 && hottest == MinTier(tiers, v0, w)
    {
      if tiers[w] < hottest {
        hottest := tiers[w];
      }
      w := w + 1;
    }
  }

  /** The reader lists are usable: CSR shape and ascending vertex numbers. */
  ghost predicate CsrOk(off: seq<nat>, readers: seq<nat>, n: nat) {
    ReusePlanBuilder.CsrShape(off, readers, n) && forall v | 0 <= v < n ::
      SortedReaders(ReusePlanBuilder.Segment(off, readers, v), n)
  }

  lemma LineOfOk(off: seq<nat>, readers: seq<nat>, n: nat, v0: nat, v1: nat)
    requires CsrOk(off, readers, n) && v0 <= v1 <= n
    ensures LineOk(LineOf(off, readers, v0, v1), n)
  {
  }

  /** The first k vertices of the line have been considered. */
  ghost predicate Considered(line: Line, n: nat, src: nat, ne: nat, k: nat, best: Best, x0: Option<Ref>,
                             x1: Option<Ref>) {
    && k <= |line| && BestOk(line, n, src, ne, Below(line, n, src, k), best, x0, x1)
    && (x0.Some? <==> x1.Some?) && (x0.None? <==> forall i | 0 <= i < k :: line[i] == [])
  }

  lemma NothingConsidered(line: Line, n: nat, src: nat, ne: nat)
    ensures Considered(line, n, src, ne, 0, Best(UINT64_MAX, 0, UINT64_MAX, 0), None, None)
  {
    assert Below(line, n, src, 0) == iset{};
  }

  /** One vertex of the line; vertices without readers are passed over. */
  method ConsiderNext(ghost line: Line, k: nat, rs: seq<nat>, n: nat, src: nat, ne: nat, best0: Best,
                      ghost y0: Option<Ref>, ghost y1: Option<Ref>)
    returns (best: Best, ghost x0: Option<Ref>, ghost x1: Option<Ref>)
    requires LineOk(line, n) && k < |line| && rs == line[k] && src < n < UINT32_LIMIT
    requires Considered(line, n, src, ne, k, best0, y0, y1)
    ensures Considered(line, n, src, ne, k + 1, best, x0, x1)
  {
    best, x0, x1 := best0, y0, y1;
    if |rs| > 0 {
      best, x0, x1 := ConsiderVertex(line, k, rs, n, src, ne, best, x0, x1);
    } else {
      EmptyVertex(line, n, src, ne, k, best, x0, x1);
    }
  }

  /** The candidate loop over the vertices of a line. */
  method BestOfLine(off: seq<nat>, readers: seq<nat>, n: nat, src: nat, ne: nat, v0: nat, v1: nat, ghost line: Line)
    returns (best: Best, ghost x0: Option<Ref>, ghost x1: Option<Ref>)
    requires CsrOk(off, readers, n) && src < n < UINT32_LIMIT && v0 <= v1 <= n
    requires line == LineOf(off, readers, v0, v1)
    ensures Considered(line, n, src, ne, |line|, best, x0, x1)
  {
    LineOfOk(off, readers, n, v0, v1);
    best, x0, x1 := Best(UINT64_MAX, 0, UINT64_MAX, 0), None, None;
    NothingConsidered(line, n, src, ne);
    var w := v0;
    while w < v1
      invariant v0 <= w <= v1 && Considered(line, n, src, ne, w - v0, best, x0, x1)
    {
      var rs := readers[off[w]..off[w+1]];
      best, x0, x1 := ConsiderNext(line, w - v0, rs, n, src, ne, best, x0, x1);
      w := w + 1;
    }
  }

  /** nextReusePlanForLine. */
  method NextReusePlanForLine(off: seq<nat>, readers: seq<nat>, tiers: seq<nat>, n: nat, src: nat, dest: nat,
                              perLine: nat, ne: nat, lineMin: bool) returns (plan: Plan)
    requires CsrOk(off, readers, n) && |tiers| == n && src < n < UINT32_LIMIT && perLine > 0
    ensures dest >= n ==> plan == Plan(0, 0, 0, false)
    ensures dest < n ==>
      var v0, v1 := LineStart(dest, perLine, lineMin), LineEnd(dest, perLine, lineMin, n);
      && IsLine(v0, v1, dest, perLine, lineMin, n)
      && PlanOk(LineOf(off, readers, v0, v1), n, src, ne, MinTier(tiers, v0, v1), plan)
  {
    plan := Plan(0, 0, 0, false);
    if dest >= n {
      return;
    }
    DestOnLine(dest, perLine, lineMin, n);
    LineIsLine(dest, perLine, lineMin, n);
    var v0, v1 := LineStart(dest, perLine, lineMin), LineEnd(dest, perLine, lineMin, n);
    var hottest := HottestTier(tiers, v0, v1);
    ghost var line := LineOf(off, readers, v0, v1);
    var best;
    ghost var x0, x1;
    best, x0, x1 := BestOfLine(off, readers, n, src, ne, v0, v1, line);
    if best.d0 == UINT64_MAX {
      return;
    }
    BestIsTwoEarliest(line, n, src, ne, best, x0, x1);
    plan := Plan(best.e0, if best.d1 == UINT64_MAX then best.e0 else best.e1, hottest, true);
  }

  // ---- Plans are unique ----

  /** A reference's position in the sweep determines its epoch. */
  lemma SameOffsetSameEpoch(line: Line, n: nat, src: nat, ne: nat, x: Ref, y: Ref)
    requires LineOk(line, n) && Exists(line, x) && Exists(line, y) && Offset(line, n, src, x) == Offset(line, n, src, y)
    ensures EpochOf(line, n, src, ne, x) == EpochOf(line, n, src, ne, y)
  {
    if x.c < y.c {
      CycleMonotone(x.c, y.c, n);
    } else if y.c < x.c {
      CycleMonotone(y.c, x.c, n);
    }
  }

  lemma EarliestOffsets(line: Line, n: nat, src: nat, a: Ref, b: Ref, c: Ref, d: Ref)
    requires TwoEarliest(line, n, src, a, b) && TwoEarliest(line, n, src, c, d)
    ensures Offset(line, n, src, a) == Offset(line, n, src, c) && Offset(line, n, src, b) == Offset(line, n, src, d)
  {
  }

  lemma PlanUnique(line: Line, n: nat, src: nat, ne: nat, tier: nat, p: Plan, q: Plan)
    requires LineOk(line, n) && PlanOk(line, n, src, ne, tier, p) && PlanOk(line, n, src, ne, tier, q)
    ensures p == q
  {
    if !(forall w | 0 <= w < |line| :: line[w] == []) {
      var a, b :| TwoEarliest(line, n, src, a, b)
        && p.first == EpochOf(line, n, src, ne, a) && p.second == EpochOf(line, n, src, ne, b);
      var c, d :| TwoEarliest(line, n, src, c, d)
        && q.first == EpochOf(line, n, src, ne, c) && q.second == EpochOf(line, n, src, ne, d);
      EarliestOffsets(line, n, src, a, b, c, d);
      SameOffsetSameEpoch(line, n, src, ne, a, c);
      SameOffsetSameEpoch(line, n, src, ne, b, d);
    }
  }

  // ---- One epoch per edge ----

  /** The epoch of the line's earliest reference; ne - 1 when the line has no readers. */
  ghost predicate EpochOk(line: Line, n: nat, src: nat, ne: nat, epoch: nat) {
    if forall w | 0 <= w < |line| :: line[w] == [] then epoch == ne - 1
    else exists a :: Earliest(line, n, src, |line|, a) && epoch == EpochOf(line, n, src, ne, a)
  }

  /** a is an earliest reference to the first k vertices. */
  ghost predicate Earliest(line: Line, n: nat, src: nat, k: nat, a: Ref) {
    && Future(line, n, src, a)
    && forall x | Future(line, n, src, x) && x.w < k :: Offset(line, n, src, a) <= Offset(line, n, src, x)
  }

  ghost predicate EpochBest(line: Line, n: nat, src: nat, ne: nat, k: nat, dist: nat, epoch: nat, o: Option<Ref>) {
    && k <= |line| && dist < UINT32_LIMIT
    && (o.None? <==> forall i | 0 <= i < k :: line[i] == [])
    && (o.None? ==> dist == UINT32_LIMIT - 1 && epoch == ne - 1)
    && (o.Some? ==>
          && Earliest(line, n, src, k, o.value) && dist == Offset(line, n, src, o.value)
          && epoch == EpochOf(line, n, src, ne, o.value))
  }

  lemma EpochStep(line: Line, k: nat, n: nat, src: nat, ne: nat, dist: nat, epoch: nat, o: Option<Ref>, p: Ref, d: nat)
    requires k < |line| && line[k] != [] && EpochBest(line, n, src, ne, k, dist, epoch, o)
    requires Future(line, n, src, p) && p.w == k && d == Offset(line, n, src, p) < UINT32_LIMIT - 1
    requires forall x | Future(line, n, src, x) && x.w == k :: d <= Offset(line, n, src, x)
    ensures d < dist ==> EpochBest(line, n, src, ne, k + 1, d, EpochOf(line, n, src, ne, p), Some(p))
    ensures d >= dist ==> EpochBest(line, n, src, ne, k + 1, dist, epoch, o)
  {
  }

  /** The reader found by the search is the vertex's earliest reference. */
  lemma FirstReader(line: Line, n: nat, src: nat, ne: nat, k: nat, it: nat, p: Ref)
    requires LineOk(line, n) && k < |line| && src < n && 0 < |line[k]| && it <= |line[k]|
    requires forall i | 0 <= i < it :: line[k][i] <= src
    requires forall i | it <= i < |line[k]| :: line[k][i] > src
    requires p == Wrap(Ref(k, it, 0), |line[k]|)
    ensures var wrapped := it == |line[k]|;
      var reader := if wrapped then line[k][0] else line[k][it];
      && Future(line, n, src, p) && p.w == k && reader < n
      && Offset(line, n, src, p) == (if wrapped then reader + n - src else reader - src) <= n
      && EpochOf(line, n, src, ne, p) == Epochs.QuantizedFutureEpoch(reader, src, n, ne, wrapped)
    ensures forall x | Future(line, n, src, x) && x.w == k :: Offset(line, n, src, p) <= Offset(line, n, src, x)
  {
    FirstTwo(line, n, src, k, it);
  }

  /** One vertex in the loop of buildInEdgeEpochs. */
  method EpochOfVertex(ghost line: Line, k: nat, rs: seq<nat>, n: nat, src: nat, ne: nat, dist0: nat, epoch0: nat,
                       ghost o0: Option<Ref>) returns (dist: nat, epoch: nat, ghost o: Option<Ref>)
    requires LineOk(line, n) && k < |line| && rs == line[k] && src < n < UINT32_LIMIT - 1
    requires EpochBest(line, n, src, ne, k, dist0, epoch0, o0)
    ensures EpochBest(line, n, src, ne, k + 1, dist, epoch, o)
  {
    dist, epoch, o := dist0, epoch0, o0;
    if |rs| == 0 {
      return;
    }
    var it := Sorting.UpperBound(rs, src);
    ghost var p := Wrap(Ref(k, it, 0), |rs|);
    FirstReader(line, n, src, ne, k, it, p);
    var wrapped := it == |rs|;
    var reader := if wrapped then rs[0] else rs[it];
    var d: nat := if wrapped then reader + n - src else reader - src;
    EpochStep(line, k, n, src, ne, dist0, epoch0, o0, p, d);
    if d < dist {
      dist, epoch, o := d, Epochs.QuantizedFutureEpoch(reader, src, n, ne, wrapped), Some(p);
    }
  }

  lemma ReadersOfLine(off: seq<nat>, readers: seq<nat>, n: nat, v0: nat, v1: nat, w: nat)
    requires CsrOk(off, readers, n) && v0 <= w < v1 <= n
    ensures off[w] <= off[w+1] <= |readers|
    ensures readers[off[w]..off[w+1]] == LineOf(off, readers, v0, v1)[w - v0]
  {
    assert ReusePlanBuilder.Segment(off, readers, v0 + (w - v0)) == ReusePlanBuilder.Segment(off, readers, w);
  }

  lemma NoneConsidered(line: Line, n: nat, src: nat, ne: nat)
    requires ne >= 2
    ensures EpochBest(line, n, src, ne, 0, UINT32_LIMIT - 1, ne - 1, None)
  {
  }

  /** The vertex loop of buildInEdgeEpochs. */
  method EpochOfLine(off: seq<nat>, readers: seq<nat>, n: nat, src: nat, ne: nat, v0: nat, v1: nat, ghost line: Line)
    returns (epoch: nat)
    requires CsrOk(off, readers, n) && src < n < UINT32_LIMIT - 1 && ne >= 2 && v0 <= v1 <= n
    requires line == LineOf(off, readers, v0, v1) && LineOk(line, n)
    ensures EpochOk(line, n, src, ne, epoch)
  {
    epoch := ne - 1;
    var dist: nat := UINT32_LIMIT - 1;
    ghost var o := None;
    NoneConsidered(line, n, src, ne);
    var w := v0;
    while w < v1
      invariant v0 <= w <= v1 && EpochBest(line, n, src, ne, w - v0, dist, epoch, o)
    {
      ReadersOfLine(off, readers, n, v0, v1, w);
      var rs := readers[off[w]..off[w+1]];
      dist, epoch, o := EpochOfVertex(line, w - v0, rs, n, src, ne, dist, epoch, o);
      w := w + 1;
    }
  }

  /** The epoch buildInEdgeEpochs stores for an accessed vertex. */
  method EdgeEpoch(off: seq<nat>, readers: seq<nat>, n: nat, src: nat, dest: nat, perLine: nat, ne: nat,
                   lineMin: bool) returns (epoch: nat)
    requires CsrOk(off, readers, n) && src < n < UINT32_LIMIT - 1 && perLine > 0 && ne >= 2
    ensures dest >= n ==> epoch == ne - 1
    ensures dest < n ==>
      var v0, v1 := LineStart(dest, perLine, lineMin), LineEnd(dest, perLine, lineMin, n);
      && IsLine(v0, v1, dest, perLine, lineMin, n)
      && EpochOk(LineOf(off, readers, v0, v1), n, src, ne, epoch)
  {
    epoch := ne - 1;
    if dest < n {
      DestOnLine(dest, perLine, lineMin, n);
      LineIsLine(dest, perLine, lineMin, n);
      var v0, v1 := LineStart(dest, perLine, lineMin), LineEnd(dest, perLine, lineMin, n);
      LineOfOk(off, readers, n, v0, v1);
      epoch := EpochOfLine(off, readers, n, src, ne, v0, v1, LineOf(off, readers, v0, v1));
    }
  }

  /** The first epoch of a valid plan is the epoch the single-epoch builder stores. */
  lemma FirstIsEdgeEpoch(line: Line, n: nat, src: nat, ne: nat, tier: nat, plan: Plan, epoch: nat)
    requires LineOk(line, n) && PlanOk(line, n, src, ne, tier, plan) && EpochOk(line, n, src, ne, epoch)
    requires plan.valid
    ensures plan.first == epoch
  {
    var a, b :| TwoEarliest(line, n, src, a, b)
      && plan.first == EpochOf(line, n, src, ne, a) && plan.second == EpochOf(line, n, src, ne, b);
    var c :| Earliest(line, n, src, |line|, c) && epoch == EpochOf(line, n, src, ne, c);
    assert Offset(line, n, src, a) <= Offset(line, n, src, c);
    SameOffsetSameEpoch(line, n, src, ne, a, c);
  }

  function ClampEpochCount(count: nat): nat {
    if count < 2 then 2 else if count > 65535 then 65535 else count
  }
}
