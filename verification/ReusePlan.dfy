/** The reuse-plan builder: the next two references of a cache line in a circular sweep. */
module ReusePlan {
  import opened Common
  import Epochs
  import Sorting

  const UINT64_MAX: nat := 0xFFFF_FFFF_FFFF_FFFF

  // ---- The specification: the infinite periodic schedule of a line ----

  /** The i-th reader of line vertex w, c sweeps from now. */
  datatype Ref = Ref(w: nat, i: nat, c: nat)

  /** Each line vertex has an ascending list of readers among the n vertices. */
  ghost predicate SortedReaders(rs: seq<nat>, n: nat) {
    && (forall i | 0 <= i < |rs| :: rs[i] < n)
    && NonDescending(rs)
  }

  /** The line's reader lists, by vertex v0 .. v0 + |lists| - 1. */
  type Line = seq<seq<nat>>

  ghost predicate LineOk(line: Line, n: nat) {
    forall w | 0 <= w < |line| :: SortedReaders(line[w], n)
  }

  predicate Exists(line: Line, x: Ref) {
    x.w < |line| && x.i < |line[x.w]|
  }

  /** How far ahead of src the reference lies; only positive offsets are in the future. */
  function Offset(line: Line, n: nat, src: nat, x: Ref): int
    requires Exists(line, x)
  {
    line[x.w][x.i] + x.c * n - src
  }

  ghost predicate Future(line: Line, n: nat, src: nat, x: Ref) {
    Exists(line, x) && Offset(line, n, src, x) > 0
  }

  /** a and b are the two earliest references of the schedule, counting repeated readers separately. */
  ghost predicate TwoEarliest(line: Line, n: nat, src: nat, a: Ref, b: Ref) {
    && Future(line, n, src, a) && Future(line, n, src, b) && a != b
    && Offset(line, n, src, a) <= Offset(line, n, src, b)
    && forall x | Future(line, n, src, x) && x != a && x != b :: Offset(line, n, src, b) <= Offset(line, n, src, x)
  }

  // ---- One line vertex: the two earliest references to it ----

  /** Stepping an iterator over the readers, wrapping to the next sweep at the end. */
  function Wrap(x: Ref, len: nat): Ref {
    if x.i == len then Ref(x.w, 0, x.c + 1) else x
  }

  lemma CycleMonotone(c: nat, d: nat, n: nat)
    requires c < d
    ensures c * n + n <= d * n
  {
    assert (c + 1) * n <= d * n;
  }

  /** Within one vertex the schedule is ordered by sweep, then by index. */
  lemma ScheduleOrder(line: Line, n: nat, src: nat, x: Ref, y: Ref)
    requires LineOk(line, n) && Exists(line, x) && Exists(line, y) && x.w == y.w
    requires x.c < y.c || (x.c == y.c && x.i <= y.i)
    ensures Offset(line, n, src, x) <= Offset(line, n, src, y)
  {
    if x.c < y.c {
      CycleMonotone(x.c, y.c, n);
    }
  }

  lemma FutureIff(line: Line, n: nat, src: nat, x: Ref, start: nat)
    requires LineOk(line, n) && Exists(line, x) && src < n && start <= |line[x.w]|
    requires forall k | 0 <= k < start :: line[x.w][k] <= src
    requires forall k | start <= k < |line[x.w]| :: line[x.w][k] > src
    ensures Future(line, n, src, x) <==> x.c > 0 || x.i >= start
  {
    if x.c > 0 {
      CycleMonotone(0, x.c, n);
    }
  }

  /** Starting at the upper bound, the iterator meets the two earliest references to vertex w. */
  lemma FirstTwo(line: Line, n: nat, src: nat, w: nat, start: nat)
    requires LineOk(line, n) && w < |line| && src < n && 0 < |line[w]| && start <= |line[w]|
    requires forall k | 0 <= k < start :: line[w][k] <= src
    requires forall k | start <= k < |line[w]| :: line[w][k] > src
    ensures var len := |line[w]|;
      var a := Wrap(Ref(w, start, 0), len);
      var b := Wrap(a.(i := a.i + 1), len);
      && a.c <= 1 && b.c <= 2
      && Future(line, n, src, a) && Future(line, n, src, b) && a != b
      && Offset(line, n, src, a) <= Offset(line, n, src, b)
      && forall x | Future(line, n, src, x) && x.w == w && x != a && x != b ::
           Offset(line, n, src, b) <= Offset(line, n, src, x)
  {
    var len := |line[w]|;
    var a := Wrap(Ref(w, start, 0), len);
    var b := Wrap(a.(i := a.i + 1), len);
    FutureIff(line, n, src, a, start);
    FutureIff(line, n, src, b, start);
    ScheduleOrder(line, n, src, a, b);
    forall x | Future(line, n, src, x) && x.w == w && x != a && x != b
      ensures Offset(line, n, src, b) <= Offset(line, n, src, x)
    {
      FutureIff(line, n, src, x, start);
      ScheduleOrder(line, n, src, b, x);
    }
  }

  // ---- Keeping the two best candidates ----

  /** best_distance[2] and best_epoch[2]; UINT64_MAX means empty. */
  datatype Best = Best(d0: nat, e0: nat, d1: nat, e1: nat)

  /** The lambda `consider`. */
  function Consider(b: Best, d: nat, e: nat): Best {
    if d < b.d0 then Best(d, e, b.d0, b.e0)
    else if d < b.d1 then Best(b.d0, b.e0, d, e)
    else b
  }

  /** The epoch stored for a reference: it is wrapped when its sweep is not the current one. */
  function EpochOf(line: Line, n: nat, src: nat, ne: nat, x: Ref): nat
    requires Exists(line, x)
  {
    Epochs.QuantizedFutureEpoch(line[x.w][x.i], src, n, ne, x.c > 0)
  }

  ghost predicate Holds(line: Line, n: nat, src: nat, ne: nat, o: Option<Ref>, d: nat, e: nat) {
    if o.None? then d == UINT64_MAX
    else
      && Future(line, n, src, o.value) && d == Offset(line, n, src, o.value) < UINT64_MAX
      && e == EpochOf(line, n, src, ne, o.value)
  }

  /** x0 and x1 are the two earliest of the references considered so far. */
  ghost predicate BestOk(line: Line, n: nat, src: nat, ne: nat, considered: iset<Ref>, b: Best,
                         x0: Option<Ref>, x1: Option<Ref>)
  {
    && Holds(line, n, src, ne, x0, b.d0, b.e0) && Holds(line, n, src, ne, x1, b.d1, b.e1)
    && b.d0 <= b.d1 && (x0.Some? ==> x0 != x1)
    && (forall x | x in considered :: Future(line, n, src, x))
    && (x0.Some? ==> x0.value in considered) && (x1.Some? ==> x1.value in considered)
    && forall x | x in considered && x0 != Some(x) && x1 != Some(x) :: b.d1 <= Offset(line, n, src, x)
  }

  lemma ConsiderStep(line: Line, n: nat, src: nat, ne: nat, considered: iset<Ref>, b: Best,
                     x0: Option<Ref>, x1: Option<Ref>, x: Ref, d: nat)
    returns (y0: Option<Ref>, y1: Option<Ref>)
    requires BestOk(line, n, src, ne, considered, b, x0, x1) && x !in considered
    requires Future(line, n, src, x) && d == Offset(line, n, src, x) < UINT64_MAX
    ensures BestOk(line, n, src, ne, considered + iset{x}, Consider(b, d, EpochOf(line, n, src, ne, x)), y0, y1)
    ensures y0.Some? && (x0.Some? ==> y1.Some?)
  {
    if d < b.d0 {
      y0, y1 := Some(x), x0;
    } else if d < b.d1 {
      y0, y1 := x0, Some(x);
    } else {
      y0, y1 := x0, x1;
    }
  }

  /** All future references to the first k vertices of the line. */
  ghost function Below(line: Line, n: nat, src: nat, k: nat): iset<Ref> {
    iset x: Ref | Future(line, n, src, x) && x.w < k
  }

  /** The two references one vertex contributes stand for all of that vertex's references. */
  lemma VertexCovered(line: Line, n: nat, src: nat, ne: nat, k: nat, b: Best, x0: Option<Ref>, x1: Option<Ref>,
                      p: Ref, q: Ref)
    requires BestOk(line, n, src, ne, Below(line, n, src, k) + iset{p} + iset{q}, b, x0, x1)
    requires x0.Some? && x1.Some? && p != q && p.w == k && q.w == k
    requires Future(line, n, src, p) && Future(line, n, src, q) && Offset(line, n, src, p) <= Offset(line, n, src, q)
    requires forall x | Future(line, n, src, x) && x.w == k && x != p && x != q ::
      Offset(line, n, src, q) <= Offset(line, n, src, x)
    ensures BestOk(line, n, src, ne, Below(line, n, src, k + 1), b, x0, x1)
  {
    var considered := Below(line, n, src, k) + iset{p} + iset{q};
    assert p in considered && q in considered;
    assert b.d1 <= Offset(line, n, src, q);
  }

  lemma EmptyVertex(line: Line, n: nat, src: nat, ne: nat, k: nat, b: Best, x0: Option<Ref>, x1: Option<Ref>)
    requires BestOk(line, n, src, ne, Below(line, n, src, k), b, x0, x1) && k < |line| && line[k] == []
    ensures BestOk(line, n, src, ne, Below(line, n, src, k + 1), b, x0, x1)
  {
    assert Below(line, n, src, k + 1) == Below(line, n, src, k);
  }

  /** The distance and epoch computed for an iterator position. */
  lemma OffsetBound(line: Line, n: nat, src: nat, x: Ref)
    requires LineOk(line, n) && Exists(line, x) && src < n <= 0xFFFF_FFFF && x.c <= 2
    ensures Offset(line, n, src, x) < UINT64_MAX
  {
    assert x.c * n <= 2 * n;
  }

  /** p and q are the two earliest references to vertex k. */
  ghost predicate FirstOfVertex(line: Line, n: nat, src: nat, k: nat, p: Ref, q: Ref) {
    && p.w == k && q.w == k && p != q && Future(line, n, src, p) && Future(line, n, src, q)
    && Offset(line, n, src, p) <= Offset(line, n, src, q)
    && forall x | Future(line, n, src, x) && x.w == k && x != p && x != q ::
         Offset(line, n, src, q) <= Offset(line, n, src, x)
  }

  method NextTwo(ghost line: Line, k: nat, rs: seq<nat>, n: nat, src: nat) returns (p: Ref, q: Ref)
    requires LineOk(line, n) && k < |line| && rs == line[k] && rs != [] && src < n <= 0xFFFF_FFFF
    ensures FirstOfVertex(line, n, src, k, p, q)
    ensures Offset(line, n, src, p) < UINT64_MAX && Offset(line, n, src, q) < UINT64_MAX
  {
    var start := Sorting.UpperBound(rs, src);
    FirstTwo(line, n, src, k, start);
    p := Wrap(Ref(k, start, 0), |rs|);
    q := Wrap(p.(i := p.i + 1), |rs|);
    OffsetBound(line, n, src, p);
    OffsetBound(line, n, src, q);
  }

  /** One line vertex in nextReusePlanForLine. */
  method ConsiderVertex(ghost line: Line, k: nat, rs: seq<nat>, n: nat, src: nat, ne: nat, best0: Best,
                        ghost y0: Option<Ref>, ghost y1: Option<Ref>)
    returns (best: Best, ghost x0: Option<Ref>, ghost x1: Option<Ref>)
    requires LineOk(line, n) && k < |line| && rs == line[k] && rs != [] && src < n <= 0xFFFF_FFFF
    requires BestOk(line, n, src, ne, Below(line, n, src, k), best0, y0, y1)
    ensures BestOk(line, n, src, ne, Below(line, n, src, k + 1), best, x0, x1) && x0.Some? && x1.Some?
  {
    var p, q := NextTwo(line, k, rs, n, src);
    var distance: nat := rs[p.i] + p.c * n - src;
    best := Consider(best0, distance, Epochs.QuantizedFutureEpoch(rs[p.i], src, n, ne, p.c > 0));
    x0, x1 := ConsiderStep(line, n, src, ne, Below(line, n, src, k), best0, y0, y1, p, distance);
    ghost var b, z0, z1 := best, x0, x1;
    distance := rs[q.i] + q.c * n - src;
    best := Consider(best, distance, Epochs.QuantizedFutureEpoch(rs[q.i], src, n, ne, q.c > 0));
    x0, x1 := ConsiderStep(line, n, src, ne, Below(line, n, src, k) + iset{p}, b, z0, z1, q, distance);
    VertexCovered(line, n, src, ne, k, best, x0, x1, p, q);
  }
}
