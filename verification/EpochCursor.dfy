/** Three ways to find the epoch of a vertex: a division per vertex, a monotone cursor that only
    compares, and a search in a table of boundaries. All three multiply in 64 bits. */
module EpochCursor {
  import opened Arithmetic
  import Common
  import Sorting

  function VertexCount(count: nat): (n: nat)
    ensures n > 0 && (count > 0 ==> n == count) && (count == 0 ==> n == 1)
  {
    if count > 0 then count else 1
  }

  function EpochCount(count: nat): (ne: nat)
    ensures ne >= 2 && (count > 1 ==> ne == count) && (count <= 1 ==> ne == 2)
  {
    if count > 1 then count else 2
  }

  /** What a 64-bit register keeps of a value. */
  function Word64(x: nat): nat { x % UINT64_LIMIT }

  function Clamp(q: nat, ne: nat): nat
    requires ne > 0
  {
    if q < ne then q else ne - 1
  }

  /** The epoch of a vertex: its position in the sweep, kept below the number of epochs. */
  function TrueEpoch(v: nat, n: nat, ne: nat): nat
    requires n > 0 && ne > 0
  {
    Clamp(v * ne / n, ne)
  }

  // ---- The closed form ----

  /** gem5_ecg_quantize_current_epoch: the product wraps at 64 bits, the result is cut to 16. */
  function Quantize(vertex: nat, vertexCount: nat, epochCount: nat): nat {
    var n, ne := VertexCount(vertexCount), EpochCount(epochCount);
    Clamp(Word64(vertex * ne) / n, ne) % UINT16_LIMIT
  }

  lemma Remainder(p: nat)
    requires p < UINT64_LIMIT
    ensures Word64(p) == p
  {
  }

  /** A wrapped product is smaller by at least 2^64 and hence by at least one quotient. */
  lemma WrapLosesAnEpoch(p: nat, n: nat)
    requires 0 < n < UINT64_LIMIT && p >= UINT64_LIMIT
    ensures Word64(p) / n < p / n
  {
    assert Word64(p) + UINT64_LIMIT <= p;
    OneMoreQuotient(Word64(p), p, n);
  }

  lemma OneMoreQuotient(a: nat, b: nat, d: nat)
    requires d > 0 && a + d <= b
    ensures a / d < b / d
  {
    DivBounds(a, d);
    var q := a / d;
    assert d * (q + 1) == d * q + d;
    DivAtLeast(b, d, q + 1);
  }

  lemma ClampedEqual(q: nat, r: nat, ne: nat, same: bool, short: bool, last: bool)
    requires ne >= 2 && (if same then r == q else r < q)
    requires short <==> q < UINT16_LIMIT
    requires last <==> r >= ne - 1
    ensures Clamp(r, ne) % UINT16_LIMIT == Clamp(q, ne) <==> (ne <= UINT16_LIMIT || short) && (same || last)
  {
  }

  /** p is a product and w what a register keeps of it. */
  lemma WrappedQuotient(p: nat, w: nat, n: nat, ne: nat)
    requires n > 0 && ne >= 2 && if p < UINT64_LIMIT then w == p else w / n < p / n
    ensures Clamp(w / n, ne) % UINT16_LIMIT == Clamp(p / n, ne) <==>
      && (ne <= UINT16_LIMIT || p < n * UINT16_LIMIT)
      && (p < UINT64_LIMIT || w >= n * (ne - 1))
  {
    ReachesQuotient(p, n, UINT16_LIMIT);
    ReachesQuotient(w, n, ne - 1);
    ClampedEqual(p / n, w / n, ne, p < UINT64_LIMIT, p < n * UINT16_LIMIT, w >= n * (ne - 1));
  }

  /** The closed form gives the true epoch exactly when that fits 16 bits and its product either does
      not wrap or wraps to something that still lies in the last epoch. */
  lemma QuantizeIsTrue(v: nat, vertexCount: nat, epochCount: nat)
    requires vertexCount < UINT64_LIMIT
    ensures var n, ne := VertexCount(vertexCount), EpochCount(epochCount);
      Quantize(v, vertexCount, epochCount) == TrueEpoch(v, n, ne) <==>
        && (ne <= UINT16_LIMIT || v * ne < n * UINT16_LIMIT)
        && (v * ne < UINT64_LIMIT || Word64(v * ne) >= n * (ne - 1))
  {
    var n, ne := VertexCount(vertexCount), EpochCount(epochCount);
    var p := v * ne;
    if p < UINT64_LIMIT {
      Remainder(p);
    } else {
      WrapLosesAnEpoch(p, n);
    }
    WrappedQuotient(p, Word64(p), n, ne);
  }

  /** With 2^63 vertices and four epochs, vertex 2^62 lies in epoch 2 and is put into epoch 0. */
  lemma QuantizeWraps()
    ensures var v, n := 4611686018427387904, 9223372036854775808;
      v < n < UINT64_LIMIT && Quantize(v, n, 4) == 0 && TrueEpoch(v, n, 4) == 2
  {
  }

  /** The product of the last vertex, and with it every product, fits 64 bits and its epoch 16. */
  predicate ProductsFit(n: nat, ne: nat)
    requires n > 0
  {
    (n - 1) * ne < UINT64_LIMIT && (ne <= UINT16_LIMIT || (n - 1) * ne < n * UINT16_LIMIT)
  }

  /** The first vertex whose product wraps gets a smaller epoch than its own. */
  lemma FirstWrappedProduct(n: nat, ne: nat) returns (v: nat)
    requires 0 < n < UINT64_LIMIT && 2 <= ne < UINT32_LIMIT && (n - 1) * ne >= UINT64_LIMIT
    ensures v < n && UINT64_LIMIT <= v * ne < 2 * UINT64_LIMIT && Word64(v * ne) < n * (ne - 1)
  {
    var q := (UINT64_LIMIT - 1) / ne;
    DivBounds(UINT64_LIMIT - 1, ne);
    v := q + 1;
    assert v * ne == ne * q + ne;
    if v >= n {
      TimesMonotone(ne, n - 1, q);
      assert false;
    }
    RemainderOnce(v * ne, UINT64_LIMIT);
    if n < 2 {
      assert false;
    }
    TimesMonotone(ne - 1, 2, n);
  }

  lemma ProductBelow(v: nat, n: nat, ne: nat, last: nat)
    requires v < n && last == (n - 1) * ne
    ensures v * ne <= last
  {
    TimesMonotone(ne, v, n - 1);
  }

  lemma FittingProduct(v: nat, n: nat, ne: nat, last: nat)
    requires v < n < UINT64_LIMIT && ne >= 2 && v * ne <= last < UINT64_LIMIT
    requires ne <= UINT16_LIMIT || last < n * UINT16_LIMIT
    ensures Quantize(v, n, ne) == TrueEpoch(v, n, ne)
  {
    QuantizeIsTrue(v, n, ne);
  }

  lemma UnfittingProduct(n: nat, ne: nat) returns (v: nat)
    requires 0 < n < UINT64_LIMIT && 2 <= ne < UINT32_LIMIT && !ProductsFit(n, ne)
    ensures v < n && Quantize(v, n, ne) != TrueEpoch(v, n, ne)
  {
    v := n - 1;
    if (n - 1) * ne >= UINT64_LIMIT {
      v := FirstWrappedProduct(n, ne);
    }
    QuantizeIsTrue(v, n, ne);
  }

  /** The closed form gives the true epoch of every vertex of the graph exactly when they all fit. */
  lemma QuantizeExact(n: nat, ne: nat)
    requires 0 < n < UINT64_LIMIT && 2 <= ne < UINT32_LIMIT
    ensures (forall v: nat | v < n :: Quantize(v, n, ne) == TrueEpoch(v, n, ne)) <==> ProductsFit(n, ne)
  {
    if ProductsFit(n, ne) {
      forall v: nat | v < n ensures Quantize(v, n, ne) == TrueEpoch(v, n, ne) {
        ProductBelow(v, n, ne, (n - 1) * ne);
        FittingProduct(v, n, ne, (n - 1) * ne);
      }
    } else {
      var v := UnfittingProduct(n, ne);
    }
  }

  // ---- Boundaries ----

  /** The first vertex of an epoch: epoch * n / ne, rounded up. */
  function Boundary(epoch: nat, n: nat, ne: nat): nat
    requires ne > 0
  {
    (epoch * n + (ne - 1)) / ne
  }

  /** The boundary the source computes: the sum wraps at 64 bits before the division. */
  function WrappedBoundary(epoch: nat, n: nat, ne: nat): nat
    requires ne > 0
  {
    Word64(epoch * n + (ne - 1)) / ne
  }

  /** No boundary wraps: the largest one that is ever compared fits 64 bits. */
  predicate NoWrap(n: nat, ne: nat)
    requires ne > 0
  {
    (ne - 1) * n + ne - 1 < UINT64_LIMIT
  }

  lemma BoundaryReached(v: nat, epoch: nat, n: nat, ne: nat)
    requires n > 0 && ne > 0
    ensures v >= Boundary(epoch, n, ne) <==> v * ne / n >= epoch
  {
    var a := epoch * n;
    if v * ne >= a {
      DivBelow(a + ne - 1, ne, v + 1);
      DivAtLeast(v * ne, n, epoch);
    } else {
      DivAtLeast(a + ne - 1, ne, v + 1);
      DivBelow(v * ne, n, epoch);
    }
  }

  lemma Unwrapped(epoch: nat, n: nat, ne: nat)
    requires epoch < ne && NoWrap(n, ne)
    ensures WrappedBoundary(epoch, n, ne) == Boundary(epoch, n, ne)
  {
    TimesMonotone(n, epoch, ne - 1);
    Remainder(epoch * n + (ne - 1));
  }

  /** Without a wrap, a vertex has reached an epoch exactly when it has reached its boundary. */
  lemma AtBoundary(v: nat, epoch: nat, n: nat, ne: nat)
    requires n > 0 && epoch < ne && NoWrap(n, ne)
    ensures v >= WrappedBoundary(epoch, n, ne) <==> v * ne / n >= epoch
  {
    Unwrapped(epoch, n, ne);
    BoundaryReached(v, epoch, n, ne);
  }

  /** The first epoch whose boundary wraps. */
  lemma {:induction false} FirstWrapped(n: nat, ne: nat, epoch: nat) returns (first: nat)
    requires 0 < ne < UINT32_LIMIT && epoch * n + ne - 1 >= UINT64_LIMIT
    ensures 0 < first <= epoch && first * n + ne - 1 >= UINT64_LIMIT > (first - 1) * n + ne - 1
  {
    assert epoch > 0;
    if (epoch - 1) * n + ne - 1 >= UINT64_LIMIT {
      first := FirstWrapped(n, ne, epoch - 1);
    } else {
      first := epoch;
    }
  }

  /** Only graphs with more vertices than epochs have boundaries that wrap. */
  lemma WrapIsLarge(n: nat, ne: nat)
    requires 2 <= ne < UINT32_LIMIT && !NoWrap(n, ne)
    ensures n > ne
  {
    assert (ne - 1) * n + ne - 1 == (ne - 1) * (n + 1);
    if n <= ne {
      TimesMonotone(ne - 1, n + 1, UINT32_LIMIT);
      assert false;
    }
  }

  /** A sum b that wraps for the first time, n after one that did not. */
  lemma FirstSum(b: nat, n: nat, ne: nat)
    requires 0 < ne < n < UINT64_LIMIT && UINT64_LIMIT <= b < UINT64_LIMIT + n
    ensures Word64(b) / ne < b / ne && (b - n) / ne < b / ne
  {
    RemainderOnce(b, UINT64_LIMIT);
    OneMoreQuotient(b - UINT64_LIMIT, b, ne);
    OneMoreQuotient(b - n, b, ne);
  }

  /** The vertex one below a boundary that does not reach the one before lies in the epoch before. */
  lemma BelowBoundary(e: nat, n: nat, ne: nat)
    requires 0 < e < ne && n > 0 && Boundary(e - 1, n, ne) < Boundary(e, n, ne)
    ensures Boundary(e, n, ne) - 1 < n && TrueEpoch(Boundary(e, n, ne) - 1, n, ne) == e - 1
  {
    BoundaryReached(Boundary(e, n, ne) - 1, e, n, ne);
    BoundaryReached(Boundary(e, n, ne) - 1, e - 1, n, ne);
    LastBoundary(e, n, ne);
  }

  /** A vertex one below the first boundary that wraps is past that boundary as the source computes it. */
  lemma WrapShows(n: nat, ne: nat) returns (v: nat)
    requires 0 < n < UINT64_LIMIT && 2 <= ne < UINT32_LIMIT && !NoWrap(n, ne)
    ensures v < n && TrueEpoch(v, n, ne) + 1 < ne && v >= WrappedBoundary(TrueEpoch(v, n, ne) + 1, n, ne)
  {
    var e := FirstWrapped(n, ne, ne - 1);
    var b: nat := e * n + ne - 1;
    assert (e - 1) * n + ne - 1 == b - n;
    WrapIsLarge(n, ne);
    FirstSum(b, n, ne);
    BelowBoundary(e, n, ne);
    v := Boundary(e, n, ne) - 1;
  }

  lemma LastBoundary(epoch: nat, n: nat, ne: nat)
    requires epoch < ne
    ensures Boundary(epoch, n, ne) <= n
  {
    TimesMonotone(n, epoch, ne - 1);
    assert (ne - 1) * n + ne == ne * (n + 1) - n;
    DivBelow(epoch * n + ne - 1, ne, n + 1);
  }

  // ---- The cursor ----

  /** Where a cursor at the given epoch ends for a vertex: it steps while the next boundary is reached. */
  function Walk(epoch: nat, v: nat, n: nat, ne: nat): (last: nat)
    requires epoch < ne
    ensures epoch <= last < ne && (last + 1 == ne || v < WrappedBoundary(last + 1, n, ne))
    ensures forall e | epoch < e <= last :: v >= WrappedBoundary(e, n, ne)
    decreases ne - epoch
  {
    if epoch + 1 < ne && v >= WrappedBoundary(epoch + 1, n, ne) then Walk(epoch + 1, v, n, ne) else epoch
  }

  /** Without a wrap the cursor ends in the farther of its epoch and the vertex's. */
  lemma WalkIsTrue(epoch: nat, v: nat, n: nat, ne: nat)
    requires epoch < ne && n > 0 && NoWrap(n, ne)
    ensures Walk(epoch, v, n, ne) == Common.Max(epoch, TrueEpoch(v, n, ne))
  {
    var last := Walk(epoch, v, n, ne);
    AtBoundary(v, last, n, ne);
    if last + 1 < ne {
      AtBoundary(v, last + 1, n, ne);
    }
  }

  /** Stopping at a smaller vertex on the way changes nothing. */
  lemma {:induction false} WalkOn(epoch: nat, v: nat, w: nat, n: nat, ne: nat)
    requires epoch < ne && v <= w
    ensures Walk(Walk(epoch, v, n, ne), w, n, ne) == Walk(epoch, w, n, ne)
    decreases ne - epoch
  {
    if epoch + 1 < ne && v >= WrappedBoundary(epoch + 1, n, ne) {
      WalkOn(epoch + 1, v, w, n, ne);
    }
  }

  /** A new cursor finds the epoch of every vertex of the graph exactly when no boundary wraps. */
  lemma CursorExact(n: nat, ne: nat)
    requires 0 < n < UINT64_LIMIT && 2 <= ne < UINT32_LIMIT
    ensures (forall v: nat | v < n :: Walk(0, v, n, ne) == TrueEpoch(v, n, ne)) <==> NoWrap(n, ne)
  {
    if NoWrap(n, ne) {
      forall v: nat | v < n ensures Walk(0, v, n, ne) == TrueEpoch(v, n, ne) {
        WalkIsTrue(0, v, n, ne);
      }
    } else {
      var v := WrapShows(n, ne);
      assert Walk(0, v, n, ne) != TrueEpoch(v, n, ne);
    }
  }

  /** Gem5EcgMonotonicEpochCursor. */
  class MonotonicEpochCursor {
    var vertices: nat
    var epochs: nat
    var epoch: nat
    var nextBoundary: nat

    ghost predicate Valid()
      reads this
    {
      vertices > 0 && epochs >= 2 && epoch < epochs && nextBoundary == WrappedBoundary(epoch + 1, vertices, epochs)
    }

    constructor Default()
      ensures Valid() && vertices == 1 && epochs == 2 && epoch == 0
    {
      vertices, epochs, epoch, nextBoundary := 1, 2, 0, 1;
    }

    constructor (vertexCount: nat, epochCount: nat)
      ensures Valid() && vertices == VertexCount(vertexCount) && epochs == EpochCount(epochCount) && epoch == 0
    {
      vertices, epochs, epoch := VertexCount(vertexCount), EpochCount(epochCount), 0;
      nextBoundary := WrappedBoundary(1, VertexCount(vertexCount), EpochCount(epochCount));
    }

    method Reset(vertexCount: nat, epochCount: nat)
      modifies this
      ensures Valid() && vertices == VertexCount(vertexCount) && epochs == EpochCount(epochCount) && epoch == 0
    {
      vertices, epochs, epoch := VertexCount(vertexCount), EpochCount(epochCount), 0;
      nextBoundary := WrappedBoundary(1, vertices, epochs);
    }

    method EpochOf(vertex: nat) returns (result: nat)
      requires Valid()
      modifies `epoch, `nextBoundary
      ensures Valid() && epoch == Walk(old(epoch), vertex, vertices, epochs) && result == epoch % UINT16_LIMIT
      ensures NoWrap(vertices, epochs) ==> epoch == Common.Max(old(epoch), TrueEpoch(vertex, vertices, epochs))
    {
      while epoch + 1 < epochs && vertex >= nextBoundary
        invariant Valid() && Walk(old(epoch), vertex, vertices, epochs) == Walk(epoch, vertex, vertices, epochs)
        decreases epochs - epoch
      {
        epoch := epoch + 1;
        nextBoundary := WrappedBoundary(epoch + 1, vertices, epochs);
      }
      result := epoch % UINT16_LIMIT;
      if NoWrap(vertices, epochs) {
        WalkIsTrue(old(epoch), vertex, vertices, epochs);
      }
    }
  }

  ghost predicate AllTrue(results: seq<nat>, vs: seq<nat>, n: nat, ne: nat)
    requires n > 0 && ne > 0
  {
    |results| <= |vs| && forall i | 0 <= i < |results| :: results[i] == TrueEpoch(vs[i], n, ne) % UINT16_LIMIT
  }

  ghost predicate AllWalked(results: seq<nat>, vs: seq<nat>, n: nat, ne: nat)
    requires ne > 0
  {
    |results| <= |vs| && forall i | 0 <= i < |results| :: results[i] == Walk(0, vs[i], n, ne) % UINT16_LIMIT
  }

  lemma WalkedTrue(results: seq<nat>, vs: seq<nat>, n: nat, ne: nat)
    requires n > 0 && ne > 0 && AllWalked(results, vs, n, ne) && NoWrap(n, ne)
    ensures AllTrue(results, vs, n, ne)
  {
    forall i | 0 <= i < |results| ensures results[i] == TrueEpoch(vs[i], n, ne) % UINT16_LIMIT {
      WalkIsTrue(0, vs[i], n, ne);
    }
  }

  /** Where a cursor is after the first k vertices of a sweep. */
  function Reached(vs: seq<nat>, k: nat, n: nat, ne: nat): (epoch: nat)
    requires k <= |vs| && ne > 0
    ensures epoch < ne
  {
    if k == 0 then 0 else Walk(0, vs[k-1], n, ne)
  }

  lemma ReachedNext(vs: seq<nat>, k: nat, n: nat, ne: nat)
    requires Common.NonDescending(vs) && k < |vs| && ne > 0
    ensures Walk(Reached(vs, k, n, ne), vs[k], n, ne) == Reached(vs, k + 1, n, ne)
  {
    if k > 0 {
      WalkOn(0, vs[k-1], vs[k], n, ne);
    }
  }

  /** A sweep that never steps back, started by a reset, gets for every vertex what a new cursor would
      get for it alone, and its true epoch if no boundary wraps. */
  method Sweep(cursor: MonotonicEpochCursor, vertexCount: nat, epochCount: nat, vs: seq<nat>)
    returns (results: seq<nat>)
    requires Common.NonDescending(vs)
    modifies cursor
    ensures |results| == |vs| && AllWalked(results, vs, VertexCount(vertexCount), EpochCount(epochCount))
    ensures NoWrap(VertexCount(vertexCount), EpochCount(epochCount)) ==>
      AllTrue(results, vs, VertexCount(vertexCount), EpochCount(epochCount))
  {
    cursor.Reset(vertexCount, epochCount);
    ghost var n, ne := cursor.vertices, cursor.epochs;
    results := [];
    while |results| < |vs|
      invariant cursor.Valid() && cursor.vertices == n && cursor.epochs == ne
      invariant AllWalked(results, vs, n, ne) && cursor.epoch == Reached(vs, |results|, n, ne)
      decreases |vs| - |results|
    {
      ReachedNext(vs, |results|, n, ne);
      var e := cursor.EpochOf(vs[|results|]);
      results := results + [e];
    }
    if NoWrap(n, ne) {
      WalkedTrue(results, vs, n, ne);
    }
  }

  // ---- The table ----

  ghost predicate Table(boundaries: seq<nat>, n: nat, ne: nat) {
    && n > 0 && ne >= 2 && |boundaries| == ne - 1
    && forall i | 0 <= i < ne - 1 :: boundaries[i] == WrappedBoundary(i + 1, n, ne)
  }

  /** The first i boundaries end at or below the vertex and the next one above it. */
  ghost predicate Located(boundaries: seq<nat>, v: nat, i: nat) {
    i <= |boundaries| && (i > 0 ==> boundaries[i-1] <= v) && (i < |boundaries| ==> v < boundaries[i])
  }

  /** Without a wrap the one place a vertex can be located at is its epoch. */
  lemma LocatedIsTrue(boundaries: seq<nat>, v: nat, i: nat, n: nat, ne: nat)
    requires Table(boundaries, n, ne) && NoWrap(n, ne)
    ensures Located(boundaries, v, i) <==> i == TrueEpoch(v, n, ne)
  {
    if i < ne {
      AtBoundary(v, i, n, ne);
    }
    if i + 1 < ne {
      AtBoundary(v, i + 1, n, ne);
    }
  }

  /** The table locates every vertex of the graph at its epoch exactly when no boundary wraps. */
  lemma TableExact(boundaries: seq<nat>, n: nat, ne: nat)
    requires Table(boundaries, n, ne) && n < UINT64_LIMIT && ne < UINT32_LIMIT
    ensures (forall v: nat | v < n :: Located(boundaries, v, TrueEpoch(v, n, ne))) <==> NoWrap(n, ne)
  {
    if NoWrap(n, ne) {
      forall v: nat | v < n ensures Located(boundaries, v, TrueEpoch(v, n, ne)) {
        LocatedIsTrue(boundaries, v, TrueEpoch(v, n, ne), n, ne);
      }
    } else {
      var v := WrapShows(n, ne);
      var e := TrueEpoch(v, n, ne) + 1;
      assert !Located(boundaries, v, TrueEpoch(v, n, ne));
    }
  }

  /** Gem5EcgEpochQuantizer. */
  class EpochQuantizer {
    var boundaries: seq<nat>

    constructor (vertexCount: nat, epochCount: nat)
      ensures Table(boundaries, VertexCount(vertexCount), EpochCount(epochCount))
    {
      boundaries := [];
      new;
      Reset(vertexCount, epochCount);
    }

    method Reset(vertexCount: nat, epochCount: nat)
      modifies this
      ensures Table(boundaries, VertexCount(vertexCount), EpochCount(epochCount))
    {
      var n, ne := VertexCount(vertexCount), EpochCount(epochCount);
      boundaries := seq(ne - 1, _ => 0);
      var epoch := 1;
      while epoch < ne
        invariant 1 <= epoch <= ne && |boundaries| == ne - 1
        invariant forall i | 0 <= i < epoch - 1 :: boundaries[i] == WrappedBoundary(i + 1, n, ne)
      {
        boundaries := boundaries[epoch - 1 := WrappedBoundary(epoch, n, ne)];
        epoch := epoch + 1;
      }
    }

    method EpochOf(vertex: nat, ghost n: nat, ghost ne: nat) returns (result: nat)
      requires Table(boundaries, n, ne)
      ensures exists i: nat :: Located(boundaries, vertex, i) && result == i % UINT16_LIMIT
      ensures NoWrap(n, ne) ==> result == TrueEpoch(vertex, n, ne) % UINT16_LIMIT
    {
      var i := Sorting.UpperBound(boundaries, vertex);
      assert Located(boundaries, vertex, i);
      if NoWrap(n, ne) {
        LocatedIsTrue(boundaries, vertex, i, n, ne);
      }
      result := i % UINT16_LIMIT;
    }
  }

  // ---- All three ----

  /** Neither a boundary nor the product of the vertex wraps. */
  predicate Fits(v: nat, n: nat, ne: nat)
    requires ne > 0
  {
    NoWrap(n, ne) && v * ne < UINT64_LIMIT
  }

  /** On a graph, what has to fit is a matter of the two counts. */
  lemma FitsGraph(v: nat, n: nat, ne: nat)
    requires v < n && ne > 0 && NoWrap(n, ne) && (n - 1) * ne < UINT64_LIMIT
    ensures Fits(v, n, ne)
  {
    TimesMonotone(ne, v, n - 1);
  }

  /** Vertex ids and counts of 32 bits always fit. */
  lemma Fits32(v: nat, vertexCount: nat, epochCount: nat)
    requires v < UINT32_LIMIT && vertexCount < UINT32_LIMIT && epochCount < UINT32_LIMIT
    ensures Fits(v, VertexCount(vertexCount), EpochCount(epochCount))
  {
    var n, ne := VertexCount(vertexCount), EpochCount(epochCount);
    TimesMonotone(ne, v, UINT32_LIMIT);
    TimesMonotone(ne - 1, n + 1, UINT32_LIMIT);
    assert (ne - 1) * n + ne - 1 == (ne - 1) * (n + 1);
  }

  lemma ComputedTrue(v: nat, vertexCount: nat, epochCount: nat)
    requires Fits(v, VertexCount(vertexCount), EpochCount(epochCount))
    ensures Quantize(v, vertexCount, epochCount)
      == TrueEpoch(v, VertexCount(vertexCount), EpochCount(epochCount)) % UINT16_LIMIT
  {
    Remainder(v * EpochCount(epochCount));
  }

  lemma AllTrueEqual(a: seq<nat>, b: seq<nat>, vs: seq<nat>, n: nat, ne: nat)
    requires n > 0 && ne > 0 && AllTrue(a, vs, n, ne) && AllTrue(b, vs, n, ne) && |a| == |b|
    ensures a == b
  {
  }

  /** The table and the closed form for a list of vertices. */
  method LookUp(vertexCount: nat, epochCount: nat, vs: seq<nat>) returns (looked: seq<nat>, computed: seq<nat>)
    requires forall v | v in vs :: Fits(v, VertexCount(vertexCount), EpochCount(epochCount))
    ensures |looked| == |computed| == |vs|
    ensures AllTrue(looked, vs, VertexCount(vertexCount), EpochCount(epochCount))
    ensures AllTrue(computed, vs, VertexCount(vertexCount), EpochCount(epochCount))
  {
    var n, ne := VertexCount(vertexCount), EpochCount(epochCount);
    var table := new EpochQuantizer(vertexCount, epochCount);
    looked, computed := [], [];
    while |looked| < |vs|
      invariant |looked| == |computed| <= |vs| && Table(table.boundaries, n, ne)
      invariant AllTrue(looked, vs, n, ne) && AllTrue(computed, vs, n, ne)
      decreases |vs| - |looked|
    {
      var v := vs[|looked|];
      ComputedTrue(v, vertexCount, epochCount);
      var e := table.EpochOf(v, n, ne);
      looked, computed := looked + [e], computed + [Quantize(v, vertexCount, epochCount)];
    }
  }

  /** Cursor, table and closed form give the true epochs of every sweep in which nothing wraps. */
  method AllAgree(vertexCount: nat, epochCount: nat, vs: seq<nat>)
    returns (swept: seq<nat>, looked: seq<nat>, computed: seq<nat>)
    requires Common.NonDescending(vs)
    requires forall v | v in vs :: Fits(v, VertexCount(vertexCount), EpochCount(epochCount))
    ensures swept == looked == computed && |swept| == |vs|
    ensures forall i | 0 <= i < |vs| ::
      swept[i] == TrueEpoch(vs[i], VertexCount(vertexCount), EpochCount(epochCount)) % UINT16_LIMIT
  {
    ghost var n, ne := VertexCount(vertexCount), EpochCount(epochCount);
    var cursor := new MonotonicEpochCursor.Default();
    swept := Sweep(cursor, vertexCount, epochCount, vs);
    looked, computed := LookUp(vertexCount, epochCount, vs);
    if vs != [] {
      assert Fits(vs[0], n, ne);
    }
    AllTrueEqual(swept, looked, vs, n, ne);
    AllTrueEqual(swept, computed, vs, n, ne);
  }
}
