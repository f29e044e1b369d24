/** Delta-stepping SSSP on one thread: bins of width delta, processed in order. */
module DeltaStepping {
  import Arithmetic
  import opened ShortestPaths

  const K_MAX_BIN: nat := 0x7FFF_FFFF_FFFF_FFFF
  const BIN_SIZE_THRESHOLD: nat := 1000

  function BinOf(d: nat, delta: nat): nat
    requires delta > 0
  {
    d / delta
  }

  /** The kernel's test dist[u] >= delta * bin is the comparison of bin numbers. */
  lemma BinAtLeast(d: nat, delta: nat, b: nat)
    requires delta > 0
    ensures d >= delta * b <==> BinOf(d, delta) >= b
  {
    Arithmetic.ReachesQuotient(d, delta, b);
  }

  lemma BinMonotone(a: nat, d: nat, delta: nat)
    requires delta > 0 && a <= d
    ensures BinOf(a, delta) <= BinOf(d, delta)
  {
    Arithmetic.DivMonotone(a, d, delta);
  }

  lemma BinBound(d: nat, delta: nat)
    requires delta > 0
    ensures BinOf(d, delta) <= d
  {
    Arithmetic.TimesMonotone(d + 1, 1, delta);
    Arithmetic.DivBelow(d, delta, d + 1);
  }

  type Bins = seq<seq<nat>>

  /** local_bins.resize(n) when n is larger, then push_back. */
  function Push(bins: Bins, b: nat, v: nat): (r: Bins)
    ensures |r| == if b < |bins| then |bins| else b + 1
    ensures forall i | 0 <= i < |r| ::
      r[i] == (if i < |bins| then bins[i] else []) + if i == b then [v] else []
  {
    var grown := if b < |bins| then bins else bins + seq(b + 1 - |bins|, _ => []);
    grown[b := grown[b] + [v]]
  }

  /** v waits in the bin of its current distance. */
  ghost predicate Binned(dist: seq<nat>, bins: Bins, delta: nat, v: nat)
    requires delta > 0 && v < |dist|
  {
    BinOf(dist[v], delta) < |bins| && v in bins[BinOf(dist[v], delta)]
  }

  /** No work is lost on x: its edges are relaxed, or it is still to be processed. */
  ghost predicate Safe(g: WGraph, dist: seq<nat>, bins: Bins, delta: nat, curr: nat, rest: seq<nat>, x: nat)
    requires delta > 0 && x < |dist| && |dist| == g.N()
  {
    Relaxed(g, dist, x) || Binned(dist, bins, delta, x) || (x in rest && BinOf(dist[x], delta) == curr)
  }

  /** Bins below the current one are empty, and everything in it (and in the frontier) lies at or above it. */
  ghost predicate BinsOk(dist: seq<nat>, bins: Bins, delta: nat, curr: nat)
    requires delta > 0
  {
    && |bins| <= DIST_INF
    && (forall b | 0 <= b < |bins| && b < curr :: bins[b] == [])
    && (forall b, i | 0 <= b < |bins| && 0 <= i < |bins[b]| :: bins[b][i] < |dist| && dist[bins[b][i]] < DIST_INF)
    && (curr < |bins| ==> forall i | 0 <= i < |bins[curr]| ::
          bins[curr][i] < |dist| && BinOf(dist[bins[curr][i]], delta) >= curr)
  }

  ghost predicate SafeExcept(g: WGraph, dist: seq<nat>, bins: Bins, delta: nat, curr: nat, rest: seq<nat>, u: nat)
    requires delta > 0
  {
    && |dist| == g.N()
    && forall x | 0 <= x < g.N() && x != u :: Safe(g, dist, bins, delta, curr, rest, x)
  }

  /** The state while u's edges are being relaxed, the first j being done. */
  ghost predicate Relaxing(g: WGraph, C: iset<(nat, int)>, s: nat, dist: seq<nat>, bins: Bins, delta: nat,
                           curr: nat, rest: seq<nat>, u: nat, j: nat)
    requires delta > 0
  {
    && Sound(C, s, dist) && BinsOk(dist, bins, delta, curr) && SafeExcept(g, dist, bins, delta, curr, rest, u)
    && u < g.N() && j <= |g.out[u]| && dist[u] < DIST_INF && BinOf(dist[u], delta) >= curr
    && RelaxedUpTo(g, dist, u, j)
  }

  // ---- One relaxation ----

  lemma PushBinsOk(dist: seq<nat>, bins: Bins, delta: nat, curr: nat, v: nat, d: nat)
    requires delta > 0 && BinsOk(dist, bins, delta, curr)
    requires v < |dist| && d <= dist[v] && d < DIST_INF && BinOf(d, delta) >= curr
    ensures BinsOk(dist[v := d], Push(bins, BinOf(d, delta), v), delta, curr)
  {
    BinBound(d, delta);
    var dist', bins' := dist[v := d], Push(bins, BinOf(d, delta), v);
    forall b, i | 0 <= b < |bins'| && 0 <= i < |bins'[b]|
      ensures bins'[b][i] < |dist| && dist'[bins'[b][i]] < DIST_INF
      ensures b == curr ==> BinOf(dist'[bins'[b][i]], delta) >= curr
    {
      assert bins'[b][i] == v || (b < |bins| && i < |bins[b]| && bins'[b][i] == bins[b][i]);
    }
  }

  lemma PushKeepsSafe(g: WGraph, dist: seq<nat>, bins: Bins, delta: nat, curr: nat, rest: seq<nat>, v: nat, d: nat,
                      x: nat)
    requires delta > 0 && |dist| == g.N() && v < g.N() && d <= dist[v] && x < g.N()
    requires x == v || Safe(g, dist, bins, delta, curr, rest, x)
    ensures Safe(g, dist[v := d], Push(bins, BinOf(d, delta), v), delta, curr, rest, x)
  {
    var bins' := Push(bins, BinOf(d, delta), v);
    if x == v {
      assert v in bins'[BinOf(d, delta)];
    } else if Relaxed(g, dist, x) {
      LowerKeepsRelaxed(g, dist, v, d, x, |g.out[x]|);
    } else if Binned(dist, bins, delta, x) {
      assert x in bins'[BinOf(dist[x], delta)];
    }
  }

  /** A successful relaxation of edge j lowers v to d and files v in the bin of d, which is never
      below the current bin. */
  lemma ImproveStep(g: WGraph, C: iset<(nat, int)>, s: nat, dist: seq<nat>, bins: Bins, delta: nat, curr: nat,
                    rest: seq<nat>, u: nat, j: nat, v: nat, d: nat)
    requires delta > 0 && g.Valid() && Extending(g, s, C)
    requires Relaxing(g, C, s, dist, bins, delta, curr, rest, u, j) && j < |g.out[u]|
    requires v == g.out[u][j].v && v < g.N() && d == dist[u] + g.out[u][j].w < dist[v]
    ensures v != u && Total(dist[v := d]) < Total(dist) && BinOf(d, delta) >= curr
    ensures Relaxing(g, C, s, dist[v := d], Push(bins, BinOf(d, delta), v), delta, curr, rest, u, j + 1)
  {
    assert dist[v] <= DIST_INF;
    BinMonotone(dist[u], d, delta);
    RelaxSound(g, C, s, dist, u, j);
    PushBinsOk(dist, bins, delta, curr, v, d);
    var dist', bins' := dist[v := d], Push(bins, BinOf(d, delta), v);
    forall x | 0 <= x < g.N() && x != u ensures Safe(g, dist', bins', delta, curr, rest, x) {
      PushKeepsSafe(g, dist, bins, delta, curr, rest, v, d, x);
    }
    LowerKeepsRelaxed(g, dist, v, d, u, j);
    TotalUpdate(dist, v, d);
  }

  lemma KeepStep(g: WGraph, C: iset<(nat, int)>, s: nat, dist: seq<nat>, bins: Bins, delta: nat, curr: nat,
                 rest: seq<nat>, u: nat, j: nat)
    requires delta > 0 && g.Valid() && Relaxing(g, C, s, dist, bins, delta, curr, rest, u, j) && j < |g.out[u]|
    requires dist[u] + g.out[u][j].w >= dist[g.out[u][j].v]
    ensures Relaxing(g, C, s, dist, bins, delta, curr, rest, u, j + 1)
  {
  }

  /** Distances only fall, and only to the current bin or above. */
  ghost predicate Lowered(a: seq<nat>, d: seq<nat>, delta: nat, curr: nat)
    requires delta > 0
  {
    && |a| == |d|
    && forall v | 0 <= v < |a| :: d[v] <= a[v] && (d[v] == a[v] || BinOf(d[v], delta) >= curr)
  }

  /** RelaxEdges: with one thread the compare-and-swap always succeeds at its first try. */
  method RelaxEdges(g: WGraph, ghost C: iset<(nat, int)>, ghost s: nat, u: nat, delta: nat, dist: array<nat>,
                    bins0: Bins, ghost curr: nat, ghost rest: seq<nat>) returns (bins: Bins)
    requires delta > 0 && g.Valid() && Extending(g, s, C) && dist.Length == g.N()
    requires Relaxing(g, C, s, dist[..], bins0, delta, curr, rest, u, 0)
    modifies dist
    ensures u < g.N() && Relaxing(g, C, s, dist[..], bins, delta, curr, rest, u, |g.out[u]|)
    ensures Total(dist[..]) < Total(old(dist[..])) || (dist[..] == old(dist[..]) && bins == bins0)
    ensures Lowered(old(dist[..]), dist[..], delta, curr)
  {
    bins := bins0;
    ghost var d0 := dist[..];
    var sourceDist := dist[u];
    var j := 0;
    while j < |g.out[u]|
      invariant j <= |g.out[u]| && dist[u] == sourceDist
      invariant Relaxing(g, C, s, dist[..], bins, delta, curr, rest, u, j)
      invariant Total(dist[..]) < Total(d0) || (dist[..] == d0 && bins == bins0)
      invariant Lowered(d0, dist[..], delta, curr)
    {
      var wn := g.out[u][j];
      var oldDist := dist[wn.v];
      var newDist: nat := sourceDist + wn.w;
      assert newDist <= INT32_MAX;
      ghost var d := dist[..];
      if newDist < oldDist {
        ImproveStep(g, C, s, d, bins, delta, curr, rest, u, j, wn.v, newDist);
        dist[wn.v] := newDist;
        var destBin := newDist / delta;
        bins := Push(bins, destBin, wn.v);
        assert dist[..] == d[wn.v := newDist];
      } else {
        KeepStep(g, C, s, d, bins, delta, curr, rest, u, j);
      }
      j := j + 1;
    }
  }

  // ---- Processing the frontier and the current bin ----

  /** Between relaxations: nothing is lost. */
  ghost predicate Phase(g: WGraph, C: iset<(nat, int)>, s: nat, dist: seq<nat>, bins: Bins, delta: nat,
                        curr: nat, rest: seq<nat>)
    requires delta > 0
  {
    && Sound(C, s, dist) && BinsOk(dist, bins, delta, curr) && |dist| == g.N()
    && (forall x | 0 <= x < g.N() :: Safe(g, dist, bins, delta, curr, rest, x))
    && (forall i | 0 <= i < |rest| :: rest[i] < g.N() && dist[rest[i]] < DIST_INF)
  }

  /** Taking u off the frontier to relax it. */
  lemma TakeStep(g: WGraph, C: iset<(nat, int)>, s: nat, dist: seq<nat>, bins: Bins, delta: nat, curr: nat,
                 rest: seq<nat>)
    requires delta > 0 && Phase(g, C, s, dist, bins, delta, curr, rest) && rest != []
    requires BinOf(dist[rest[0]], delta) >= curr
    ensures Relaxing(g, C, s, dist, bins, delta, curr, rest[1..], rest[0], 0)
  {
    forall x | 0 <= x < g.N() && x != rest[0] ensures Safe(g, dist, bins, delta, curr, rest[1..], x) {
      assert Safe(g, dist, bins, delta, curr, rest, x);
      assert x in rest ==> x in rest[1..];
    }
  }

  /** Skipping u loses nothing: if u's distance has fallen below the current bin, u was relaxed then. */
  lemma SkipStep(g: WGraph, C: iset<(nat, int)>, s: nat, dist: seq<nat>, bins: Bins, delta: nat, curr: nat,
                 rest: seq<nat>)
    requires delta > 0 && Phase(g, C, s, dist, bins, delta, curr, rest) && rest != []
    requires BinOf(dist[rest[0]], delta) < curr
    ensures Phase(g, C, s, dist, bins, delta, curr, rest[1..])
  {
    forall x | 0 <= x < g.N() ensures Safe(g, dist, bins, delta, curr, rest[1..], x) {
      assert Safe(g, dist, bins, delta, curr, rest, x);
      assert x in rest ==> x in rest[1..] || x == rest[0];
    }
  }

  lemma DoneStep(g: WGraph, C: iset<(nat, int)>, s: nat, dist: seq<nat>, bins: Bins, delta: nat, curr: nat,
                 rest: seq<nat>, u: nat)
    requires delta > 0 && u < g.N() && Relaxing(g, C, s, dist, bins, delta, curr, rest, u, |g.out[u]|)
    requires forall i | 0 <= i < |rest| :: rest[i] < g.N() && dist[rest[i]] < DIST_INF
    ensures Phase(g, C, s, dist, bins, delta, curr, rest)
  {
    assert Safe(g, dist, bins, delta, curr, rest, u);
  }

  lemma RestFinite(a: seq<nat>, d: seq<nat>, delta: nat, curr: nat, rest: seq<nat>)
    requires delta > 0 && Lowered(a, d, delta, curr)
    requires forall i | 0 <= i < |rest| :: rest[i] < |a| && a[rest[i]] < DIST_INF
    ensures forall i | 0 <= i < |rest| :: rest[i] < |d| && d[rest[i]] < DIST_INF
    ensures forall i | 0 <= i < |rest| && BinOf(a[rest[i]], delta) >= curr :: BinOf(d[rest[i]], delta) >= curr
  {
  }

  /** Relaxing the first vertex of the rest. */
  method RelaxFirst(g: WGraph, ghost C: iset<(nat, int)>, ghost s: nat, delta: nat, dist: array<nat>, bins0: Bins,
                    ghost curr: nat, ghost rest: seq<nat>, u: nat) returns (bins: Bins)
    requires delta > 0 && g.Valid() && Extending(g, s, C) && dist.Length == g.N()
    requires Phase(g, C, s, dist[..], bins0, delta, curr, rest) && rest != [] && u == rest[0]
    requires BinOf(dist[u], delta) >= curr
    modifies dist
    ensures Phase(g, C, s, dist[..], bins, delta, curr, rest[1..])
    ensures Total(dist[..]) < Total(old(dist[..])) || (dist[..] == old(dist[..]) && bins == bins0)
    ensures Lowered(old(dist[..]), dist[..], delta, curr)
  {
    ghost var d := dist[..];
    TakeStep(g, C, s, d, bins0, delta, curr, rest);
    bins := RelaxEdges(g, C, s, u, delta, dist, bins0, curr, rest[1..]);
    RestFinite(d, dist[..], delta, curr, rest[1..]);
    DoneStep(g, C, s, dist[..], bins, delta, curr, rest[1..], u);
  }

  /** The frontier loop: entries whose distance has dropped below the current bin are skipped. */
  method ProcessFrontier(g: WGraph, ghost C: iset<(nat, int)>, ghost s: nat, delta: nat, dist: array<nat>,
                         bins0: Bins, curr: nat, frontier: seq<nat>) returns (bins: Bins)
    requires delta > 0 && g.Valid() && Extending(g, s, C) && dist.Length == g.N()
    requires Phase(g, C, s, dist[..], bins0, delta, curr, frontier)
    modifies dist
    ensures Phase(g, C, s, dist[..], bins, delta, curr, [])
    ensures Total(dist[..]) < Total(old(dist[..])) || (dist[..] == old(dist[..]) && bins == bins0)
  {
    bins := bins0;
    ghost var d0 := dist[..];
    var i := 0;
    while i < |frontier|
      invariant i <= |frontier| && Phase(g, C, s, dist[..], bins, delta, curr, frontier[i..])
      invariant Total(dist[..]) < Total(d0) || (dist[..] == d0 && bins == bins0)
    {
      var u := frontier[i];
      ghost var rest := frontier[i..];
      assert rest[1..] == frontier[i+1..] && rest[0] == u;
      BinAtLeast(dist[u], delta, curr);
      if dist[u] >= delta * curr {
        bins := RelaxFirst(g, C, s, delta, dist, bins, curr, rest, u);
      } else {
        SkipStep(g, C, s, dist[..], bins, delta, curr, rest);
      }
      i := i + 1;
    }
    assert frontier[i..] == [];
  }

  /** Moving a whole bin out to be processed. */
  lemma EmptyBinStep(g: WGraph, C: iset<(nat, int)>, s: nat, dist: seq<nat>, bins: Bins, delta: nat, curr: nat, b: nat)
    requires delta > 0 && Phase(g, C, s, dist, bins, delta, curr, []) && curr <= b < |bins|
    requires forall i | curr <= i < b :: bins[i] == []
    ensures Phase(g, C, s, dist, bins[b := []], delta, b, bins[b])
  {
    var bins', rest := bins[b := []], bins[b];
    forall x | 0 <= x < g.N() ensures Safe(g, dist, bins', delta, b, rest, x) {
      assert Safe(g, dist, bins, delta, curr, [], x);
    }
  }

  /** One pass over a copy of the current bin. */
  method ProcessBinCopy(g: WGraph, ghost C: iset<(nat, int)>, ghost s: nat, delta: nat, dist: array<nat>,
                        bins0: Bins, ghost curr: nat, copy: seq<nat>) returns (bins: Bins)
    requires delta > 0 && g.Valid() && Extending(g, s, C) && dist.Length == g.N()
    requires Phase(g, C, s, dist[..], bins0, delta, curr, copy)
    requires forall i | 0 <= i < |copy| :: BinOf(dist[copy[i]], delta) >= curr
    modifies dist
    ensures Phase(g, C, s, dist[..], bins, delta, curr, [])
    ensures Total(dist[..]) < Total(old(dist[..])) || (dist[..] == old(dist[..]) && bins == bins0)
  {
    bins := bins0;
    ghost var d0 := dist[..];
    var i := 0;
    while i < |copy|
      invariant i <= |copy| && Phase(g, C, s, dist[..], bins, delta, curr, copy[i..])
      invariant forall j | i <= j < |copy| :: copy[j] < dist.Length && BinOf(dist[copy[j]], delta) >= curr
      invariant Total(dist[..]) < Total(d0) || (dist[..] == d0 && bins == bins0)
    {
      ghost var rest := copy[i..];
      assert rest[1..] == copy[i+1..] && rest[0] == copy[i];
      bins := RelaxFirst(g, C, s, delta, dist, bins, curr, rest, copy[i]);
      i := i + 1;
    }
    assert copy[i..] == [];
  }

  /** The inner loop: reprocess the current bin while it is small and not empty. */
  method DrainBin(g: WGraph, ghost C: iset<(nat, int)>, ghost s: nat, delta: nat, dist: array<nat>,
                  bins0: Bins, curr: nat) returns (bins: Bins)
    requires delta > 0 && g.Valid() && Extending(g, s, C) && dist.Length == g.N()
    requires Phase(g, C, s, dist[..], bins0, delta, curr, [])
    modifies dist
    ensures Phase(g, C, s, dist[..], bins, delta, curr, [])
    ensures Total(dist[..]) < Total(old(dist[..])) || dist[..] == old(dist[..])
    ensures curr >= |bins0| || bins0[curr] == [] ==> bins == bins0 && dist[..] == old(dist[..])
  {
    bins := bins0;
    ghost var d0 := dist[..];
    while curr < |bins| && bins[curr] != [] && |bins[curr]| < BIN_SIZE_THRESHOLD
      invariant Phase(g, C, s, dist[..], bins, delta, curr, [])
      invariant Total(dist[..]) < Total(d0) || dist[..] == d0
      invariant curr >= |bins0| || bins0[curr] == [] ==> bins == bins0 && dist[..] == d0
      decreases Total(dist[..]), if curr < |bins| then |bins[curr]| else 0
    {
      EmptyBinStep(g, C, s, dist[..], bins, delta, curr, curr);
      var copy := bins[curr];
      bins := ProcessBinCopy(g, C, s, delta, dist, bins[curr := []], curr, copy);
    }
  }

  /** The first non-empty bin at or after the current one, if any. */
  method NextBin(bins: Bins, curr: nat) returns (next: nat)
    requires |bins| <= DIST_INF
    ensures next == K_MAX_BIN ==> forall i | curr <= i < |bins| :: bins[i] == []
    ensures next != K_MAX_BIN ==>
      curr <= next < |bins| && bins[next] != [] && forall i | curr <= i < next :: bins[i] == []
  {
    var i := curr;
    while i < |bins|
      invariant forall j | curr <= j < i && j < |bins| :: bins[j] == []
    {
      if bins[i] != [] {
        return i;
      }
      i := i + 1;
    }
    next := K_MAX_BIN;
  }

  lemma AllBinsEmptyExact(g: WGraph, s: nat, dist: seq<nat>, bins: Bins, delta: nat, curr: nat)
    requires delta > 0 && Phase(g, Walks(g, s), s, dist, bins, delta, curr, [])
    requires forall i | curr <= i < |bins| :: bins[i] == []
    ensures Exact(g, s, dist)
  {
    forall u | 0 <= u < g.N() ensures Relaxed(g, dist, u) {
      assert Safe(g, dist, bins, delta, curr, [], u);
    }
    RelaxedIsExact(g, s, dist);
  }

  function Ahead(bins: nat, curr: nat): nat {
    if curr == K_MAX_BIN then 0 else if curr < bins then 1 + bins - curr else 1
  }

  /** One turn of the outer loop on the bin `curr`; the double-buffered index and tail slots of the
      kernel reduce to the returned next bin and frontier. */
  method ProcessBin(g: WGraph, ghost s: nat, delta: nat, dist: array<nat>, bins0: Bins, curr: nat, frontier0: seq<nat>)
    returns (bins: Bins, next: nat, frontier: seq<nat>)
    requires delta > 0 && g.Valid() && dist.Length == g.N() && curr != K_MAX_BIN
    requires Phase(g, Walks(g, s), s, dist[..], bins0, delta, curr, frontier0)
    requires curr < |bins0| ==> bins0[curr] == []
    modifies dist
    ensures next == K_MAX_BIN ==> Exact(g, s, dist[..])
    ensures next != K_MAX_BIN ==> Phase(g, Walks(g, s), s, dist[..], bins, delta, next, frontier)
    ensures next != K_MAX_BIN ==> next < |bins| && bins[next] == []
    ensures Total(dist[..]) < Total(old(dist[..]))
      || (Total(dist[..]) == Total(old(dist[..])) && Ahead(|bins|, next) < Ahead(|bins0|, curr))
  {
    ghost var C, d0 := Walks(g, s), dist[..];
    WalksExtend(g, s);
    bins := ProcessFrontier(g, C, s, delta, dist, bins0, curr, frontier0);
    ghost var bins1, d1 := bins, dist[..];
    bins := DrainBin(g, C, s, delta, dist, bins, curr);
    assert Total(dist[..]) < Total(d0) || (dist[..] == d0 && bins == bins0);
    next := NextBin(bins, curr);
    frontier := [];
    if next == K_MAX_BIN {
      AllBinsEmptyExact(g, s, dist[..], bins, delta, curr);
    } else {
      EmptyBinStep(g, C, s, dist[..], bins, delta, curr, next);
      frontier := bins[next];
      bins := bins[next := []];
    }
  }

  /** DeltaStep: terminates with exact shortest distances for every bin width. */
  method DeltaStep(g: WGraph, s: nat, delta: nat) returns (result: seq<nat>)
    requires g.Valid() && s < g.N() && delta > 0
    ensures Exact(g, s, result)
  {
    var dist := new nat[g.N()](_ => DIST_INF);
    dist[s] := 0;
    var bins: Bins := [];
    var frontier := [s];
    var curr: nat := 0;
    WalksExtend(g, s);
    StartSound(g, Walks(g, s), s, dist[..]);
    StartPhase(g, s, dist[..], delta);
    while curr != K_MAX_BIN
      invariant dist.Length == g.N()
      invariant curr == K_MAX_BIN ==> Exact(g, s, dist[..])
      invariant curr != K_MAX_BIN ==> Phase(g, Walks(g, s), s, dist[..], bins, delta, curr, frontier)
      invariant curr != K_MAX_BIN && curr < |bins| ==> bins[curr] == []
      decreases Total(dist[..]), Ahead(|bins|, curr)
    {
      bins, curr, frontier := ProcessBin(g, s, delta, dist, bins, curr, frontier);
    }
    result := dist[..];
  }

  lemma StartPhase(g: WGraph, s: nat, dist: seq<nat>, delta: nat)
    requires delta > 0 && g.Valid() && |dist| == g.N() && s < g.N() && dist[s] == 0 && Sound(Walks(g, s), s, dist)
    requires forall v | 0 <= v < g.N() && v != s :: Relaxed(g, dist, v)
    ensures Phase(g, Walks(g, s), s, dist, [], delta, 0, [s])
  {
    BinBound(0, delta);
  }
}
