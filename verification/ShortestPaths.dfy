/** Shortest-path distances on non-negative weights, and two kernels' common invariants. */
module ShortestPaths {

  datatype Edge = Edge(v: nat, w: nat)

  const DIST_INF: nat := 1073741823
  const INT32_MAX: nat := 2147483647

  datatype WGraph = WGraph(out: seq<seq<Edge>>) {
    function N(): nat { |out| }

    /** Targets are vertices, and adding a weight to a finite distance does not overflow int32. */
    ghost predicate Valid() {
      forall u, j | 0 <= u < N() && 0 <= j < |out[u]| :: out[u][j].v < N() && out[u][j].w <= INT32_MAX - DIST_INF
    }
  }

  /** There is a walk of k edges and total weight c from s to v. */
  ghost predicate Walk(g: WGraph, s: nat, v: nat, c: int, k: nat)
    decreases k
  {
    if k == 0 then v == s && c == 0
    else exists u, j | 0 <= u < g.N() && 0 <= j < |g.out[u]| ::
      g.out[u][j].v == v && Walk(g, s, u, c - g.out[u][j].w, k - 1)
  }

  /** dist[v] is the least weight of a walk to v, cut off at DIST_INF. */
  ghost predicate Exact(g: WGraph, s: nat, dist: seq<nat>) {
    && |dist| == g.N()
    && (forall v | 0 <= v < g.N() :: dist[v] == DIST_INF || exists k :: Walk(g, s, v, dist[v], k))
    && (forall v | 0 <= v < g.N() :: dist[v] <= DIST_INF)
    && forall v, c, k | 0 <= v < g.N() && Walk(g, s, v, c, k) :: dist[v] <= c
  }

  lemma ExactUnique(g: WGraph, s: nat, a: seq<nat>, b: seq<nat>)
    requires Exact(g, s, a) && Exact(g, s, b)
    ensures a == b
  {
    forall v | 0 <= v < g.N() ensures a[v] == b[v] {
      if a[v] != DIST_INF {
        var k :| Walk(g, s, v, a[v], k);
      }
      if b[v] != DIST_INF {
        var k :| Walk(g, s, v, b[v], k);
      }
    }
  }

  // ---- Tentative distances ----

  /** The vertices and weights of all walks from s. */
  ghost function Walks(g: WGraph, s: nat): iset<(nat, int)> {
    iset v: nat, c: int, k: nat | Walk(g, s, v, c, k) :: (v, c)
  }

  /** What proofs need of Walks(g, s): the empty walk, and that walks extend along edges. */
  ghost predicate Extending(g: WGraph, s: nat, C: iset<(nat, int)>) {
    && (s, 0) in C
    && forall u: nat, j: nat, c: int | u < g.N() && j < |g.out[u]| && (u, c) in C ::
         (g.out[u][j].v, c + g.out[u][j].w) in C
  }

  lemma WalksExtend(g: WGraph, s: nat)
    ensures Extending(g, s, Walks(g, s))
  {
    assert Walk(g, s, s, 0, 0);
    forall u: nat, j: nat, c: int | u < g.N() && j < |g.out[u]| && (u, c) in Walks(g, s)
      ensures (g.out[u][j].v, c + g.out[u][j].w) in Walks(g, s)
    {
      var k: nat :| Walk(g, s, u, c, k);
      assert Walk(g, s, g.out[u][j].v, c + g.out[u][j].w, k + 1);
    }
  }

  /** Every tentative distance below DIST_INF is the weight of a walk. */
  ghost predicate Sound(C: iset<(nat, int)>, s: nat, dist: seq<nat>) {
    && s < |dist| && dist[s] == 0
    && forall v | 0 <= v < |dist| :: dist[v] == DIST_INF || (dist[v] < DIST_INF && (v, dist[v] as int) in C)
  }

  /** No out-edge of u can improve a distance. */
  ghost predicate Relaxed(g: WGraph, dist: seq<nat>, u: nat)
    requires u < g.N() && |dist| == g.N()
  {
    RelaxedUpTo(g, dist, u, |g.out[u]|)
  }

  ghost predicate RelaxedUpTo(g: WGraph, dist: seq<nat>, u: nat, n: nat)
    requires u < g.N() && |dist| == g.N() && n <= |g.out[u]|
  {
    forall j | 0 <= j < n :: g.out[u][j].v < g.N() && dist[g.out[u][j].v] <= dist[u] + g.out[u][j].w
  }

  lemma {:induction false} RelaxedBounds(g: WGraph, s: nat, dist: seq<nat>, v: nat, c: int, k: nat)
    requires |dist| == g.N() && s < g.N() && dist[s] == 0 && v < g.N() && Walk(g, s, v, c, k)
    requires forall u | 0 <= u < g.N() :: Relaxed(g, dist, u)
    ensures dist[v] <= c
    decreases k
  {
    if k > 0 {
      var u, j :| 0 <= u < g.N() && 0 <= j < |g.out[u]| &&
        g.out[u][j].v == v && Walk(g, s, u, c - g.out[u][j].w, k - 1);
      RelaxedBounds(g, s, dist, u, c - g.out[u][j].w, k - 1);
      assert Relaxed(g, dist, u);
    }
  }

  /** When no edge can improve anything, the distances are exact. */
  lemma RelaxedIsExact(g: WGraph, s: nat, dist: seq<nat>)
    requires Sound(Walks(g, s), s, dist) && |dist| == g.N()
    requires forall u | 0 <= u < g.N() :: Relaxed(g, dist, u)
    ensures Exact(g, s, dist)
  {
    forall v: nat, c, k: nat | v < g.N() && Walk(g, s, v, c, k) ensures dist[v] <= c {
      RelaxedBounds(g, s, dist, v, c, k);
    }
  }

  lemma RelaxSound(g: WGraph, C: iset<(nat, int)>, s: nat, dist: seq<nat>, u: nat, j: nat)
    requires Extending(g, s, C) && Sound(C, s, dist) && |dist| == g.N()
    requires u < g.N() && j < |g.out[u]| && dist[u] < DIST_INF && g.out[u][j].v < g.N()
    requires dist[u] + g.out[u][j].w < dist[g.out[u][j].v]
    ensures Sound(C, s, dist[g.out[u][j].v := dist[u] + g.out[u][j].w])
  {
    assert (u, dist[u] as int) in C;
    assert (g.out[u][j].v, dist[u] as int + g.out[u][j].w) in C;
  }

  /** Lowering v's distance keeps every other vertex relaxed. */
  lemma LowerKeepsRelaxed(g: WGraph, dist: seq<nat>, v: nat, d: nat, x: nat, n: nat)
    requires |dist| == g.N() && v < g.N() && d <= dist[v] && x < g.N() && x != v && n <= |g.out[x]|
    requires RelaxedUpTo(g, dist, x, n)
    ensures RelaxedUpTo(g, dist[v := d], x, n)
  {
  }

  function TotalUpTo(dist: seq<nat>, n: nat): nat
    requires n <= |dist|
  {
    if n == 0 then 0 else TotalUpTo(dist, n - 1) + dist[n-1]
  }

  function Total(dist: seq<nat>): nat { TotalUpTo(dist, |dist|) }

  lemma {:induction false} TotalUpToUpdate(dist: seq<nat>, v: nat, x: nat, n: nat)
    requires v < |dist| && n <= |dist|
    ensures TotalUpTo(dist[v := x], n) == TotalUpTo(dist, n) + if v < n then x - dist[v] else 0
  {
    if n > 0 {
      TotalUpToUpdate(dist, v, x, n - 1);
    }
  }

  lemma TotalUpdate(dist: seq<nat>, v: nat, x: nat)
    requires v < |dist|
    ensures Total(dist[v := x]) == Total(dist) - dist[v] + x
  {
    TotalUpToUpdate(dist, v, x, |dist|);
  }

  /** Initially only the source has an out-edge that can improve something. */
  lemma StartSound(g: WGraph, C: iset<(nat, int)>, s: nat, dist: seq<nat>)
    requires g.Valid() && Extending(g, s, C) && |dist| == g.N() && s < g.N()
    requires forall v | 0 <= v < g.N() :: dist[v] == if v == s then 0 else DIST_INF
    ensures Sound(C, s, dist)
    ensures forall v | 0 <= v < g.N() && v != s :: Relaxed(g, dist, v)
  {
  }
}
