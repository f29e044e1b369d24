/** Direction-optimizing breadth-first search, its level structure, and its verifier. */
module Bfs {
  import opened Graphs

  // ---- Distances ----

  /** There is a walk of exactly k edges from s to v. */
  ghost predicate Reach(g: Graph, s: nat, v: nat, k: nat)
    decreases k
  {
    if k == 0 then v == s
    else exists u :: 0 <= u < g.N() && Reach(g, s, u, k - 1) && v in g.out[u]
  }

  ghost predicate IsDist(g: Graph, s: nat, v: nat, d: nat) {
    Reach(g, s, v, d) && forall k | 0 <= k < d :: !Reach(g, s, v, k)
  }

  /** parent is a breadth-first tree: -1 off the component, and otherwise one step closer. */
  ghost predicate ShortestPathTree(g: Graph, s: nat, parent: seq<int>) {
    && |parent| == g.N()
    && forall v | 0 <= v < g.N() :: TreeEntry(g, s, parent, v)
  }

  ghost predicate TreeEntry(g: Graph, s: nat, parent: seq<int>, v: nat)
    requires v < |parent| && |parent| == g.N()
  {
    if parent[v] == -1 then forall k: nat :: !Reach(g, s, v, k)
    else if v == s then parent[v] == s
    else
      && 0 <= parent[v] < g.N() && v in g.out[parent[v]]
      && exists d: nat :: IsDist(g, s, parent[v], d) && IsDist(g, s, v, d + 1)
  }

  // ---- Levels: level[v] is the distance of v if it is at most d, else -1 ----

  ghost predicate Levels(g: Graph, s: nat, level: seq<int>, d: nat) {
    && |level| == g.N()
    && (forall v | 0 <= v < g.N() :: -1 <= level[v] <= d)
    && (forall v | 0 <= v < g.N() && level[v] >= 0 :: IsDist(g, s, v, level[v]))
    && (forall v, k | 0 <= v < g.N() && 0 <= k <= d && Reach(g, s, v, k) :: level[v] >= 0)
  }

  /** v has an in-neighbour on level d. */
  ghost predicate Exposed(g: Graph, level: seq<int>, d: nat, v: nat) {
    exists u :: 0 <= u < g.N() && u < |level| && level[u] == d && v in g.out[u]
  }

  ghost function NextLevels(g: Graph, level: seq<int>, d: nat): (l: seq<int>)
    ensures |l| == |level|
    ensures forall v | 0 <= v < |level| ::
      l[v] == if level[v] < 0 && Exposed(g, level, d, v) then d + 1 else level[v]
  {
    seq(|level|, v requires 0 <= v < |level| => if level[v] < 0 && Exposed(g, level, d, v) then d + 1 else level[v])
  }

  lemma LevelsStart(g: Graph, s: nat, level: seq<int>)
    requires s < g.N() && |level| == g.N()
    requires forall v | 0 <= v < g.N() :: level[v] == if v == s then 0 else -1
    ensures Levels(g, s, level, 0)
  {
  }

  lemma ExposedDist(g: Graph, s: nat, level: seq<int>, d: nat, v: nat)
    requires Levels(g, s, level, d) && v < g.N() && level[v] < 0 && Exposed(g, level, d, v)
    ensures IsDist(g, s, v, d + 1)
  {
    var u :| 0 <= u < g.N() && level[u] == d && v in g.out[u];
    assert IsDist(g, s, u, level[u]) && Reach(g, s, v, d + 1);
  }

  lemma ReachExposes(g: Graph, s: nat, level: seq<int>, d: nat, v: nat)
    requires g.Valid() && Levels(g, s, level, d) && v < g.N() && level[v] < 0 && Reach(g, s, v, d + 1)
    ensures Exposed(g, level, d, v)
  {
    var u :| 0 <= u < g.N() && Reach(g, s, u, d) && v in g.out[u];
    LevelOfReach(g, s, level, d, u, v);
  }

  /** Expanding level d labels exactly the vertices at distance d + 1. */
  lemma LevelsAdvance(g: Graph, s: nat, level: seq<int>, d: nat)
    requires g.Valid() && Levels(g, s, level, d)
    ensures Levels(g, s, NextLevels(g, level, d), d + 1)
  {
    var l := NextLevels(g, level, d);
    forall v | 0 <= v < g.N() && l[v] >= 0 ensures IsDist(g, s, v, l[v]) {
      if level[v] < 0 {
        ExposedDist(g, s, level, d, v);
      }
    }
    forall v, k | 0 <= v < g.N() && 0 <= k <= d + 1 && Reach(g, s, v, k) ensures l[v] >= 0 {
      if k == d + 1 && level[v] < 0 {
        ReachExposes(g, s, level, d, v);
      }
    }
  }

  lemma LevelOfReach(g: Graph, s: nat, level: seq<int>, d: nat, u: nat, v: nat)
    requires g.Valid() && Levels(g, s, level, d) && u < g.N() && Reach(g, s, u, d) && v in g.out[u]
    requires v < g.N() && level[v] < 0
    ensures level[u] == d
  {
    if level[u] < d {
      assert Reach(g, s, u, level[u]) && Reach(g, s, v, level[u] + 1);
      assert false;
    }
  }

  /** Once a level is empty, everything reachable has been labelled. */
  lemma {:induction false} EmptyLevelEnds(g: Graph, s: nat, level: seq<int>, d: nat, v: nat, k: nat)
    requires g.Valid() && Levels(g, s, level, d) && v < g.N() && Reach(g, s, v, k)
    requires forall u | 0 <= u < g.N() :: level[u] != d
    ensures level[v] >= 0
    decreases k
  {
    if k > d {
      var u :| 0 <= u < g.N() && Reach(g, s, u, k - 1) && v in g.out[u];
      EmptyLevelEnds(g, s, level, d, u, k - 1);
      assert Reach(g, s, u, level[u]) && Reach(g, s, v, level[u] + 1);
    }
  }

  // ---- The tree under construction ----

  /** Visited vertices are the labelled ones, and each points one level up. */
  ghost predicate TreeInv(g: Graph, s: nat, level: seq<int>, parent: seq<int>) {
    && |parent| == |level| == g.N() && s < g.N() && level[s] == 0 && parent[s] == s
    && (forall v | 0 <= v < g.N() :: parent[v] >= 0 <==> level[v] >= 0)
    && forall v | 0 <= v < g.N() && v != s && parent[v] >= 0 ::
         parent[v] < g.N() && v in g.out[parent[v]] && 0 <= level[parent[v]] == level[v] - 1
  }

  /** One phase step: exactly the exposed unvisited vertices get a parent, on level d. */
  ghost predicate Expanded(g: Graph, level: seq<int>, d: nat, p: seq<int>, q: seq<int>) {
    && |p| == |q| == |level| == g.N()
    && forall v | 0 <= v < g.N() ::
         if level[v] < 0 && Exposed(g, level, d, v)
         then 0 <= q[v] < g.N() && level[q[v]] == d && v in g.out[q[v]]
         else q[v] == p[v]
  }

  lemma TreeAdvance(g: Graph, s: nat, level: seq<int>, d: nat, p: seq<int>, q: seq<int>)
    requires TreeInv(g, s, level, p) && Expanded(g, level, d, p, q)
    ensures TreeInv(g, s, NextLevels(g, level, d), q)
  {
    var l := NextLevels(g, level, d);
    assert q[s] == p[s];
    forall v | 0 <= v < g.N() && v != s && q[v] >= 0
      ensures q[v] < g.N() && v in g.out[q[v]] && 0 <= l[q[v]] == l[v] - 1
    {
      if level[v] >= 0 {
        assert q[v] == p[v] && level[p[v]] >= 0;
      }
    }
  }

  lemma FinishedTree(g: Graph, s: nat, level: seq<int>, d: nat, p: seq<int>, q: seq<int>)
    requires g.Valid() && Levels(g, s, level, d) && TreeInv(g, s, level, p)
    requires forall u | 0 <= u < g.N() :: level[u] != d
    requires |q| == |p| && forall v | 0 <= v < |p| :: q[v] == if p[v] < -1 then -1 else p[v]
    requires forall v | 0 <= v < |p| :: p[v] < 0 || p[v] < g.N()
    ensures ShortestPathTree(g, s, q)
  {
    forall v | 0 <= v < g.N() ensures TreeEntry(g, s, q, v) {
      if q[v] == -1 {
        forall k: nat ensures !Reach(g, s, v, k) {
          if Reach(g, s, v, k) {
            EmptyLevelEnds(g, s, level, d, v, k);
          }
        }
      } else if v != s {
        assert IsDist(g, s, q[v], level[q[v]]) && IsDist(g, s, v, level[q[v]] + 1);
      }
    }
  }

  // ---- The stale bits of the frontier bitmap ----

  /** A set bit names a vertex of the current level, or one with nothing left to discover. */
  ghost predicate FrontOk(g: Graph, level: seq<int>, d: nat, front: seq<bool>) {
    && |front| == |level| == g.N()
    && forall v | 0 <= v < g.N() && front[v] :: BitOk(g, level, d, v)
  }

  ghost predicate BitOk(g: Graph, level: seq<int>, d: nat, v: nat)
    requires v < g.N() && |level| == g.N()
  {
    level[v] == d || forall w | w in g.out[v] :: w < g.N() && level[w] >= 0
  }

  lemma FrontAdvance(g: Graph, level: seq<int>, d: nat, front: seq<bool>)
    requires g.Valid() && FrontOk(g, level, d, front)
    ensures FrontOk(g, NextLevels(g, level, d), d + 1, front)
  {
    var l := NextLevels(g, level, d);
    forall v | 0 <= v < g.N() && front[v] ensures BitOk(g, l, d + 1, v) {
      forall w | w in g.out[v] ensures w < g.N() && l[w] >= 0 {
        if level[v] == d {
          assert Exposed(g, level, d, w);
        }
      }
    }
  }
}
