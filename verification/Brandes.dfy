/** The forward pass of betweenness centrality: distances, and the number of shortest edge sequences. */
module Brandes {
  import Common
  import opened Graphs
  import opened Bfs
  import BfsKernel

  // ---- Edge sequences: each element picks one of the current vertex's out-edges ----

  /** The vertex an edge sequence from s leads to, or -1 if it is not one. */
  ghost function Target(g: Graph, s: nat, p: seq<nat>): int
    decreases |p|
  {
    if p == [] then s else
      var u := Target(g, s, p[..|p|-1]);
      if 0 <= u < g.N() && p[|p|-1] < |g.out[u]| then g.out[u][p[|p|-1]] else -1
  }

  /** All edge sequences of length k from s. */
  ghost function Sequences(g: Graph, s: nat, k: nat): set<seq<nat>> {
    if k == 0 then {[]} else
      set p, i | p in Sequences(g, s, k - 1) && 0 <= Target(g, s, p) < g.N() && 0 <= i < |g.out[Target(g, s, p)]| ::
        p + [i]
  }

  ghost function PathsTo(g: Graph, s: nat, v: nat, k: nat): set<seq<nat>> {
    set p | p in Sequences(g, s, k) && Target(g, s, p) == v
  }

  lemma TargetOfExtension(g: Graph, s: nat, p: seq<nat>, i: nat)
    ensures Target(g, s, p + [i])
      == var u := Target(g, s, p); if 0 <= u < g.N() && i < |g.out[u]| then g.out[u][i] else -1
  {
    assert (p + [i])[..|p|] == p;
  }

  lemma TargetInGraph(g: Graph, s: nat, p: seq<nat>)
    requires g.Valid() && s < g.N()
    ensures -1 <= Target(g, s, p) < g.N()
  {
    if p != [] {
      var u := Target(g, s, p[..|p|-1]);
      if 0 <= u < g.N() && p[|p|-1] < |g.out[u]| {
        assert g.out[u][p[|p|-1]] in g.out[u];
      }
    }
  }

  lemma SequencesStep(g: Graph, s: nat, q: seq<nat>, i: nat, k: nat)
    requires k > 0
    ensures q + [i] in Sequences(g, s, k) <==>
      q in Sequences(g, s, k - 1) && 0 <= Target(g, s, q) < g.N() && i < |g.out[Target(g, s, q)]|
  {
    forall r, j | r in Sequences(g, s, k - 1) && r + [j] == q + [i] ensures r == q && j == i {
      assert (r + [j])[..|r|] == r && (r + [j])[|r|] == j;
    }
  }

  lemma NoEmptySequence(g: Graph, s: nat, k: nat)
    requires k > 0
    ensures [] !in Sequences(g, s, k)
  {
  }

  /** The sequences are exactly those of their length that can be followed. */
  lemma {:induction false} SequencesExactly(g: Graph, s: nat, p: seq<nat>, k: nat)
    requires g.Valid() && s < g.N()
    ensures p in Sequences(g, s, k) <==> |p| == k && Target(g, s, p) >= 0
    decreases k
  {
    if k > 0 {
      if p == [] {
        NoEmptySequence(g, s, k);
      } else {
        var q, i := p[..|p|-1], p[|p|-1];
        assert p == q + [i];
        SequencesExactly(g, s, q, k - 1);
        TargetInGraph(g, s, q);
        SequencesStep(g, s, q, i, k);
      }
    }
  }

  lemma {:induction false} ReachHasPath(g: Graph, s: nat, v: nat, k: nat)
    requires g.Valid() && s < g.N() && Reach(g, s, v, k)
    ensures PathsTo(g, s, v, k) != {}
    decreases k
  {
    if k == 0 {
      assert [] in PathsTo(g, s, v, 0);
    } else {
      var u :| 0 <= u < g.N() && Reach(g, s, u, k - 1) && v in g.out[u];
      ReachHasPath(g, s, u, k - 1);
      var p :| p in PathsTo(g, s, u, k - 1);
      var i :| 0 <= i < |g.out[u]| && g.out[u][i] == v;
      TargetOfExtension(g, s, p, i);
      assert p + [i] in PathsTo(g, s, v, k);
    }
  }

  /** The last step of a sequence that reaches v. */
  lemma LastStep(g: Graph, s: nat, p: seq<nat>, v: nat, k: nat) returns (u: nat)
    requires g.Valid() && s < g.N() && k > 0 && p in PathsTo(g, s, v, k)
    ensures |p| == k && u < g.N() && p[..k-1] in PathsTo(g, s, u, k - 1) && v in g.out[u]
  {
    SequencesExactly(g, s, p, k);
    SequencesExactly(g, s, p[..k-1], k - 1);
    TargetInGraph(g, s, p[..k-1]);
    u := Target(g, s, p[..k-1]);
  }

  lemma ReachNext(g: Graph, s: nat, u: nat, v: nat, k: nat)
    requires k > 0 && u < g.N() && Reach(g, s, u, k - 1) && v in g.out[u]
    ensures Reach(g, s, v, k)
  {
  }

  lemma {:induction false} PathReaches(g: Graph, s: nat, p: seq<nat>, v: nat, k: nat)
    requires g.Valid() && s < g.N() && p in PathsTo(g, s, v, k)
    ensures v < g.N() && Reach(g, s, v, k)
    decreases k
  {
    if k == 0 {
      assert v == s;
    } else {
      var u := LastStep(g, s, p, v, k);
      PathReaches(g, s, p[..k-1], u, k - 1);
      ReachNext(g, s, u, v, k);
    }
  }

  // ---- One level: which sequences have been counted ----

  /** The sequences of length d + 1 to v whose last edge leaves a vertex in done, or is one of u's first i edges. */
  ghost function Part(g: Graph, s: nat, v: nat, d: nat, done: set<nat>, u: nat, i: nat): set<seq<nat>> {
    set p | p in PathsTo(g, s, v, d + 1) && Counted(g, s, p, d, done, u, i)
  }

  ghost predicate Counted(g: Graph, s: nat, p: seq<nat>, d: nat, done: set<nat>, u: nat, i: nat) {
    |p| == d + 1 && (Target(g, s, p[..d]) in done || (Target(g, s, p[..d]) == u && p[d] < i))
  }

  ghost function Extensions(paths: set<seq<nat>>, i: nat): set<seq<nat>> {
    set p | p in paths :: p + [i]
  }

  lemma {:induction false} ExtensionCount(paths: set<seq<nat>>, i: nat)
    ensures |Extensions(paths, i)| == |paths|
    decreases paths
  {
    if paths == {} {
      assert Extensions(paths, i) == {};
    } else {
      var p :| p in paths;
      ExtensionCount(paths - {p}, i);
      assert Extensions(paths, i) == Extensions(paths - {p}, i) + {p + [i]};
      forall q | q in paths - {p} ensures q + [i] != p + [i] {
        SameFront(q, p, i);
      }
    }
  }

  lemma SameFront(q: seq<nat>, p: seq<nat>, i: nat)
    ensures q + [i] == p + [i] ==> q == p
  {
    assert q == (q + [i])[..|q|] && p == (p + [i])[..|p|];
  }

  lemma NewlyCounted(g: Graph, s: nat, v: nat, d: nat, done: set<nat>, u: nat, i: nat, p: seq<nat>)
    requires g.Valid() && s < g.N() && u < g.N() && i < |g.out[u]| && u !in done
    ensures p in Part(g, s, v, d, done, u, i + 1)
      <==> p in Part(g, s, v, d, done, u, i) || (g.out[u][i] == v && p in Extensions(PathsTo(g, s, u, d), i))
    ensures p in Part(g, s, v, d, done, u, i) ==> p !in Extensions(PathsTo(g, s, u, d), i)
  {
    if p in Extensions(PathsTo(g, s, u, d), i) {
      var q :| q in PathsTo(g, s, u, d) && p == q + [i];
      SequencesExactly(g, s, q, d);
      TargetOfExtension(g, s, q, i);
      SequencesExactly(g, s, p, d + 1);
      assert p[..d] == q && p[d] == i;
    }
    if p in PathsTo(g, s, v, d + 1) {
      SequencesExactly(g, s, p, d + 1);
      if Target(g, s, p[..d]) == u && p[d] == i {
        SequencesExactly(g, s, p[..d], d);
        assert p == p[..d] + [i] && p[..d] in PathsTo(g, s, u, d);
      }
    }
  }

  /** Following edge i of u adds exactly the paths to u, extended by that edge. */
  lemma PartGrows(g: Graph, s: nat, v: nat, d: nat, done: set<nat>, u: nat, i: nat)
    requires g.Valid() && s < g.N() && u < g.N() && i < |g.out[u]| && u !in done
    ensures g.out[u][i] != v ==> Part(g, s, v, d, done, u, i + 1) == Part(g, s, v, d, done, u, i)
    ensures g.out[u][i] == v ==>
      |Part(g, s, v, d, done, u, i + 1)| == |Part(g, s, v, d, done, u, i)| + |PathsTo(g, s, u, d)|
  {
    var before, after := Part(g, s, v, d, done, u, i), Part(g, s, v, d, done, u, i + 1);
    var more := Extensions(PathsTo(g, s, u, d), i);
    forall p ensures (p in after <==> p in before || (g.out[u][i] == v && p in more)) && (p in before ==> p !in more) {
      NewlyCounted(g, s, v, d, done, u, i, p);
    }
    if g.out[u][i] == v {
      assert after == before + more && before !! more;
      ExtensionCount(PathsTo(g, s, u, d), i);
    }
  }

  lemma NextSource(g: Graph, s: nat, v: nat, d: nat, done: set<nat>, u: nat, w: nat)
    requires g.Valid() && s < g.N() && u < g.N()
    ensures Part(g, s, v, d, done, u, |g.out[u]|) == Part(g, s, v, d, done + {u}, w, 0)
  {
    forall p | p in PathsTo(g, s, v, d + 1)
      ensures Counted(g, s, p, d, done, u, |g.out[u]|) <==> Counted(g, s, p, d, done + {u}, w, 0)
    {
      SequencesExactly(g, s, p, d + 1);
      assert p == p[..d] + [p[d]];
      TargetOfExtension(g, s, p[..d], p[d]);
    }
  }

  /** With every vertex of level d done, all sequences to an unlabelled vertex are counted. */
  lemma PartComplete(g: Graph, s: nat, level: seq<int>, v: nat, d: nat, done: set<nat>, w: nat)
    requires g.Valid() && s < g.N() && Levels(g, s, level, d) && v < g.N() && level[v] < 0
    requires forall u | 0 <= u < g.N() && level[u] == d :: u in done
    ensures Part(g, s, v, d, done, w, 0) == PathsTo(g, s, v, d + 1)
  {
    forall p | p in PathsTo(g, s, v, d + 1) ensures Counted(g, s, p, d, done, w, 0) {
      SequencesExactly(g, s, p, d + 1);
      var u := Target(g, s, p[..d]);
      SequencesExactly(g, s, p[..d], d);
      assert p[..d] in PathsTo(g, s, u, d);
      PathReaches(g, s, p[..d], u, d);
      LevelOfReach(g, s, level, d, u, v);
    }
  }

  // ---- The state while a level is expanded ----

  ghost predicate VertexState(g: Graph, s: nat, level: int, d: nat, done: set<nat>, u: nat, i: nat,
                              v: nat, depth: int, count: nat) {
    if level >= 0 then depth == level && count == |PathsTo(g, s, v, level)|
    else
      && count == |Part(g, s, v, d, done, u, i)|
      && depth == if Part(g, s, v, d, done, u, i) == {} then -1 else d + 1
  }

  ghost predicate Expanding(g: Graph, s: nat, level: seq<int>, d: nat, done: set<nat>, u: nat, i: nat,
                            depth: seq<int>, counts: seq<nat>) {
    && |level| == |depth| == |counts| == g.N()
    && forall v | 0 <= v < g.N() :: VertexState(g, s, level[v], d, done, u, i, v, depth[v], counts[v])
  }

  /** The list names the vertices of depth d, each once. */
  ghost predicate Frontier(n: nat, d: nat, depth: seq<int>, list: seq<nat>) {
    && |depth| == n && Common.Distinct(list)
    && forall v: nat :: v in list <==> v < n && depth[v] == d
  }

  lemma Discover(n: nat, d: nat, depth: seq<int>, list: seq<nat>, v: nat)
    requires Frontier(n, d, depth, list) && v < n && depth[v] < 0
    ensures Frontier(n, d, depth[v := d], list + [v])
    ensures BfsKernel.Unvisited(depth[v := d]) + 1 == BfsKernel.Unvisited(depth)
  {
    BfsKernel.VisitOne(depth, v, d);
    forall w: nat ensures w in list + [v] <==> w < n && depth[v := d][w] == d {
      assert w in list + [v] <==> w in list || w == v;
    }
  }

  lemma VisitVertex(g: Graph, s: nat, level: seq<int>, d: nat, done: set<nat>, u: nat, i: nat,
                    v: nat, depth: int, count: nat)
    requires g.Valid() && s < g.N() && Levels(g, s, level, d) && u < g.N() && level[u] == d && u !in done
    requires i < |g.out[u]| && v < g.N() && VertexState(g, s, level[v], d, done, u, i, v, depth, count)
    ensures var hit := g.out[u][i] == v && (depth == -1 || depth == d + 1);
      VertexState(g, s, level[v], d, done, u, i + 1, v, if hit then d + 1 else depth,
                  if hit then count + |PathsTo(g, s, u, d)| else count)
  {
    if level[v] < 0 {
      PartGrows(g, s, v, d, done, u, i);
      if g.out[u][i] == v {
        ReachHasPath(g, s, u, d);
      }
    }
  }

  /** An edge to v labels it if it has no depth yet, and counts if v is on the next level. */
  ghost predicate Visited(depth: seq<int>, counts: seq<nat>, depth': seq<int>, counts': seq<nat>,
                          v: nat, d: nat, paths: nat) {
    && v < |depth| == |counts|
    && (var hit := depth[v] == -1 || depth[v] == d + 1;
        && depth' == (if hit then depth[v := d + 1] else depth)
        && counts' == (if hit then counts[v := counts[v] + paths] else counts))
  }

  lemma NeighbourDepth(g: Graph, s: nat, level: seq<int>, d: nat, done: set<nat>, u: nat, i: nat,
                       depth: seq<int>, counts: seq<nat>)
    requires g.Valid() && u < g.N() && i < |g.out[u]| && Expanding(g, s, level, d, done, u, i, depth, counts)
    ensures g.out[u][i] < g.N() && depth[g.out[u][i]] >= -1
  {
    var v := g.out[u][i];
    assert v in g.out[u];
    assert VertexState(g, s, level[v], d, done, u, i, v, depth[v], counts[v]);
  }

  lemma VisitEdge(g: Graph, s: nat, level: seq<int>, d: nat, done: set<nat>, u: nat, i: nat,
                  depth: seq<int>, counts: seq<nat>, depth': seq<int>, counts': seq<nat>)
    requires g.Valid() && s < g.N() && Levels(g, s, level, d) && u < g.N() && level[u] == d && u !in done
    requires i < |g.out[u]| && Expanding(g, s, level, d, done, u, i, depth, counts)
    requires Visited(depth, counts, depth', counts', g.out[u][i], d, |PathsTo(g, s, u, d)|)
    ensures Expanding(g, s, level, d, done, u, i + 1, depth', counts')
  {
    forall v | 0 <= v < g.N() ensures VertexState(g, s, level[v], d, done, u, i + 1, v, depth'[v], counts'[v]) {
      assert VertexState(g, s, level[v], d, done, u, i, v, depth[v], counts[v]);
      VisitVertex(g, s, level, d, done, u, i, v, depth[v], counts[v]);
    }
  }

  lemma ExpandNext(g: Graph, s: nat, level: seq<int>, d: nat, done: set<nat>, u: nat, w: nat,
                   depth: seq<int>, counts: seq<nat>)
    requires g.Valid() && s < g.N() && u < g.N() && Expanding(g, s, level, d, done, u, |g.out[u]|, depth, counts)
    ensures Expanding(g, s, level, d, done + {u}, w, 0, depth, counts)
  {
    forall v | 0 <= v < g.N() ensures VertexState(g, s, level[v], d, done + {u}, w, 0, v, depth[v], counts[v]) {
      assert VertexState(g, s, level[v], d, done, u, |g.out[u]|, v, depth[v], counts[v]);
      NextSource(g, s, v, d, done, u, w);
    }
  }

  // ---- Between levels ----

  ghost predicate CountOk(g: Graph, s: nat, v: nat, depth: int, count: nat) {
    count == if depth < 0 then 0 else |PathsTo(g, s, v, depth)|
  }

  /** Distances are known up to d, and every labelled vertex has its final count. */
  ghost predicate Settled(g: Graph, s: nat, d: nat, depth: seq<int>, counts: seq<nat>) {
    && Levels(g, s, depth, d) && |counts| == g.N()
    && forall v | 0 <= v < g.N() :: CountOk(g, s, v, depth[v], counts[v])
  }

  lemma BeginLevel(g: Graph, s: nat, d: nat, depth: seq<int>, counts: seq<nat>, u: nat)
    requires g.Valid() && s < g.N() && Settled(g, s, d, depth, counts)
    ensures Expanding(g, s, depth, d, {}, u, 0, depth, counts)
  {
    forall v | 0 <= v < g.N() ensures VertexState(g, s, depth[v], d, {}, u, 0, v, depth[v], counts[v]) {
      assert CountOk(g, s, v, depth[v], counts[v]);
      assert Part(g, s, v, d, {}, u, 0) == {};
    }
  }

  lemma EndVertex(g: Graph, s: nat, level: seq<int>, d: nat, done: set<nat>, w: nat, v: nat, depth: int, count: nat)
    requires g.Valid() && s < g.N() && Levels(g, s, level, d) && v < g.N()
    requires forall u | 0 <= u < g.N() && level[u] == d :: u in done
    requires VertexState(g, s, level[v], d, done, w, 0, v, depth, count)
    ensures depth == NextLevels(g, level, d)[v] && CountOk(g, s, v, depth, count)
  {
    if level[v] < 0 {
      PartComplete(g, s, level, v, d, done, w);
      if Exposed(g, level, d, v) {
        ExposedDist(g, s, level, d, v);
        ReachHasPath(g, s, v, d + 1);
      } else {
        UnexposedHasNoPath(g, s, level, d, v);
      }
    }
  }

  lemma UnexposedHasNoPath(g: Graph, s: nat, level: seq<int>, d: nat, v: nat)
    requires g.Valid() && s < g.N() && Levels(g, s, level, d) && v < g.N() && level[v] < 0 && !Exposed(g, level, d, v)
    ensures PathsTo(g, s, v, d + 1) == {}
  {
    if PathsTo(g, s, v, d + 1) != {} {
      var p :| p in PathsTo(g, s, v, d + 1);
      PathReaches(g, s, p, v, d + 1);
      ReachExposes(g, s, level, d, v);
    }
  }

  /** After a level is expanded, distances and counts of the next level are final. */
  lemma EndLevel(g: Graph, s: nat, level: seq<int>, d: nat, done: set<nat>, w: nat, depth: seq<int>, counts: seq<nat>)
    requires g.Valid() && s < g.N() && Levels(g, s, level, d) && Expanding(g, s, level, d, done, w, 0, depth, counts)
    requires forall u | 0 <= u < g.N() && level[u] == d :: u in done
    ensures Settled(g, s, d + 1, depth, counts) && depth == NextLevels(g, level, d)
  {
    forall v | 0 <= v < g.N() ensures depth[v] == NextLevels(g, level, d)[v] && CountOk(g, s, v, depth[v], counts[v]) {
      assert VertexState(g, s, level[v], d, done, w, 0, v, depth[v], counts[v]);
      EndVertex(g, s, level, d, done, w, v, depth[v], counts[v]);
    }
    assert depth == NextLevels(g, level, d);
    LevelsAdvance(g, s, level, d);
  }

  // ---- The pass ----

  /** The edges of one frontier vertex; its own count is final and read once. */
  method ExpandVertex(g: Graph, s: nat, d: nat, u: nat, depth: array<int>, counts: array<nat>, next0: seq<nat>,
                      ghost level: seq<int>, ghost done: set<nat>)
    returns (next: seq<nat>)
    requires g.Valid() && s < g.N() && Levels(g, s, level, d) && u < g.N() && level[u] == d && u !in done
    requires Expanding(g, s, level, d, done, u, 0, depth[..], counts[..]) && Frontier(g.N(), d + 1, depth[..], next0)
    modifies depth, counts
    ensures Expanding(g, s, level, d, done, u, |g.out[u]|, depth[..], counts[..])
    ensures Frontier(g.N(), d + 1, depth[..], next)
    ensures BfsKernel.Unvisited(depth[..]) + |next| == old(BfsKernel.Unvisited(depth[..])) + |next0|
  {
    next := next0;
    assert VertexState(g, s, level[u], d, done, u, 0, u, depth[..][u], counts[..][u]);
    var sourcePaths := counts[u];
    var i := 0;
    while i < |g.out[u]|
      invariant i <= |g.out[u]| && sourcePaths == |PathsTo(g, s, u, d)|
      invariant Expanding(g, s, level, d, done, u, i, depth[..], counts[..])
      invariant Frontier(g.N(), d + 1, depth[..], next)
      invariant BfsKernel.Unvisited(depth[..]) + |next| == old(BfsKernel.Unvisited(depth[..])) + |next0|
    {
      next := VisitNeighbour(g, s, d, u, i, sourcePaths, depth, counts, next, level, done);
      i := i + 1;
    }
  }

  method VisitNeighbour(g: Graph, s: nat, d: nat, u: nat, i: nat, sourcePaths: nat, depth: array<int>,
                        counts: array<nat>, next0: seq<nat>, ghost level: seq<int>, ghost done: set<nat>)
    returns (next: seq<nat>)
    requires g.Valid() && s < g.N() && Levels(g, s, level, d) && u < g.N() && level[u] == d && u !in done
    requires i < |g.out[u]| && sourcePaths == |PathsTo(g, s, u, d)|
    requires Expanding(g, s, level, d, done, u, i, depth[..], counts[..]) && Frontier(g.N(), d + 1, depth[..], next0)
    modifies depth, counts
    ensures Expanding(g, s, level, d, done, u, i + 1, depth[..], counts[..])
    ensures Frontier(g.N(), d + 1, depth[..], next)
    ensures BfsKernel.Unvisited(depth[..]) + |next| == old(BfsKernel.Unvisited(depth[..])) + |next0|
  {
    var v := g.out[u][i];
    ghost var was, had := depth[..], counts[..];
    NeighbourDepth(g, s, level, d, done, u, i, was, had);
    next := Visit(v, d, sourcePaths, depth, counts, next0, g.N());
    VisitEdge(g, s, level, d, done, u, i, was, had, depth[..], counts[..]);
  }

  method Visit(v: nat, d: nat, sourcePaths: nat, depth: array<int>, counts: array<nat>, next0: seq<nat>, ghost n: nat)
    returns (next: seq<nat>)
    requires v < depth.Length == counts.Length == n && Frontier(n, d + 1, depth[..], next0)
    requires depth[v] >= -1
    modifies depth, counts
    ensures Visited(old(depth[..]), old(counts[..]), depth[..], counts[..], v, d, sourcePaths)
    ensures Frontier(n, d + 1, depth[..], next)
    ensures BfsKernel.Unvisited(depth[..]) + |next| == old(BfsKernel.Unvisited(depth[..])) + |next0|
  {
    next := next0;
    ghost var was, had := depth[..], counts[..];
    var depthV := depth[v];
    if depthV == -1 {
      Discover(n, d + 1, was, next0, v);
      depth[v] := d + 1;
      assert depth[..] == was[v := d + 1];
      depthV := d + 1;
      next := next + [v];
    }
    if depthV == d + 1 {
      counts[v] := counts[v] + sourcePaths;
      assert counts[..] == had[v := had[v] + sourcePaths];
    }
    assert was[v] == d + 1 ==> was[v := d + 1] == was;
  }

  /** One level: afterwards every count of the next level is final. */
  method ExpandLevel(g: Graph, s: nat, d: nat, frontier: seq<nat>, depth: array<int>, counts: array<nat>)
    returns (next: seq<nat>)
    requires g.Valid() && s < g.N() && Settled(g, s, d, depth[..], counts[..])
      && Frontier(g.N(), d, depth[..], frontier)
    modifies depth, counts
    ensures Settled(g, s, d + 1, depth[..], counts[..]) && Frontier(g.N(), d + 1, depth[..], next)
    ensures depth[..] == NextLevels(g, old(depth[..]), d)
    ensures BfsKernel.Unvisited(depth[..]) + |next| == old(BfsKernel.Unvisited(depth[..]))
  {
    ghost var level := depth[..];
    ghost var done: set<nat> := {};
    next := [];
    var x := 0;
    BeginLevel(g, s, d, level, counts[..], if frontier == [] then 0 else frontier[0]);
    while x < |frontier|
      invariant x <= |frontier| && (forall v :: v in done <==> v in frontier[..x])
      invariant Expanding(g, s, level, d, done, if x < |frontier| then frontier[x] else 0, 0, depth[..], counts[..])
      invariant Frontier(g.N(), d + 1, depth[..], next)
      invariant BfsKernel.Unvisited(depth[..]) + |next| == BfsKernel.Unvisited(level)
    {
      var u := frontier[x];
      assert u in frontier && u !in frontier[..x];
      assert frontier[..x+1] == frontier[..x] + [u];
      next := ExpandVertex(g, s, d, u, depth, counts, next, level, done);
      ExpandNext(g, s, level, d, done, u, if x + 1 < |frontier| then frontier[x+1] else 0, depth[..], counts[..]);
      done := done + {u};
      x := x + 1;
    }
    assert frontier[..x] == frontier;
    EndLevel(g, s, level, d, done, 0, depth[..], counts[..]);
  }

  /** The result for one vertex: its distance and the number of shortest edge sequences to it. */
  ghost predicate Correct(g: Graph, s: nat, v: nat, depth: int, count: nat) {
    if depth == -1 then count == 0 && forall k: nat :: !Reach(g, s, v, k)
    else depth >= 0 && IsDist(g, s, v, depth) && count == |PathsTo(g, s, v, depth)|
  }

  lemma Finished(g: Graph, s: nat, d: nat, depth: seq<int>, counts: seq<nat>, v: nat)
    requires g.Valid() && s < g.N() && Settled(g, s, d, depth, counts) && v < g.N()
    requires forall u | 0 <= u < g.N() :: depth[u] != d
    ensures Correct(g, s, v, depth[v], counts[v])
  {
    assert CountOk(g, s, v, depth[v], counts[v]);
    if depth[v] == -1 {
      forall k: nat ensures !Reach(g, s, v, k) {
        if Reach(g, s, v, k) {
          EmptyLevelEnds(g, s, depth, d, v, k);
        }
      }
    }
  }

  /** The forward pass from one source. */
  method ForwardPass(g: Graph, s: nat, depth: array<int>, counts: array<nat>) returns (levels: seq<seq<nat>>)
    requires g.Valid() && s < g.N() == depth.Length == counts.Length
    modifies depth, counts
    ensures forall v | 0 <= v < g.N() :: Correct(g, s, v, depth[v], counts[v])
    ensures LevelLists(g.N(), depth[..], levels)
  {
    var n := 0;
    while n < g.N()
      invariant n <= g.N() && forall v | 0 <= v < n :: depth[v] == -1 && counts[v] == 0
    {
      depth[n], counts[n] := -1, 0;
      n := n + 1;
    }
    depth[s], counts[s] := 0, 1;
    StartSettled(g, s, depth[..], counts[..]);
    levels := [[s]];
    var current := 0;
    ghost var last := 0;
    while levels[current] != []
      invariant last == current < |levels| == current + 1
      invariant Settled(g, s, current, depth[..], counts[..])
      invariant LevelLists(g.N(), depth[..], levels)
      decreases BfsKernel.Unvisited(depth[..])
    {
      ghost var was := depth[..];
      var next := ExpandLevel(g, s, current, levels[current], depth, counts);
      OlderLists(g, was, current, levels);
      last := current + 1;
      if next == [] {
        break;
      }
      levels := levels + [next];
      current := current + 1;
    }
    forall v | 0 <= v < g.N() ensures Correct(g, s, v, depth[v], counts[v]) {
      Finished(g, s, last, depth[..], counts[..], v);
    }
  }

  ghost predicate LevelLists(n: nat, depth: seq<int>, levels: seq<seq<nat>>) {
    forall k | 0 <= k < |levels| :: Frontier(n, k, depth, levels[k])
  }

  /** Expanding a level leaves the older ones as they were. */
  lemma OlderLists(g: Graph, depth: seq<int>, d: nat, levels: seq<seq<nat>>)
    requires |depth| == g.N() && LevelLists(g.N(), depth, levels) && |levels| == d + 1
    ensures LevelLists(g.N(), NextLevels(g, depth, d), levels)
  {
    forall k | 0 <= k < |levels| ensures Frontier(g.N(), k, NextLevels(g, depth, d), levels[k]) {
      assert Frontier(g.N(), k, depth, levels[k]);
    }
  }

  lemma StartSettled(g: Graph, s: nat, depth: seq<int>, counts: seq<nat>)
    requires g.Valid() && s < g.N() == |depth| == |counts|
    requires forall v | 0 <= v < g.N() ::
      depth[v] == (if v == s then 0 else -1) && counts[v] == (if v == s then 1 else 0)
    ensures Settled(g, s, 0, depth, counts) && Frontier(g.N(), 0, depth, [s])
  {
    LevelsStart(g, s, depth);
    assert PathsTo(g, s, s, 0) == {[]};
    forall v | 0 <= v < g.N() ensures CountOk(g, s, v, depth[v], counts[v]) {
    }
  }
}