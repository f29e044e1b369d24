/** BFSVerifier: recomputes depths with a plain queue and accepts exactly the shortest-path trees. */
module BfsVerifier {
  import opened Graphs
  import opened Bfs
  import opened BfsKernel

  /** Every visited vertex is queued and its depth is the length of some walk. */
  ghost predicate Sound(g: Graph, s: nat, depth: seq<int>, toVisit: seq<nat>) {
    && |depth| == g.N() && s < g.N() && depth[s] == 0
    && (forall v | 0 <= v < g.N() :: depth[v] == -1 || (depth[v] >= 0 && v in toVisit && Reach(g, s, v, depth[v])))
    && (forall i | 0 <= i < |toVisit| :: toVisit[i] < g.N() && depth[toVisit[i]] >= 0)
    && |toVisit| + Unvisited(depth) == g.N()
  }

  /** Depths grow along the queue, by at most one from entry i on. */
  ghost predicate Ordered(depth: seq<int>, toVisit: seq<nat>, i: nat)
    requires forall j | 0 <= j < |toVisit| :: toVisit[j] < |depth|
  {
    && (forall a, b | 0 <= a <= b < |toVisit| :: depth[toVisit[a]] <= depth[toVisit[b]])
    && (i < |toVisit| ==> forall b | 0 <= b < |toVisit| :: depth[toVisit[b]] <= depth[toVisit[i]] + 1)
  }

  ghost predicate Closed(g: Graph, depth: seq<int>, u: nat)
    requires u < g.N() && |depth| == g.N()
  {
    forall w | w in g.out[u] :: w < g.N() && 0 <= depth[w] <= depth[u] + 1
  }

  ghost predicate Exact(g: Graph, s: nat, depth: seq<int>) {
    && |depth| == g.N()
    && forall v | 0 <= v < g.N() ::
         if depth[v] == -1 then forall k: nat :: !Reach(g, s, v, k) else depth[v] >= 0 && IsDist(g, s, v, depth[v])
  }

  lemma {:induction false} ClosedBounds(g: Graph, s: nat, depth: seq<int>, v: nat, k: nat)
    requires g.Valid() && |depth| == g.N() && s < g.N() && depth[s] == 0
    requires forall u | 0 <= u < g.N() && depth[u] >= 0 :: Closed(g, depth, u)
    requires v < g.N() && Reach(g, s, v, k)
    ensures 0 <= depth[v] <= k
    decreases k
  {
    if k > 0 {
      var u :| 0 <= u < g.N() && Reach(g, s, u, k - 1) && v in g.out[u];
      ClosedBounds(g, s, depth, u, k - 1);
      assert Closed(g, depth, u);
    }
  }

  lemma ClosedIsExact(g: Graph, s: nat, depth: seq<int>, toVisit: seq<nat>)
    requires g.Valid() && Sound(g, s, depth, toVisit)
    requires forall i | 0 <= i < |toVisit| :: Closed(g, depth, toVisit[i])
    ensures Exact(g, s, depth)
  {
    forall v: nat, k: nat | v < g.N() && Reach(g, s, v, k) ensures 0 <= depth[v] <= k {
      ClosedBounds(g, s, depth, v, k);
    }
  }

  lemma DiscoverSound(g: Graph, s: nat, depth: seq<int>, toVisit: seq<nat>, u: nat, v: nat, depth': seq<int>)
    requires Sound(g, s, depth, toVisit) && u < g.N() && depth[u] >= 0
    requires v < g.N() && v in g.out[u] && depth[v] == -1 && depth' == depth[v := depth[u] + 1]
    ensures Sound(g, s, depth', toVisit + [v])
  {
    VisitOne(depth, v, depth[u] + 1);
    assert Reach(g, s, v, depth[u] + 1);
  }

  lemma DiscoverOrdered(depth: seq<int>, toVisit: seq<nat>, i: nat, v: nat, depth': seq<int>)
    requires forall j | 0 <= j < |toVisit| :: toVisit[j] < |depth| && depth[toVisit[j]] >= 0
    requires Ordered(depth, toVisit, i) && i < |toVisit| && v < |depth| && depth[v] == -1
    requires depth' == depth[v := depth[toVisit[i]] + 1]
    ensures Ordered(depth', toVisit + [v], i)
  {
    var toVisit' := toVisit + [v];
    forall j | 0 <= j < |toVisit| ensures depth'[toVisit'[j]] == depth[toVisit[j]] {
    }
  }

  /** Visited vertices keep their depths and their places in the queue. */
  ghost predicate Extends(depth: seq<int>, toVisit: seq<nat>, depth': seq<int>, toVisit': seq<nat>) {
    && |depth| == |depth'| && toVisit <= toVisit'
    && forall x | 0 <= x < |depth| && depth[x] >= 0 :: depth'[x] == depth[x]
  }

  lemma DiscoverExtends(depth: seq<int>, toVisit: seq<nat>, v: nat, d: int, depth': seq<int>)
    requires v < |depth| && depth[v] == -1 && depth' == depth[v := d]
    ensures Extends(depth, toVisit, depth', toVisit + [v])
  {
  }

  lemma Discover(g: Graph, s: nat, depth: seq<int>, toVisit: seq<nat>, i: nat, v: nat, depth': seq<int>)
    requires g.Valid() && Sound(g, s, depth, toVisit) && Ordered(depth, toVisit, i) && i < |toVisit|
    requires v < g.N() && v in g.out[toVisit[i]] && depth[v] == -1
    requires depth' == depth[v := depth[toVisit[i]] + 1]
    ensures Sound(g, s, depth', toVisit + [v]) && Ordered(depth', toVisit + [v], i)
    ensures Extends(depth, toVisit, depth', toVisit + [v])
  {
    DiscoverOrdered(depth, toVisit, i, v, depth');
    DiscoverExtends(depth, toVisit, v, depth[toVisit[i]] + 1, depth');
    DiscoverSound(g, s, depth, toVisit, toVisit[i], v, depth');
  }

  /** One edge out of queue entry i. */
  method VisitEdge(g: Graph, ghost s: nat, depth: array<int>, toVisit0: seq<nat>, i: nat, v: nat)
    returns (toVisit: seq<nat>)
    requires g.Valid() && depth.Length == g.N() && i < |toVisit0|
    requires Sound(g, s, depth[..], toVisit0) && Ordered(depth[..], toVisit0, i)
    requires v < g.N() && v in g.out[toVisit0[i]]
    modifies depth
    ensures Sound(g, s, depth[..], toVisit) && Ordered(depth[..], toVisit, i)
    ensures Extends(old(depth[..]), toVisit0, depth[..], toVisit)
    ensures 0 <= depth[v] <= depth[toVisit0[i]] + 1
  {
    toVisit := toVisit0;
    ghost var before := depth[..];
    var u := toVisit[i];
    if depth[v] == -1 {
      depth[v] := depth[u] + 1;
      assert depth[..] == before[v := before[u] + 1];
      Discover(g, s, before, toVisit, i, v, depth[..]);
      toVisit := toVisit + [v];
    } else {
      assert before[v] >= 0 && v in toVisit;
      InQueueBound(before, toVisit, i, v);
    }
  }

  /** The first j out-neighbours of u have depths up to one more than u's. */
  ghost predicate Scanned(g: Graph, depth: seq<int>, u: nat, j: nat)
    requires u < g.N() && |depth| == g.N() && j <= |g.out[u]|
  {
    depth[u] >= 0 && forall k | 0 <= k < j :: g.out[u][k] < g.N() && 0 <= depth[g.out[u][k]] <= depth[u] + 1
  }

  lemma ExtendScan(g: Graph, a: seq<int>, p: seq<nat>, b: seq<int>, q: seq<nat>, c: seq<int>, r: seq<nat>, u: nat,
                   j: nat)
    requires u < g.N() == |a| && j < |g.out[u]| && Extends(a, p, b, q) && Extends(b, q, c, r) && Scanned(g, b, u, j)
    requires g.out[u][j] < g.N() && 0 <= c[g.out[u][j]] <= b[u] + 1
    ensures Extends(a, p, c, r) && Scanned(g, c, u, j + 1)
  {
  }

  /** One vertex of the queue: afterwards all its out-neighbours have small enough depths. */
  method VisitVertex(g: Graph, ghost s: nat, depth: array<int>, toVisit0: seq<nat>, i: nat)
    returns (toVisit: seq<nat>)
    requires g.Valid() && depth.Length == g.N() && i < |toVisit0|
    requires Sound(g, s, depth[..], toVisit0) && Ordered(depth[..], toVisit0, i)
    modifies depth
    ensures Sound(g, s, depth[..], toVisit) && Ordered(depth[..], toVisit, i)
    ensures Extends(old(depth[..]), toVisit0, depth[..], toVisit)
    ensures Closed(g, depth[..], toVisit0[i])
  {
    toVisit := toVisit0;
    ghost var before := depth[..];
    var u := toVisit[i];
    var j := 0;
    while j < |g.out[u]|
      invariant j <= |g.out[u]| && Scanned(g, depth[..], u, j)
      invariant Sound(g, s, depth[..], toVisit) && Ordered(depth[..], toVisit, i)
      invariant Extends(before, toVisit0, depth[..], toVisit)
    {
      ghost var mid, queue := depth[..], toVisit;
      assert g.out[u][j] in g.out[u] && toVisit[i] == u;
      toVisit := VisitEdge(g, s, depth, toVisit, i, g.out[u][j]);
      ExtendScan(g, before, toVisit0, mid, queue, depth[..], toVisit, u, j);
      j := j + 1;
    }
  }

  lemma InQueueBound(depth: seq<int>, toVisit: seq<nat>, i: nat, v: nat)
    requires forall j | 0 <= j < |toVisit| :: toVisit[j] < |depth|
    requires Ordered(depth, toVisit, i) && i < |toVisit| && v in toVisit
    ensures depth[v] <= depth[toVisit[i]] + 1
  {
    var b :| 0 <= b < |toVisit| && toVisit[b] == v;
  }

  lemma NextOrdered(depth: seq<int>, toVisit: seq<nat>, i: nat)
    requires forall j | 0 <= j < |toVisit| :: toVisit[j] < |depth|
    requires Ordered(depth, toVisit, i) && i < |toVisit|
    ensures Ordered(depth, toVisit, i + 1)
  {
  }

  /** The queue's first i entries have all their out-neighbours close by. */
  ghost predicate ClosedUpTo(g: Graph, depth: seq<int>, toVisit: seq<nat>, i: nat) {
    && i <= |toVisit| && |depth| == g.N()
    && forall j | 0 <= j < i :: toVisit[j] < g.N() && depth[toVisit[j]] >= 0 && Closed(g, depth, toVisit[j])
  }

  lemma ClosedUpToExtends(g: Graph, depth: seq<int>, toVisit: seq<nat>, i: nat, depth': seq<int>, toVisit': seq<nat>)
    requires ClosedUpTo(g, depth, toVisit, i) && Extends(depth, toVisit, depth', toVisit')
    requires i < |toVisit| && toVisit[i] < g.N() && depth[toVisit[i]] >= 0 && Closed(g, depth', toVisit[i])
    ensures ClosedUpTo(g, depth', toVisit', i + 1)
  {
    forall j | 0 <= j < i + 1
      ensures toVisit'[j] < g.N() && depth'[toVisit'[j]] >= 0 && Closed(g, depth', toVisit'[j])
    {
      assert toVisit'[j] == toVisit[j];
      if j < i {
        StaysClosed(g, depth, depth', toVisit[j]);
      }
    }
  }

  /** The state of the first loop before queue entry i. */
  ghost predicate Visiting(g: Graph, s: nat, depth: seq<int>, toVisit: seq<nat>, i: nat) {
    Sound(g, s, depth, toVisit) && Ordered(depth, toVisit, i) && ClosedUpTo(g, depth, toVisit, i)
  }

  lemma ClosedExtends(g: Graph, s: nat, depth: seq<int>, toVisit: seq<nat>, i: nat, depth': seq<int>,
                      toVisit': seq<nat>)
    requires Visiting(g, s, depth, toVisit, i) && i < |toVisit|
    requires Extends(depth, toVisit, depth', toVisit') && Closed(g, depth', toVisit[i])
    requires Sound(g, s, depth', toVisit') && Ordered(depth', toVisit', i)
    ensures Visiting(g, s, depth', toVisit', i + 1)
  {
    ClosedUpToExtends(g, depth, toVisit, i, depth', toVisit');
    NextOrdered(depth', toVisit', i);
  }

  lemma StaysClosed(g: Graph, before: seq<int>, after: seq<int>, u: nat)
    requires u < g.N() && |before| == |after| == g.N() && before[u] >= 0 && Closed(g, before, u)
    requires forall x | 0 <= x < g.N() && before[x] >= 0 :: after[x] == before[x]
    ensures Closed(g, after, u)
  {
  }

  lemma {:induction false} AllUnvisited(p: seq<int>, s: nat)
    requires s < |p| && forall v | 0 <= v < |p| :: p[v] == if v == s then 0 else -1
    ensures Unvisited(p) + 1 == |p|
  {
    VisitOne(p[s := -1], s, 0);
    NoneVisited(p[s := -1]);
    assert p[s := -1][s := 0] == p;
  }

  lemma {:induction false} NoneVisited(p: seq<int>)
    requires forall v | 0 <= v < |p| :: p[v] < 0
    ensures Unvisited(p) == |p|
  {
    if p != [] {
      NoneVisited(p[1..]);
    }
  }

  lemma VisitingStarts(g: Graph, s: nat, depth: seq<int>)
    requires g.Valid() && s < g.N() && |depth| == g.N()
    requires forall v | 0 <= v < g.N() :: depth[v] == if v == s then 0 else -1
    ensures Visiting(g, s, depth, [s], 0)
  {
    AllUnvisited(depth, s);
  }

  lemma VisitingEnds(g: Graph, s: nat, depth: seq<int>, toVisit: seq<nat>, i: nat)
    requires g.Valid() && Visiting(g, s, depth, toVisit, i)
    ensures |toVisit| <= |depth| == g.N() && depth[s] == 0 && (i == |toVisit| ==> Exact(g, s, depth))
  {
    if i == |toVisit| {
      ClosedIsExact(g, s, depth, toVisit);
    }
  }

  /** One turn of the first loop. */
  method VisitNext(g: Graph, ghost s: nat, depth: array<int>, toVisit0: seq<nat>, i: nat) returns (toVisit: seq<nat>)
    requires g.Valid() && depth.Length == g.N() && i < |toVisit0| && Visiting(g, s, depth[..], toVisit0, i)
    modifies depth
    ensures i < |toVisit| && Visiting(g, s, depth[..], toVisit, i + 1)
  {
    ghost var before := depth[..];
    toVisit := VisitVertex(g, s, depth, toVisit0, i);
    ClosedExtends(g, s, before, toVisit0, i, depth[..], toVisit);
  }

  /** The first loop of BFSVerifier. */
  method Depths(g: Graph, s: nat) returns (depth: array<int>)
    requires g.Valid() && s < g.N()
    ensures fresh(depth) && depth.Length == g.N() && Exact(g, s, depth[..]) && depth[s] == 0
  {
    depth := new int[g.N()](_ => -1);
    depth[s] := 0;
    var toVisit := [s];
    VisitingStarts(g, s, depth[..]);
    var i := 0;
    while i < |toVisit|
      invariant i <= |toVisit| && depth.Length == g.N() && Visiting(g, s, depth[..], toVisit, i)
      decreases g.N() - i
    {
      VisitingEnds(g, s, depth[..], toVisit, i);
      toVisit := VisitNext(g, s, depth, toVisit, i);
      i := i + 1;
    }
    VisitingEnds(g, s, depth[..], toVisit, i);
  }

  // ---- The second loop ----

  lemma DistUnique(g: Graph, s: nat, v: nat, a: nat, b: nat)
    requires IsDist(g, s, v, a) && IsDist(g, s, v, b)
    ensures a == b
  {
  }

  /** What the test of one vertex decides, from exact depths. */
  ghost predicate Passes(g: Graph, s: nat, depth: seq<int>, parent: seq<int>, u: nat)
    requires |g.inn| == |depth| == |parent| == g.N() && u < g.N()
  {
    if depth[u] != -1 && parent[u] != -1 then
      if u == s then parent[u] == u
      else 0 <= parent[u] < g.N() && parent[u] in g.inn[u] && depth[parent[u]] == depth[u] - 1
    else depth[u] == parent[u]
  }

  lemma PassesIffEntry(g: Graph, s: nat, depth: seq<int>, parent: seq<int>, u: nat)
    requires g.Valid() && Exact(g, s, depth) && |parent| == g.N() && s < g.N() && depth[s] == 0 && u < g.N()
    ensures Passes(g, s, depth, parent, u) <==> TreeEntry(g, s, parent, u)
  {
    var p := parent[u];
    if depth[u] != -1 && p != -1 && u != s && 0 <= p < g.N() {
      assert p in g.inn[u] <==> u in g.out[p];
      if d: nat :| IsDist(g, s, p, d) && IsDist(g, s, u, d + 1) {
        DistUnique(g, s, u, d + 1, depth[u]);
        if depth[p] != -1 {
          DistUnique(g, s, p, d, depth[p]);
        }
      }
      if depth[p] == depth[u] - 1 {
        NonSourceDepth(g, s, depth, u);
        assert IsDist(g, s, p, depth[p]) && IsDist(g, s, u, depth[p] + 1);
      }
    }
  }

  lemma NonSourceDepth(g: Graph, s: nat, depth: seq<int>, u: nat)
    requires Exact(g, s, depth) && u < g.N() && u != s && depth[u] != -1
    ensures depth[u] >= 1
  {
    assert IsDist(g, s, u, depth[u]);
  }

  method CheckVertex(g: Graph, s: nat, depth: array<int>, parent: seq<int>, u: nat) returns (ok: bool)
    requires g.Valid() && depth.Length == |parent| == g.N() && u < g.N()
    ensures ok <==> Passes(g, s, depth[..], parent, u)
  {
    if depth[u] != -1 && parent[u] != -1 {
      if u == s {
        return parent[u] == u;
      }
      var i := 0;
      while i < |g.inn[u]|
        invariant i <= |g.inn[u]| && forall j | 0 <= j < i :: g.inn[u][j] != parent[u]
      {
        var v := g.inn[u][i];
        assert v in g.inn[u];
        if parent[u] == v {
          return depth[v] == depth[u] - 1;
        }
        i := i + 1;
      }
      return false;
    }
    return depth[u] == parent[u];
  }

  /** BFSVerifier accepts a parent array if and only if it is a shortest-path tree. */
  method Verify(g: Graph, s: nat, parent: seq<int>) returns (ok: bool)
    requires g.Valid() && s < g.N() && |parent| == g.N()
    ensures ok <==> ShortestPathTree(g, s, parent)
  {
    var depth := Depths(g, s);
    ghost var exact := depth[..];
    var u := 0;
    while u < g.N()
      invariant depth[..] == exact
      invariant u <= g.N() && forall v | 0 <= v < u :: TreeEntry(g, s, parent, v)
    {
      PassesIffEntry(g, s, exact, parent, u);
      var passes := CheckVertex(g, s, depth, parent, u);
      if !passes {
        return false;
      }
      u := u + 1;
    }
    ok := true;
  }
}
