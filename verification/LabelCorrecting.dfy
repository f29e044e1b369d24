/** The label-correcting SSSP kernel: a FIFO queue of vertices whose out-edges may improve something. */
module LabelCorrecting {
  import Common
  import opened ShortestPaths

  /** The flags say who is queued (each once), and queued vertices have finite distances. */
  ghost predicate QueueOk(dist: seq<nat>, queue: seq<nat>, inQueue: seq<bool>) {
    && |inQueue| == |dist|
    && (forall i | 0 <= i < |queue| :: queue[i] < |dist| && dist[queue[i]] < DIST_INF)
    && (forall v | 0 <= v < |dist| :: inQueue[v] <==> v in queue)
    && Common.Distinct(queue)
  }

  /** Every vertex outside the queue, other than u, has all its out-edges relaxed. */
  ghost predicate OthersRelaxed(g: WGraph, dist: seq<nat>, inQueue: seq<bool>, u: nat) {
    && |dist| == |inQueue| == g.N()
    && forall x | 0 <= x < g.N() && x != u && !inQueue[x] :: Relaxed(g, dist, x)
  }

  lemma EnqueueOk(dist: seq<nat>, queue: seq<nat>, inQueue: seq<bool>, v: nat, d: nat)
    requires QueueOk(dist, queue, inQueue) && v < |dist| && d < DIST_INF
    ensures QueueOk(dist[v := d], if inQueue[v] then queue else queue + [v], inQueue[v := true])
  {
  }

  lemma LowerKeepsOthers(g: WGraph, dist: seq<nat>, inQueue: seq<bool>, u: nat, v: nat, d: nat)
    requires OthersRelaxed(g, dist, inQueue, u) && v < g.N() && d <= dist[v]
    ensures OthersRelaxed(g, dist[v := d], inQueue[v := true], u)
  {
    forall x | 0 <= x < g.N() && x != u && x != v && !inQueue[x] ensures Relaxed(g, dist[v := d], x) {
      LowerKeepsRelaxed(g, dist, v, d, x, |g.out[x]|);
    }
  }

  /** The state while `node` is processed: its first j out-edges are relaxed. */
  ghost predicate Processing(g: WGraph, C: iset<(nat, int)>, s: nat, dist: seq<nat>, queue: seq<nat>,
                             inQueue: seq<bool>, node: nat, j: nat) {
    && Sound(C, s, dist) && QueueOk(dist, queue, inQueue) && OthersRelaxed(g, dist, inQueue, node)
    && node < g.N() && j <= |g.out[node]| && dist[node] < DIST_INF && RelaxedUpTo(g, dist, node, j)
  }

  /** Lowering the target of edge j leaves the edges already relaxed relaxed, and relaxes edge j. */
  lemma LowerTarget(g: WGraph, dist: seq<nat>, u: nat, j: nat, v: nat, d: nat)
    requires g.Valid() && |dist| == g.N() && u < g.N() && j < |g.out[u]| && RelaxedUpTo(g, dist, u, j)
    requires v == g.out[u][j].v && v < g.N() && d == dist[u] + g.out[u][j].w < dist[v]
    ensures v != u && RelaxedUpTo(g, dist[v := d], u, j + 1)
  {
    LowerKeepsRelaxed(g, dist, v, d, u, j);
  }

  /** A successful relaxation of edge j, lowering its target v to d. */
  lemma ImproveStep(g: WGraph, C: iset<(nat, int)>, s: nat, dist: seq<nat>, queue: seq<nat>, inQueue: seq<bool>,
                    u: nat, j: nat, v: nat, d: nat)
    requires g.Valid() && Extending(g, s, C) && Processing(g, C, s, dist, queue, inQueue, u, j) && j < |g.out[u]|
    requires v == g.out[u][j].v && v < g.N() && d == dist[u] + g.out[u][j].w < dist[v] <= DIST_INF
    ensures Processing(g, C, s, dist[v := d], if inQueue[v] then queue else queue + [v], inQueue[v := true], u, j + 1)
  {
    RelaxSound(g, C, s, dist, u, j);
    EnqueueOk(dist, queue, inQueue, v, d);
    LowerKeepsOthers(g, dist, inQueue, u, v, d);
    LowerTarget(g, dist, u, j, v, d);
  }

  lemma KeepStep(g: WGraph, C: iset<(nat, int)>, s: nat, dist: seq<nat>, queue: seq<nat>, inQueue: seq<bool>,
                 u: nat, j: nat)
    requires g.Valid() && Processing(g, C, s, dist, queue, inQueue, u, j) && j < |g.out[u]|
    requires dist[u] + g.out[u][j].w >= dist[g.out[u][j].v]
    ensures Processing(g, C, s, dist, queue, inQueue, u, j + 1)
  {
  }

  /** One edge of relax_edges. */
  method RelaxOne(g: WGraph, ghost C: iset<(nat, int)>, ghost s: nat, node: nat, sourceDist: nat, e: Edge,
                  dist: array<nat>, inQueue: array<bool>, frontier0: seq<nat>, ghost j: nat)
    returns (frontier: seq<nat>, ghost improved: bool)
    requires g.Valid() && Extending(g, s, C) && dist.Length == inQueue.Length == g.N()
    requires Processing(g, C, s, dist[..], frontier0, inQueue[..], node, j)
    requires j < |g.out[node]| && e == g.out[node][j] && sourceDist == dist[node]
    modifies dist, inQueue
    ensures Processing(g, C, s, dist[..], frontier, inQueue[..], node, j + 1) && dist[node] == sourceDist
    ensures if improved then Total(dist[..]) < Total(old(dist[..]))
            else dist[..] == old(dist[..]) && frontier == frontier0
  {
    frontier := frontier0;
    improved := false;
    var candidate: nat := sourceDist + e.w;
    assert candidate <= INT32_MAX;
    if candidate < dist[e.v] {
      frontier := Lower(g, C, s, node, e.v, candidate, dist, inQueue, frontier, j);
      improved := true;
    } else {
      KeepStep(g, C, s, dist[..], frontier, inQueue[..], node, j);
    }
  }

  /** The branch of relax_edges that lowers a distance and queues the vertex if it is not waiting. */
  method Lower(g: WGraph, ghost C: iset<(nat, int)>, ghost s: nat, ghost node: nat, v: nat, candidate: nat,
               dist: array<nat>, inQueue: array<bool>, frontier0: seq<nat>, ghost j: nat) returns (frontier: seq<nat>)
    requires g.Valid() && Extending(g, s, C) && dist.Length == inQueue.Length == g.N()
    requires Processing(g, C, s, dist[..], frontier0, inQueue[..], node, j)
    requires j < |g.out[node]| && v == g.out[node][j].v && v < g.N()
    requires candidate == dist[node] + g.out[node][j].w < dist[v]
    modifies dist, inQueue
    ensures Processing(g, C, s, dist[..], frontier, inQueue[..], node, j + 1) && dist[node] == old(dist[node])
    ensures Total(dist[..]) < Total(old(dist[..]))
  {
    ghost var d, q := dist[..], inQueue[..];
    assert d[v] <= DIST_INF;
    ImproveStep(g, C, s, d, frontier0, q, node, j, v, candidate);
    LowerTarget(g, d, node, j, v, candidate);
    TotalUpdate(d, v, candidate);
    frontier := frontier0;
    dist[v] := candidate;
    assert dist[..] == d[v := candidate];
    if !inQueue[v] {
      frontier := frontier + [v];
      inQueue[v] := true;
    }
    assert inQueue[..] == q[v := true];
  }

  /** relax_edges: all out-edges of the vertex just taken from the queue. */
  method RelaxEdges(g: WGraph, ghost C: iset<(nat, int)>, ghost s: nat, node: nat, edges: seq<Edge>, dist: array<nat>,
                    inQueue: array<bool>, frontier0: seq<nat>) returns (frontier: seq<nat>)
    requires g.Valid() && Extending(g, s, C) && dist.Length == inQueue.Length == g.N() && node < g.N()
      && edges == g.out[node]
    requires Processing(g, C, s, dist[..], frontier0, inQueue[..], node, 0)
    modifies dist, inQueue
    ensures Processing(g, C, s, dist[..], frontier, inQueue[..], node, |edges|)
    ensures Total(dist[..]) < old(Total(dist[..])) || (Total(dist[..]) == old(Total(dist[..])) && frontier == frontier0)
  {
    frontier := frontier0;
    var sourceDist := dist[node];
    ghost var total := Total(dist[..]);
    var j := 0;
    while j < |edges|
      invariant j <= |edges| && dist[node] == sourceDist
      invariant Processing(g, C, s, dist[..], frontier, inQueue[..], node, j)
      invariant Total(dist[..]) < total || (Total(dist[..]) == total && frontier == frontier0)
    {
      ghost var improved;
      frontier, improved := RelaxOne(g, C, s, node, sourceDist, edges[j], dist, inQueue, frontier, j);
      j := j + 1;
    }
  }

  /** Between queue steps every vertex outside the queue is relaxed. */
  ghost predicate Waiting(g: WGraph, C: iset<(nat, int)>, s: nat, dist: seq<nat>, queue: seq<nat>, inQueue: seq<bool>) {
    && Sound(C, s, dist) && QueueOk(dist, queue, inQueue) && |dist| == g.N()
    && forall x | 0 <= x < g.N() && !inQueue[x] :: Relaxed(g, dist, x)
  }

  lemma PopStep(g: WGraph, C: iset<(nat, int)>, s: nat, dist: seq<nat>, queue: seq<nat>, inQueue: seq<bool>, node: nat)
    requires Waiting(g, C, s, dist, queue, inQueue) && queue != [] && node == queue[0]
    ensures node < g.N() && Processing(g, C, s, dist, queue[1..], inQueue[node := false], node, 0)
  {
    assert forall v | v in queue :: v == node || v in queue[1..];
  }

  lemma ProcessedStep(g: WGraph, C: iset<(nat, int)>, s: nat, dist: seq<nat>, queue: seq<nat>, inQueue: seq<bool>,
                      node: nat)
    requires node < g.N() && Processing(g, C, s, dist, queue, inQueue, node, |g.out[node]|)
    ensures Waiting(g, C, s, dist, queue, inQueue)
  {
  }

  lemma EmptyQueueExact(g: WGraph, s: nat, dist: seq<nat>, inQueue: seq<bool>)
    requires Waiting(g, Walks(g, s), s, dist, [], inQueue)
    ensures Exact(g, s, dist)
  {
    RelaxedIsExact(g, s, dist);
  }

  /** The queue loop. edges[u] is the edge sequence streamed for u: the CSR row, or the decoded
      compact records. Either way it terminates with exact distances. */
  method Run(g: WGraph, s: nat, edges: seq<seq<Edge>>) returns (result: seq<nat>)
    requires g.Valid() && s < g.N() && edges == g.out
    ensures Exact(g, s, result)
  {
    ghost var C := Walks(g, s);
    WalksExtend(g, s);
    var dist := new nat[g.N()](_ => DIST_INF);
    dist[s] := 0;
    var inQueue := new bool[g.N()](_ => false);
    inQueue[s] := true;
    var frontier := [s];
    StartSound(g, C, s, dist[..]);
    while |frontier| > 0
      invariant dist.Length == inQueue.Length == g.N()
      invariant Waiting(g, C, s, dist[..], frontier, inQueue[..])
      decreases Total(dist[..]), |frontier|
    {
      var node := frontier[0];
      PopStep(g, C, s, dist[..], frontier, inQueue[..], node);
      frontier := frontier[1..];
      ghost var q := inQueue[..];
      inQueue[node] := false;
      assert inQueue[..] == q[node := false];
      frontier := RelaxEdges(g, C, s, node, edges[node], dist, inQueue, frontier);
      ProcessedStep(g, C, s, dist[..], frontier, inQueue[..], node);
    }
    EmptyQueueExact(g, s, dist[..], inQueue[..]);
    result := dist[..];
  }
}
