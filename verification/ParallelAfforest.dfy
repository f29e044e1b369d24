/** Parallel Afforest from end to end: link and compress phases separated by barriers, each phase
    under an arbitrary schedule, label every vertex with the smallest vertex of its component. */
module ParallelAfforest {
  import Common
  import opened Graphs
  import opened Forests
  import L = ConcurrentLink
  import C = ConcurrentCompress

  // ---- One phase under some complete schedule ----

  ghost predicate Fresh(w: L.Worker, u: nat, dests: seq<nat>, guard: Common.Option<nat>) {
    w == L.Start(u, dests, guard, w.loaded)
  }

  /** d is what comp = c has become when every worker of a link phase has finished. */
  ghost predicate LinkPhase(c: seq<nat>, workers: seq<L.Worker>, E: set<(nat, nat)>, d: seq<nat>) {
    exists schedule ::
      && L.Inv(L.State(c, workers), E)
      && L.AllDone(L.Run(L.State(c, workers), E, schedule))
      && L.Run(L.State(c, workers), E, schedule).comp == d
  }

  ghost predicate CompressPhase(c: seq<nat>, d: seq<nat>) {
    exists schedule ::
      && Forest(c) && C.Inv(C.Start(c), Roots(c))
      && C.AllDone(C.Run(C.Start(c), Roots(c), schedule))
      && C.Run(C.Start(c), Roots(c), schedule).comp == d
  }

  /** Round r links each vertex to its r-th out-neighbour, when it has one. */
  function Sample(g: Graph, u: nat, r: nat): seq<nat>
    requires u < g.N()
  {
    if r < |g.out[u]| then [g.out[u][r]] else []
  }

  ghost predicate SampleWorkers(g: Graph, r: nat, workers: seq<L.Worker>) {
    |workers| == g.N() && forall u | 0 <= u < g.N() :: Fresh(workers[u], u, Sample(g, u, r), Common.None)
  }

  /** The final phase links all out-neighbours of every vertex whose label is not `largest`. */
  ghost predicate FullWorkers(g: Graph, largest: nat, workers: seq<L.Worker>) {
    |workers| == g.N() && forall u | 0 <= u < g.N() :: Fresh(workers[u], u, g.out[u], Common.Some(largest))
  }

  /** c can be what the last of `rounds` sampling rounds makes of c0. */
  ghost predicate SampleRound(g: Graph, rounds: nat, c0: seq<nat>, c: seq<nat>)
    requires rounds > 0
  {
    exists workers, c1 ::
      SampleWorkers(g, rounds - 1, workers) && LinkPhase(c0, workers, g.Edges(), c1) && CompressPhase(c1, c)
  }

  /** c can be comp after `rounds` sampling rounds. */
  ghost predicate Sampled(g: Graph, rounds: nat, c: seq<nat>)
    decreases rounds
  {
    if rounds == 0 then c == seq(g.N(), x => x)
    else exists c0 :: Sampled(g, rounds - 1, c0) && SampleRound(g, rounds, c0, c)
  }

  /** labels can be the result of the whole computation with `largest` as the skipped label. */
  ghost predicate Afforest(g: Graph, rounds: nat, largest: nat, labels: seq<nat>) {
    exists c0, workers, c1 ::
      && Sampled(g, rounds, c0) && FullWorkers(g, largest, workers)
      && LinkPhase(c0, workers, g.Edges(), c1) && CompressPhase(c1, labels)
  }

  // ---- Phases keep the forest sound ----

  lemma LinkPhaseSound(c: seq<nat>, workers: seq<L.Worker>, E: set<(nat, nat)>, d: seq<nat>)
    requires LinkPhase(c, workers, E, d)
    ensures Sound(d, E) && |d| == |c|
  {
  }

  lemma CompressPhaseSound(c: seq<nat>, E: set<(nat, nat)>, d: seq<nat>)
    requires Sound(c, E) && CompressPhase(c, d)
    ensures Sound(d, E) && |d| == |c| && Roots(d) == Roots(c) && d == Roots(c)
  {
    var schedule :|
      && C.Inv(C.Start(c), Roots(c)) && C.AllDone(C.Run(C.Start(c), Roots(c), schedule))
      && C.Run(C.Start(c), Roots(c), schedule).comp == d;
    forall x: nat | x < |c| ensures d[x] == Root(c, x) && Connected(E, x, d[x]) {
      C.CompressFlattens(c, schedule, x);
      SoundRoot(c, E, x);
    }
    assert C.Inv(C.Run(C.Start(c), Roots(c), schedule), Roots(c));
  }

  lemma RoundSound(g: Graph, rounds: nat, c0: seq<nat>, c: seq<nat>)
    requires rounds > 0 && SampleRound(g, rounds, c0, c) && |c0| == g.N()
    ensures |c| == g.N() && Sound(c, g.Edges())
  {
    var workers, c1 :|
      SampleWorkers(g, rounds - 1, workers) && LinkPhase(c0, workers, g.Edges(), c1) && CompressPhase(c1, c);
    LinkPhaseSound(c0, workers, g.Edges(), c1);
    CompressPhaseSound(c1, g.Edges(), c);
  }

  lemma SampleWorkerResult(g: Graph, s: L.State, schedule: seq<nat>, r: nat, u: nat)
    requires SampleWorkers(g, r, s.workers) && u < g.N() && r < |g.out[u]|
    requires L.Inv(s, g.Edges()) && L.AllDone(L.Run(s, g.Edges(), schedule))
    ensures SameTree(L.Run(s, g.Edges(), schedule).comp, u, g.out[u][r])
  {
    assert Fresh(s.workers[u], u, Sample(g, u, r), Common.None);
    L.DoneStays(s, g.Edges(), schedule, u);
    L.DoneWorker(L.Run(s, g.Edges(), schedule), g.Edges(), u);
  }

  lemma SamplePhaseLinks(g: Graph, r: nat, c: seq<nat>, workers: seq<L.Worker>, d: seq<nat>, u: nat)
    requires SampleWorkers(g, r, workers) && LinkPhase(c, workers, g.Edges(), d)
    requires u < g.N() && r < |g.out[u]|
    ensures SameTree(d, u, g.out[u][r])
  {
    var s := L.State(c, workers);
    var schedule :|
      L.Inv(s, g.Edges()) && L.AllDone(L.Run(s, g.Edges(), schedule)) && L.Run(s, g.Edges(), schedule).comp == d;
    SampleWorkerResult(g, s, schedule, r, u);
  }

  lemma SameLabel(c: seq<nat>, d: seq<nat>, x: nat, y: nat)
    requires Forest(c) && SameTree(c, x, y) && d == Roots(c)
    ensures x < |d| && y < |d| && d[x] == d[y]
  {
  }

  lemma CompressedJoins(c: seq<nat>, E: set<(nat, nat)>, d: seq<nat>, x: nat, y: nat)
    requires Sound(c, E) && CompressPhase(c, d) && SameTree(c, x, y)
    ensures x < |d| && y < |d| && d[x] == d[y]
  {
    CompressPhaseSound(c, E, d);
    SameLabel(c, d, x, y);
  }

  /** The two phases of sampling round r, in every interleaving, give each vertex the label of its r-th neighbour. */
  lemma RoundJoins(g: Graph, r: nat, c0: seq<nat>, workers: seq<L.Worker>, c1: seq<nat>, c: seq<nat>, u: nat)
    requires SampleWorkers(g, r, workers) && LinkPhase(c0, workers, g.Edges(), c1) && CompressPhase(c1, c)
    requires u < g.N() && r < |g.out[u]|
    ensures u < |c| && g.out[u][r] < |c| && c[u] == c[g.out[u][r]]
  {
    SamplePhaseLinks(g, r, c0, workers, c1, u);
    LinkPhaseSound(c0, workers, g.Edges(), c1);
    CompressedJoins(c1, g.Edges(), c, u, g.out[u][r]);
  }

  lemma {:induction false} SampledSound(g: Graph, rounds: nat, c: seq<nat>)
    requires g.Valid() && Sampled(g, rounds, c)
    ensures |c| == g.N() && Sound(c, g.Edges())
    decreases rounds
  {
    if rounds == 0 {
      forall x: nat | x < |c| ensures Connected(g.Edges(), x, c[x]) {
        ConnectedRefl(g.Edges(), x);
      }
    } else {
      var c0 :| Sampled(g, rounds - 1, c0) && SampleRound(g, rounds, c0, c);
      SampledSound(g, rounds - 1, c0);
      RoundSound(g, rounds, c0, c);
    }
  }

  /** An edge that no worker linked has both its ends in the skipped tree, because the graph is
      symmetric: so every edge has both ends in one tree. */
  lemma EdgesAreLinked(g: Graph, largest: nat, d: seq<nat>)
    requires g.Symmetric() && Forest(d)
    requires forall u | 0 <= u < g.N() :: SameTree(d, u, largest) || forall v | v in g.out[u] :: SameTree(d, u, v)
    ensures forall a, b | (a, b) in g.Edges() :: SameTree(d, a, b)
  {
    forall a, b | (a, b) in g.Edges() ensures SameTree(d, a, b) {
      assert b in g.out[a] && a in g.out[b];
    }
  }

  lemma FullPhaseLinksEdges(g: Graph, largest: nat, c: seq<nat>, workers: seq<L.Worker>, d: seq<nat>)
    requires g.Symmetric() && FullWorkers(g, largest, workers) && |c| == g.N()
    requires LinkPhase(c, workers, g.Edges(), d)
    ensures Forest(d) && forall a, b | (a, b) in g.Edges() :: SameTree(d, a, b)
  {
    var E := g.Edges();
    var s := L.State(c, workers);
    var schedule :| L.Inv(s, E) && L.AllDone(L.Run(s, E, schedule)) && L.Run(s, E, schedule).comp == d;
    forall u | 0 <= u < g.N() ensures SameTree(d, u, largest) || forall v | v in g.out[u] :: SameTree(d, u, v) {
      FullWorkerResult(g, s, schedule, largest, u);
    }
    EdgesAreLinked(g, largest, d);
  }

  lemma FullWorkerResult(g: Graph, s: L.State, schedule: seq<nat>, largest: nat, u: nat)
    requires g.Symmetric() && FullWorkers(g, largest, s.workers) && |s.comp| == g.N() && u < g.N()
    requires L.Inv(s, g.Edges()) && L.AllDone(L.Run(s, g.Edges(), schedule))
    ensures var d := L.Run(s, g.Edges(), schedule).comp;
      SameTree(d, u, largest) || forall v | v in g.out[u] :: SameTree(d, u, v)
  {
    var t := L.Run(s, g.Edges(), schedule);
    L.DoneStays(s, g.Edges(), schedule, u);
    L.DoneWorker(t, g.Edges(), u);
    assert Fresh(s.workers[u], u, g.out[u], Common.Some(largest));
  }

  /** Main theorem. On a symmetric graph, under every interleaving of every phase, for any number
      of sampling rounds and whichever label is skipped, vertex x ends with the smallest vertex
      connected to x. */
  lemma AfforestLabelsComponents(g: Graph, rounds: nat, largest: nat, labels: seq<nat>, x: nat)
    requires g.Symmetric() && Afforest(g, rounds, largest, labels) && x < g.N()
    ensures |labels| == g.N() && IsMinConnected(g.Edges(), x, labels[x])
  {
    var c0, workers, c1 :|
      && Sampled(g, rounds, c0) && FullWorkers(g, largest, workers)
      && LinkPhase(c0, workers, g.Edges(), c1) && CompressPhase(c1, labels);
    SampledSound(g, rounds, c0);
    LinkPhaseSound(c0, workers, g.Edges(), c1);
    CompressPhaseSound(c1, g.Edges(), labels);
    FullPhaseLinksEdges(g, largest, c0, workers, c1);
    SoundRoots(c1, g.Edges());
    LabelIsMinConnected(Roots(c1), g.Edges(), x);
  }

  // ---- Complete runs exist: a schedule that is long enough for everyone ends every phase ----

  function Upto(n: nat): seq<nat> { if n == 0 then [] else Upto(n - 1) + [n - 1] }

  function RoundRobin(n: nat, k: nat): seq<nat> { if k == 0 then [] else Upto(n) + RoundRobin(n, k - 1) }

  lemma {:induction false} UptoCount(n: nat, i: nat)
    ensures multiset(Upto(n))[i] == if i < n then 1 else 0
  {
    if n > 0 {
      UptoCount(n - 1, i);
    }
  }

  lemma {:induction false} RoundRobinCount(n: nat, k: nat, i: nat)
    requires i < n
    ensures multiset(RoundRobin(n, k))[i] == k
  {
    if k > 0 {
      UptoCount(n, i);
      RoundRobinCount(n, k - 1, i);
    }
  }

  ghost function MaxFuel(workers: seq<L.Worker>): (k: nat)
    requires forall i | 0 <= i < |workers| :: workers[i].done <= |workers[i].dests|
    ensures forall i | 0 <= i < |workers| :: L.Fuel(workers[i]) <= k
  {
    if workers == [] then 0
    else
      var k := MaxFuel(workers[1..]);
      assert forall i | 1 <= i < |workers| :: workers[i] == workers[1..][i-1];
      if L.Fuel(workers[0]) > k then L.Fuel(workers[0]) else k
  }

  lemma LinkPhaseCompletes(c: seq<nat>, workers: seq<L.Worker>, E: set<(nat, nat)>) returns (d: seq<nat>)
    requires L.Inv(L.State(c, workers), E)
    ensures LinkPhase(c, workers, E, d)
  {
    var s := L.State(c, workers);
    L.InvInRange(s, E);
    var k := MaxFuel(workers);
    var schedule := RoundRobin(|workers|, k);
    forall i | 0 <= i < |workers| ensures L.Run(s, E, schedule).workers[i].pc.Done? {
      RoundRobinCount(|workers|, k, i);
      L.WaitFree(s, E, schedule, i);
    }
    d := L.Run(s, E, schedule).comp;
  }

  lemma CompressPhaseCompletes(c: seq<nat>) returns (d: seq<nat>)
    requires Forest(c)
    ensures CompressPhase(c, d)
  {
    C.StartInv(c);
    var k := 5 * |c| + 2;
    var schedule := RoundRobin(|c|, k);
    forall n | 0 <= n < |c| ensures C.Run(C.Start(c), Roots(c), schedule).cells[n].pc.Done? {
      RoundRobinCount(|c|, k, n);
      C.WaitFree(c, schedule, n);
    }
    d := C.Run(C.Start(c), Roots(c), schedule).comp;
  }

  /** Workers whose destinations are out-neighbours start in a valid state. */
  lemma WorkersStart(g: Graph, c: seq<nat>, workers: seq<L.Worker>)
    requires g.Valid() && |c| == g.N() && Sound(c, g.Edges()) && |workers| == g.N()
    requires forall u | 0 <= u < g.N() ::
      && workers[u].u == u && workers[u] == L.Start(u, workers[u].dests, workers[u].guard, workers[u].loaded)
      && forall j | 0 <= j < |workers[u].dests| :: workers[u].dests[j] in g.out[u]
    ensures L.Inv(L.State(c, workers), g.Edges())
  {
    var s := L.State(c, workers);
    forall u | 0 <= u < |workers| ensures L.DestsSubmitted(workers[u], g.Edges()) && L.InRange(workers[u], |c|) {
      forall j | 0 <= j < |workers[u].dests|
        ensures (u, workers[u].dests[j]) in g.Edges() && workers[u].dests[j] < |c|
      {
        assert workers[u].dests[j] in g.out[u];
      }
    }
    L.InitialInv(s, g.Edges());
  }

  lemma RoundCompletes(g: Graph, rounds: nat, c0: seq<nat>) returns (c: seq<nat>)
    requires g.Valid() && rounds > 0 && |c0| == g.N() && Sound(c0, g.Edges())
    ensures SampleRound(g, rounds, c0, c)
  {
    var workers := seq(g.N(), u requires 0 <= u < g.N() => L.Start(u, Sample(g, u, rounds - 1), Common.None, false));
    WorkersStart(g, c0, workers);
    var c1 := LinkPhaseCompletes(c0, workers, g.Edges());
    LinkPhaseSound(c0, workers, g.Edges(), c1);
    c := CompressPhaseCompletes(c1);
    assert SampleWorkers(g, rounds - 1, workers);
  }

  lemma {:induction false} SamplingCompletes(g: Graph, rounds: nat) returns (c: seq<nat>)
    requires g.Valid()
    ensures Sampled(g, rounds, c)
    decreases rounds
  {
    if rounds == 0 {
      c := seq(g.N(), x => x);
    } else {
      var c0 := SamplingCompletes(g, rounds - 1);
      SampledSound(g, rounds - 1, c0);
      c := RoundCompletes(g, rounds, c0);
    }
  }

  /** Every phase of the computation can be completed, so the main theorem speaks of real runs. */
  lemma AfforestCompletes(g: Graph, rounds: nat, largest: nat) returns (labels: seq<nat>)
    requires g.Valid()
    ensures Afforest(g, rounds, largest, labels)
  {
    var c0 := SamplingCompletes(g, rounds);
    SampledSound(g, rounds, c0);
    var workers := seq(g.N(), u requires 0 <= u < g.N() => L.Start(u, g.out[u], Common.Some(largest), true));
    WorkersStart(g, c0, workers);
    var c1 := LinkPhaseCompletes(c0, workers, g.Edges());
    LinkPhaseSound(c0, workers, g.Edges(), c1);
    labels := CompressPhaseCompletes(c1);
    assert FullWorkers(g, largest, workers);
  }
}
