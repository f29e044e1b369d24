/** The single-epoch builder allows more epochs than the two-epoch record holds. Exactly when at most
    32768 epochs are asked for, the two builders agree on every edge of every graph. */
module EpochCounts {
  import Common
  import Arithmetic
  import opened Graphs
  import Sorting
  import Epochs
  import opened ReusePlan
  import opened ReusePlanBuilder
  import opened ReusePlanRecords
  import opened ReusePlanStreams

  /** For src's edge to dest, asked for c.ne epochs, the plan builder stores plan and the single-epoch
      builder epoch. */
  ghost predicate Stored(g: Graph, c: Config, x: Index, src: nat, dest: nat, plan: Plan, epoch: nat) {
    && g.Valid() && c.hotCount <= g.N() < Arithmetic.UINT32_LIMIT - 1 && IndexOk(g, Normalize(c), x)
    && src < g.N() && dest < g.N() && dest in Accessed(g, c.push, src)
    && EdgePlan(g, Normalize(c), x, src, dest, plan)
    && EpochOk(EdgeLine(g, Normalize(c), x, dest), g.N(), src, ClampEpochCount(c.ne), epoch)
  }

  // ---- A graph of n vertices in which vertex 1 is read by the first and the last vertex ----

  /** The readers of vertex 1 are 0 and n - 1, and no other vertex has a reader. */
  function TwoReaders(n: nat, push: bool): Graph {
    var readers := seq(n, u => if u == 1 then [0, n - 1] else []);
    var accessed := seq(n, u => if u == 0 || u == n - 1 then [1] else []);
    if push then Graph(accessed, readers) else Graph(readers, accessed)
  }

  lemma TwoReadersValid(n: nat, push: bool)
    requires n > 2
    ensures TwoReaders(n, push).Valid() && TwoReaders(n, push).N() == n
    ensures Accessed(TwoReaders(n, push), push, 0) == [1]
    ensures forall v | 0 <= v < n :: ReaderList(TwoReaders(n, push), push, v) == if v == 1 then [0, n - 1] else []
  {
  }

  // ---- Every graph has an index ----

  lemma {:induction false} CsrExists(g: Graph, push: bool, v: nat) returns (off: seq<nat>, readers: seq<nat>)
    requires g.Valid() && v <= g.N()
    ensures PartialCsr(g, push, off, readers, v)
    decreases v
  {
    if v == 0 {
      off, readers := [0], [];
    } else {
      off, readers := CsrExists(g, push, v - 1);
      var list := ReaderList(g, push, v - 1);
      assert forall i | 0 <= i < |list| :: list[i] in list;
      SortReaders(list, g.N());
      AppendSegment(g, push, off, readers, v - 1, Sorting.Sort(AtMost(), list));
      off, readers := off + [|readers| + |list|], readers + Sorting.Sort(AtMost(), list);
    }
  }

  lemma IndexExists(g: Graph, c: Config) returns (x: Index)
    requires g.Valid()
    ensures IndexOk(g, c, x)
  {
    var off, readers := CsrExists(g, c.push, g.N());
    x := Index(off, readers, seq(g.N(), v requires 0 <= v < g.N() => TierOfRank(Rank(off, g.N(), v), c.hotCount)));
  }

  // ---- The line of vertex 1 ----

  /** Vertex k of the line is read by 0 and n - 1, and no other vertex of it by any. */
  ghost predicate ReadTwice(line: Line, n: nat, k: nat) {
    k < |line| && line[k] == [0, n - 1] && forall w | 0 <= w < |line| && w != k :: line[w] == []
  }

  lemma SortedPair(a: nat, b: nat)
    requires a <= b
    ensures Sorting.Sort(AtMost(), [a, b]) == [a, b] && Sorting.Sort(AtMost(), []) == []
  {
    assert [a, b][1..] == [b] && [b][1..] == [];
    assert Sorting.Sort(AtMost(), [b]) == [b];
  }

  lemma LineReadTwice(c: Config, n: nat, x: Index) returns (k: nat)
    requires n > 2 && c.perLine > 0 && IndexOk(TwoReaders(n, c.push), c, x)
    ensures TwoReaders(n, c.push).N() == n && ReadTwice(EdgeLine(TwoReaders(n, c.push), c, x, 1), n, k)
  {
    var g := TwoReaders(n, c.push);
    TwoReadersValid(n, c.push);
    SortedPair(0, n - 1);
    DestOnLine(1, c.perLine, c.lineMin, n);
    var v0 := LineStart(1, c.perLine, c.lineMin);
    k := 1 - v0;
    var line := EdgeLine(g, c, x, 1);
    forall w | 0 <= w < |line| ensures line[w] == if w == k then [0, n - 1] else [] {
      assert line[w] == Segment(x.off, x.readers, v0 + w);
    }
  }

  /** Seen from vertex 0, the earliest reference is that by n - 1, and the next one by 0 itself. */
  lemma LastThenFirst(line: Line, n: nat, k: nat)
    requires n > 1 && ReadTwice(line, n, k)
    ensures TwoEarliest(line, n, 0, Ref(k, 1, 0), Ref(k, 0, 1)) && Earliest(line, n, 0, |line|, Ref(k, 1, 0))
  {
    forall x | Future(line, n, 0, x) && x != Ref(k, 1, 0) ensures Offset(line, n, 0, x) >= n {
      assert x.w == k && x.c >= 1;
      Arithmetic.TimesMonotone(n, 1, x.c);
    }
  }

  lemma LastEpoch(n: nat, ne: nat)
    requires n >= ne >= 1
    ensures Epochs.CurrentEpoch(n - 1, n, ne) == ne - 1
  {
    assert (n - 1) * ne == n * (ne - 1) + (n - ne);
    Arithmetic.DivAtLeast((n - 1) * ne, n, ne - 1);
    Arithmetic.DivBelow((n - 1) * ne, n, ne);
  }

  /** The two builders quantize that reference differently. */
  lemma LastReaderEpochs(line: Line, n: nat, k: nat, ne: nat)
    requires ReadTwice(line, n, k) && MAX_EPOCHS < ne <= 65535 && ne <= n
    ensures EpochOf(line, n, 0, ne, Ref(k, 1, 0)) == ne - 1
    ensures EpochOf(line, n, 0, MAX_EPOCHS, Ref(k, 1, 0)) < MAX_EPOCHS
  {
    LastEpoch(n, ne);
    LastEpoch(n, MAX_EPOCHS);
    Epochs.QuantizedIs(n - 1, 0, n, ne, false);
    Epochs.QuantizedIs(n - 1, 0, n, MAX_EPOCHS, false);
  }

  lemma DifferOnLine(line: Line, n: nat, k: nat, ne: nat, tier: nat) returns (plan: Plan, epoch: nat)
    requires n > 2 && ReadTwice(line, n, k) && MAX_EPOCHS < ne <= 65535 && ne <= n
    ensures PlanOk(line, n, 0, MAX_EPOCHS, tier, plan) && EpochOk(line, n, 0, ne, epoch)
    ensures plan.valid && plan.first < epoch
  {
    var a, b := Ref(k, 1, 0), Ref(k, 0, 1);
    LastThenFirst(line, n, k);
    LastReaderEpochs(line, n, k, ne);
    epoch := EpochOf(line, n, 0, ne, a);
    plan := Plan(EpochOf(line, n, 0, MAX_EPOCHS, a), EpochOf(line, n, 0, MAX_EPOCHS, b), tier, true);
    assert line[k] != [];
  }

  // ---- The results ----

  /** Asked for more than 32768 epochs, the builders store different epochs for an edge of vertex 0, in
      every direction and line layout, on a graph of any size with a vertex for each epoch. */
  lemma Differ(c: Config, n: nat) returns (x: Index, plan: Plan, epoch: nat)
    requires c.ne > MAX_EPOCHS && ClampEpochCount(c.ne) <= n && c.hotCount <= n < Arithmetic.UINT32_LIMIT - 1
    ensures Stored(TwoReaders(n, c.push), c, x, 0, 1, plan, epoch) && plan.valid && plan.first < epoch
  {
    var g, d, ne := TwoReaders(n, c.push), Normalize(c), ClampEpochCount(c.ne);
    TwoReadersValid(n, c.push);
    x := IndexExists(g, d);
    var k := LineReadTwice(d, n, x);
    plan, epoch := DifferOnLine(EdgeLine(g, d, x, 1), n, k, ne, EdgeTier(g, d, x, 1));
  }

  lemma AgreeOnEdge(g: Graph, c: Config, x: Index, src: nat, dest: nat, plan: Plan, epoch: nat)
    requires c.ne <= MAX_EPOCHS && Stored(g, c, x, src, dest, plan, epoch)
    ensures plan.first == epoch
  {
    var d := Normalize(c);
    EdgeLineOk(g, d, x, dest);
    PlanInRange(g, d, x, src, dest, plan);
    FirstIsEdgeEpoch(EdgeLine(g, d, x, dest), g.N(), src, d.ne, EdgeTier(g, d, x, dest), plan, epoch);
  }

  /** For every direction and line layout, the first epoch of the plan is the single epoch on every edge
      of every graph exactly when at most 32768 epochs are asked for. */
  lemma Agree(c: Config)
    requires c.hotCount < Arithmetic.UINT32_LIMIT - 1
    ensures (forall g: Graph, x: Index, src: nat, dest: nat, plan: Plan, epoch: nat |
        Stored(g, c, x, src, dest, plan, epoch) :: plan.first == epoch)
      <==> c.ne <= MAX_EPOCHS
  {
    if c.ne > MAX_EPOCHS {
      var n := Common.Max(ClampEpochCount(c.ne), c.hotCount);
      var x, plan, epoch := Differ(c, n);
      assert plan.first != epoch;
    } else {
      forall g: Graph, x: Index, src: nat, dest: nat, plan: Plan, epoch: nat |
        Stored(g, c, x, src, dest, plan, epoch)
        ensures plan.first == epoch
      {
        AgreeOnEdge(g, c, x, src, dest, plan, epoch);
      }
    }
  }
}
