/** Record streams for a whole graph, and the agreement of the two container widths. */
module ReusePlanStreams {
  import Common
  import opened Arithmetic
  import opened Graphs
  import Sorting
  import Epochs
  import opened ReusePlan
  import opened ReusePlanBuilder
  import opened ReusePlanRecords
  import opened WireFormat

  /** What a build is asked for. */
  datatype Config = Config(perLine: nat, ne: nat, lineMin: bool, push: bool, hotCount: nat)

  /** numVtxPerLine == 0 means 16, and the epoch count is brought into range. */
  function Normalize(c: Config): (d: Config)
    ensures d.perLine > 0 && 2 <= d.ne <= MAX_EPOCHS
    ensures c.perLine == 0 ==> d.perLine == 16
    ensures c.perLine > 0 && 2 <= c.ne <= 32768 ==> d == c
  {
    c.(perLine := if c.perLine == 0 then 16 else c.perLine, ne := NormalizeEpochCount(c.ne))
  }

  ghost predicate TiersOk(off: seq<nat>, n: nat, hotCount: nat, tiers: seq<nat>) {
    |tiers| == n && forall v | 0 <= v < n :: tiers[v] == TierOfRank(Rank(off, n, v), hotCount)
  }

  /** The reader lists and tiers of a graph, which every builder computes for itself. */
  datatype Index = Index(off: seq<nat>, readers: seq<nat>, tiers: seq<nat>)

  ghost predicate IndexOk(g: Graph, c: Config, x: Index) {
    ReaderCsr(g, c.push, x.off, x.readers) && TiersOk(x.off, g.N(), c.hotCount, x.tiers)
  }

  lemma IndexCsrOk(g: Graph, c: Config, x: Index)
    requires IndexOk(g, c, x)
    ensures CsrOk(x.off, x.readers, g.N()) && |x.tiers| == g.N()
  {
  }

  ghost function EdgeLine(g: Graph, c: Config, x: Index, dest: nat): Line
    requires IndexOk(g, c, x) && c.perLine > 0 && dest < g.N()
  {
    DestOnLine(dest, c.perLine, c.lineMin, g.N());
    LineOf(x.off, x.readers, LineStart(dest, c.perLine, c.lineMin), LineEnd(dest, c.perLine, c.lineMin, g.N()))
  }

  ghost function EdgeTier(g: Graph, c: Config, x: Index, dest: nat): nat
    requires IndexOk(g, c, x) && c.perLine > 0 && dest < g.N()
  {
    DestOnLine(dest, c.perLine, c.lineMin, g.N());
    MinTier(x.tiers, LineStart(dest, c.perLine, c.lineMin), LineEnd(dest, c.perLine, c.lineMin, g.N()))
  }

  ghost predicate EdgePlan(g: Graph, c: Config, x: Index, src: nat, dest: nat, plan: Plan)
    requires IndexOk(g, c, x) && c.perLine > 0 && dest < g.N()
  {
    PlanOk(EdgeLine(g, c, x, dest), g.N(), src, c.ne, EdgeTier(g, c, x, dest), plan)
  }

  /** Different builds of the index describe the same lines and tiers. */
  lemma IndexUnique(g: Graph, c: Config, x: Index, y: Index, dest: nat)
    requires IndexOk(g, c, x) && IndexOk(g, c, y) && c.perLine > 0 && dest < g.N()
    ensures EdgeLine(g, c, x, dest) == EdgeLine(g, c, y, dest) && EdgeTier(g, c, x, dest) == EdgeTier(g, c, y, dest)
  {
    ReaderCsrUnique(g, c.push, x.off, x.readers, y.off, y.readers);
    assert x.tiers == y.tiers;
  }

  lemma EdgeLineOk(g: Graph, c: Config, x: Index, dest: nat)
    requires IndexOk(g, c, x) && c.perLine > 0 && dest < g.N()
    ensures LineOk(EdgeLine(g, c, x, dest), g.N())
  {
    IndexCsrOk(g, c, x);
    DestOnLine(dest, c.perLine, c.lineMin, g.N());
    LineOfOk(x.off, x.readers, g.N(), LineStart(dest, c.perLine, c.lineMin),
      LineEnd(dest, c.perLine, c.lineMin, g.N()));
  }

  /** rs is the ascending list of v's readers, repeated readers included. */
  ghost predicate ReadersOf(g: Graph, push: bool, v: nat, rs: seq<nat>)
    requires |g.inn| == |g.out|
  {
    v < g.N() && Common.NonDescending(rs) && multiset(rs) == multiset(ReaderList(g, push, v))
  }

  lemma SegmentReaders(g: Graph, c: Config, x: Index, v: nat)
    requires g.Valid() && IndexOk(g, c, x) && v < g.N()
    ensures ReadersOf(g, c.push, v, Segment(x.off, x.readers, v))
  {
    var list := ReaderList(g, c.push, v);
    assert forall i | 0 <= i < |list| :: list[i] in list;
    SortReaders(list, g.N());
  }

  lemma EdgeLineAt(g: Graph, c: Config, x: Index, dest: nat, k: nat)
    requires g.Valid() && IndexOk(g, c, x) && c.perLine > 0 && dest < g.N() && k < |EdgeLine(g, c, x, dest)|
    ensures ReadersOf(g, c.push, LineStart(dest, c.perLine, c.lineMin) + k, EdgeLine(g, c, x, dest)[k])
  {
    DestOnLine(dest, c.perLine, c.lineMin, g.N());
    SegmentReaders(g, c, x, LineStart(dest, c.perLine, c.lineMin) + k);
  }

  lemma EdgeLineLength(g: Graph, c: Config, x: Index, dest: nat)
    requires IndexOk(g, c, x) && c.perLine > 0 && dest < g.N()
    ensures LineStart(dest, c.perLine, c.lineMin) + |EdgeLine(g, c, x, dest)|
      == LineEnd(dest, c.perLine, c.lineMin, g.N())
  {
    DestOnLine(dest, c.perLine, c.lineMin, g.N());
  }

  /** Each entry of the line is the list of readers of its vertex, the first of which is v0. */
  ghost predicate LineReaders(g: Graph, push: bool, v0: nat, line: seq<seq<nat>>)
    requires |g.inn| == |g.out|
  {
    forall k | 0 <= k < |line| :: ReadersOf(g, push, v0 + k, line[k])
  }

  lemma EdgeLineReaders(g: Graph, c: Config, x: Index, dest: nat)
    requires g.Valid() && IndexOk(g, c, x) && c.perLine > 0 && dest < g.N()
    ensures LineReaders(g, c.push, LineStart(dest, c.perLine, c.lineMin), EdgeLine(g, c, x, dest))
  {
    var line, v0 := EdgeLine(g, c, x, dest), LineStart(dest, c.perLine, c.lineMin);
    forall k | 0 <= k < |line| ensures ReadersOf(g, c.push, v0 + k, line[k]) {
      EdgeLineAt(g, c, x, dest, k);
    }
  }

  lemma EdgeLineSpan(v0: nat, v1: nat, n: nat, line: seq<seq<nat>>, dest: nat, perLine: nat, lineMin: bool)
    requires perLine > 0 && IsLine(v0, v1, dest, perLine, lineMin, n) && v0 + |line| == v1
    ensures IsLine(v0, v0 + |line|, dest, perLine, lineMin, n)
  {
  }

  /** The line of an edge lists, for exactly the vertices on dest's cache line, the sorted readers. */
  lemma EdgeLineIs(g: Graph, c: Config, x: Index, dest: nat)
    requires g.Valid() && IndexOk(g, c, x) && c.perLine > 0 && dest < g.N()
    ensures var line, v0 := EdgeLine(g, c, x, dest), LineStart(dest, c.perLine, c.lineMin);
      IsLine(v0, v0 + |line|, dest, c.perLine, c.lineMin, g.N()) && LineReaders(g, c.push, v0, line)
  {
    var v0, v1 := LineStart(dest, c.perLine, c.lineMin), LineEnd(dest, c.perLine, c.lineMin, g.N());
    LineIsLine(dest, c.perLine, c.lineMin, g.N());
    EdgeLineLength(g, c, x, dest);
    EdgeLineSpan(v0, v1, g.N(), EdgeLine(g, c, x, dest), dest, c.perLine, c.lineMin);
    EdgeLineReaders(g, c, x, dest);
  }

  /** The vertices with more readers than v, or as many and a smaller number. */
  ghost function Ahead(g: Graph, push: bool, v: nat): set<nat>
    requires v < g.N() && |g.inn| == |g.out|
  {
    set u: nat | u < g.N()
      && (|ReaderList(g, push, u)| > |ReaderList(g, push, v)|
          || (|ReaderList(g, push, u)| == |ReaderList(g, push, v)| && u < v))
  }

  lemma CountIsReaders(g: Graph, c: Config, x: Index, v: nat)
    requires IndexOk(g, c, x) && v < g.N()
    ensures Count(x.off, v) == |ReaderList(g, c.push, v)|
  {
    var list := ReaderList(g, c.push, v);
    Sorting.SortSize(AtMost(), list);
    assert |Segment(x.off, x.readers, v)| == |list|;
  }

  /** The hotCount vertices with the most readers have tier 1, the next as many tier 2, all others 3. */
  lemma TierByReaders(g: Graph, c: Config, x: Index, v: nat)
    requires IndexOk(g, c, x) && v < g.N()
    ensures var ahead := |Ahead(g, c.push, v)|;
      x.tiers[v] == if ahead < c.hotCount then 1 else if ahead < 2 * c.hotCount then 2 else 3
  {
    forall u: nat | u < g.N() ensures Count(x.off, u) == |ReaderList(g, c.push, u)| {
      CountIsReaders(g, c, x, u);
    }
    assert Ahead(g, c.push, v) == set u: nat | u < g.N() && Hotter(x.off, u, v);
  }

  /** The tier of an edge is the least tier of the vertices on its line. */
  lemma EdgeTierIs(g: Graph, c: Config, x: Index, dest: nat)
    requires IndexOk(g, c, x) && c.perLine > 0 && dest < g.N()
    ensures forall v | 0 <= v < g.N() && SameLine(v, dest, c.perLine, c.lineMin) ::
      EdgeTier(g, c, x, dest) <= x.tiers[v]
    ensures exists v :: (0 <= v < g.N() && SameLine(v, dest, c.perLine, c.lineMin)
                         && x.tiers[v] == EdgeTier(g, c, x, dest))
  {
    LineIsLine(dest, c.perLine, c.lineMin, g.N());
    DestOnLine(dest, c.perLine, c.lineMin, g.N());
    MinTierIsLeast(x.tiers, LineStart(dest, c.perLine, c.lineMin), LineEnd(dest, c.perLine, c.lineMin, g.N()));
  }

  // ---- Every accessed edge has a valid plan with a tier from 1 to 3 ----

  /** An accessed destination is read by src itself, so its line has a reader. */
  lemma AccessedHasReader(g: Graph, c: Config, x: Index, src: nat, dest: nat)
    requires g.Valid() && IndexOk(g, c, x) && c.perLine > 0 && src < g.N() && dest in Accessed(g, c.push, src)
    ensures dest < g.N() && exists w :: 0 <= w < |EdgeLine(g, c, x, dest)| && EdgeLine(g, c, x, dest)[w] != []
  {
    assert src in ReaderList(g, c.push, dest);
    DestOnLine(dest, c.perLine, c.lineMin, g.N());
    var k := dest - LineStart(dest, c.perLine, c.lineMin);
    var list := ReaderList(g, c.push, dest);
    assert forall i | 0 <= i < |list| :: list[i] in list;
    SortReaders(list, g.N());
    assert |Sorting.Sort(AtMost(), list)| == |list| > 0;
    assert EdgeLine(g, c, x, dest)[k] == Segment(x.off, x.readers, dest);
  }

  lemma {:induction false} MinTierRange(tiers: seq<nat>, v0: nat, v1: nat)
    requires v0 <= v1 <= |tiers| && forall v | v0 <= v < v1 :: 1 <= tiers[v] <= 3
    ensures 1 <= MinTier(tiers, v0, v1) <= 3
  {
    if v0 < v1 {
      MinTierRange(tiers, v0, v1 - 1);
    }
  }

  lemma EpochOfBound(line: Line, n: nat, src: nat, ne: nat, a: Ref)
    requires Exists(line, a) && 2 <= ne <= MAX_EPOCHS
    ensures EpochOf(line, n, src, ne, a) < ne
  {
    QuantizedBound(line[a.w][a.i], src, n, ne, a.c > 0);
  }

  lemma QuantizedBound(reader: nat, src: nat, n: nat, ne: nat, wrapped: bool)
    requires 2 <= ne <= MAX_EPOCHS
    ensures Epochs.QuantizedFutureEpoch(reader, src, n, ne, wrapped) < ne
  {
    if n > 0 {
      var raw, here := reader * ne / n, Epochs.CurrentEpoch(src, n, ne);
      var epoch := if raw >= ne then ne - 1 else raw;
      var e := if wrapped && epoch == here then (if here == 0 then ne - 1 else here - 1) else epoch;
      assert e < ne;
      RemainderSmall(e, UINT16_LIMIT);
    }
  }

  lemma PlanEpochs(line: Line, n: nat, src: nat, ne: nat, tier: nat, plan: Plan)
    requires PlanOk(line, n, src, ne, tier, plan) && 2 <= ne <= MAX_EPOCHS
    requires exists w :: 0 <= w < |line| && line[w] != []
    ensures plan.valid && plan.tier == tier && plan.first < ne && plan.second < ne
  {
    var a, b :| TwoEarliest(line, n, src, a, b)
      && plan.first == EpochOf(line, n, src, ne, a) && plan.second == EpochOf(line, n, src, ne, b);
    EpochOfBound(line, n, src, ne, a);
    EpochOfBound(line, n, src, ne, b);
  }

  lemma EdgeTierRange(g: Graph, c: Config, x: Index, dest: nat)
    requires IndexOk(g, c, x) && c.perLine > 0 && dest < g.N()
    ensures 1 <= EdgeTier(g, c, x, dest) <= 3
  {
    DestOnLine(dest, c.perLine, c.lineMin, g.N());
    assert forall v | 0 <= v < g.N() :: x.tiers[v] == TierOfRank(Rank(x.off, g.N(), v), c.hotCount);
    MinTierRange(x.tiers, LineStart(dest, c.perLine, c.lineMin), LineEnd(dest, c.perLine, c.lineMin, g.N()));
  }

  /** No record is ever invalid: tier 0 is never stored and both epochs are in range. */
  lemma PlanInRange(g: Graph, c: Config, x: Index, src: nat, dest: nat, plan: Plan)
    requires g.Valid() && IndexOk(g, c, x) && c.perLine > 0 && 2 <= c.ne <= MAX_EPOCHS
    requires src < g.N() && dest in Accessed(g, c.push, src) && dest < g.N() && EdgePlan(g, c, x, src, dest, plan)
    ensures plan.valid && 1 <= plan.tier <= 3 && plan.first < c.ne && plan.second < c.ne
  {
    AccessedHasReader(g, c, x, src, dest);
    EdgeTierRange(g, c, x, dest);
    PlanEpochs(EdgeLine(g, c, x, dest), g.N(), src, c.ne, EdgeTier(g, c, x, dest), plan);
  }

  // ---- Building a stream ----

  ghost predicate Offsets(g: Graph, push: bool, recordOff: seq<nat>) {
    |g.inn| == |g.out| && Common.RowOffsets(if push then g.out else g.inn, recordOff)
  }

  ghost predicate RecordOk(g: Graph, c: Config, x: Index, src: nat, dest: nat, ids: Size, epochs: Size, word: nat)
    requires IndexOk(g, c, x) && c.perLine > 0
  {
    && dest < g.N()
    && exists plan :: (EdgePlan(g, c, x, src, dest, plan)
                       && word == Pack(dest, plan.tier, plan.first, plan.second, ids, epochs))
  }

  /** From start on, one record per edge of src in order. */
  ghost predicate RowStored(g: Graph, c: Config, x: Index, ids: Size, epochs: Size, records: seq<nat>, start: nat,
                            src: nat)
    requires IndexOk(g, c, x) && c.perLine > 0 && src < g.N() && |g.inn| == |g.out|
  {
    && start + |Accessed(g, c.push, src)| <= |records|
    && forall e | 0 <= e < |Accessed(g, c.push, src)| ::
      RecordOk(g, c, x, src, Accessed(g, c.push, src)[e], ids, epochs, records[start + e])
  }

  ghost predicate RowsStored(g: Graph, c: Config, x: Index, ids: Size, epochs: Size, recordOff: seq<nat>,
                             records: seq<nat>, src: nat)
    requires IndexOk(g, c, x) && c.perLine > 0 && Offsets(g, c.push, recordOff) && src <= g.N()
  {
    |records| == recordOff[src] && forall u | 0 <= u < src :: RowStored(g, c, x, ids, epochs, records, recordOff[u], u)
  }

  /** The stream lists, for every vertex in order, one record per accessed edge in order. */
  ghost predicate StreamOk(g: Graph, c: Config, x: Index, ids: Size, epochs: Size, recordOff: seq<nat>,
                           records: seq<nat>)
    requires IndexOk(g, c, x) && c.perLine > 0
  {
    Offsets(g, c.push, recordOff) && RowsStored(g, c, x, ids, epochs, recordOff, records, g.N())
  }

  lemma RowKept(g: Graph, c: Config, x: Index, ids: Size, epochs: Size, records: seq<nat>, start: nat, u: nat,
                row: seq<nat>)
    requires IndexOk(g, c, x) && c.perLine > 0 && u < g.N() && |g.inn| == |g.out|
    requires RowStored(g, c, x, ids, epochs, records, start, u)
    ensures RowStored(g, c, x, ids, epochs, records + row, start, u)
  {
    forall e | 0 <= e < |Accessed(g, c.push, u)|
      ensures RecordOk(g, c, x, u, Accessed(g, c.push, u)[e], ids, epochs, (records + row)[start + e])
    {
      assert (records + row)[start + e] == records[start + e];
    }
  }

  lemma RowAdded(g: Graph, c: Config, x: Index, ids: Size, epochs: Size, records: seq<nat>, src: nat, row: seq<nat>)
    requires IndexOk(g, c, x) && c.perLine > 0 && src < g.N() && |g.inn| == |g.out|
    requires RowStored(g, c, x, ids, epochs, row, 0, src)
    ensures RowStored(g, c, x, ids, epochs, records + row, |records|, src)
  {
    forall e | 0 <= e < |Accessed(g, c.push, src)|
      ensures RecordOk(g, c, x, src, Accessed(g, c.push, src)[e], ids, epochs, (records + row)[|records| + e])
    {
      assert (records + row)[|records| + e] == row[0 + e];
    }
  }

  lemma RowsGrow(g: Graph, c: Config, x: Index, ids: Size, epochs: Size, recordOff: seq<nat>, records: seq<nat>,
                 src: nat, row: seq<nat>)
    requires IndexOk(g, c, x) && c.perLine > 0 && Offsets(g, c.push, recordOff) && src < g.N()
    requires RowsStored(g, c, x, ids, epochs, recordOff, records, src)
    requires RowStored(g, c, x, ids, epochs, row, 0, src) && |row| == |Accessed(g, c.push, src)|
    ensures RowsStored(g, c, x, ids, epochs, recordOff, records + row, src + 1)
  {
    RowAdded(g, c, x, ids, epochs, records, src, row);
    forall u | 0 <= u < src ensures RowStored(g, c, x, ids, epochs, records + row, recordOff[u], u) {
      RowKept(g, c, x, ids, epochs, records, recordOff[u], u, row);
    }
  }

  method BuildIndex(g: Graph, c: Config) returns (x: Index)
    requires g.Valid() && c.hotCount <= g.N()
    ensures IndexOk(g, c, x)
  {
    var off, readers := BuildReaderCsr(g, c.push);
    var tiers := BuildReuseTiers(off, g.N(), c.hotCount);
    x := Index(off, readers, tiers);
  }

  method BuildOffsets(g: Graph, push: bool) returns (recordOff: seq<nat>)
    requires g.Valid()
    ensures Offsets(g, push, recordOff)
  {
    recordOff := [0];
    var src := 0;
    while src < g.N()
      invariant src <= g.N() && |recordOff| == src + 1 && recordOff[0] == 0
      invariant forall u | 0 <= u < src :: recordOff[u+1] == recordOff[u] + |Accessed(g, push, u)|
      invariant forall u, v | 0 <= u <= v <= src :: recordOff[u] <= recordOff[v]
    {
      recordOff := recordOff + [recordOff[src] + |Accessed(g, push, src)|];
      src := src + 1;
    }
  }

  /** One record: the plan of the edge, packed. */
  method BuildRecord(g: Graph, c: Config, x: Index, src: nat, dest: nat, ids: Size, epochs: Size) returns (word: nat)
    requires g.Valid() && IndexOk(g, c, x) && c.perLine > 0 && src < g.N() && dest < g.N() < UINT32_LIMIT
    ensures RecordOk(g, c, x, src, dest, ids, epochs, word)
  {
    IndexCsrOk(g, c, x);
    var plan := NextReusePlanForLine(x.off, x.readers, x.tiers, g.N(), src, dest, c.perLine, c.ne, c.lineMin);
    assert EdgePlan(g, c, x, src, dest, plan);
    word := Pack(dest, plan.tier, plan.first, plan.second, ids, epochs);
  }

  method BuildRow(g: Graph, c: Config, x: Index, ids: Size, epochs: Size, src: nat) returns (row: seq<nat>)
    requires g.Valid() && IndexOk(g, c, x) && c.perLine > 0 && src < g.N() < UINT32_LIMIT
    ensures |row| == |Accessed(g, c.push, src)| && RowStored(g, c, x, ids, epochs, row, 0, src)
  {
    var accessed := Accessed(g, c.push, src);
    row := [];
    while |row| < |accessed|
      invariant |row| <= |accessed|
      invariant forall e | 0 <= e < |row| :: RecordOk(g, c, x, src, accessed[e], ids, epochs, row[e])
      decreases |accessed| - |row|
    {
      assert accessed[|row|] in accessed;
      var word := BuildRecord(g, c, x, src, accessed[|row|], ids, epochs);
      row := row + [word];
    }
  }

  /** The record loop shared by both builders; each position is written once, in order. */
  method BuildStream(g: Graph, c: Config, x: Index, ids: Size, epochs: Size)
    returns (recordOff: seq<nat>, records: seq<nat>)
    requires g.Valid() && IndexOk(g, c, x) && c.perLine > 0 && g.N() < UINT32_LIMIT
    ensures StreamOk(g, c, x, ids, epochs, recordOff, records)
  {
    recordOff := BuildOffsets(g, c.push);
    records := [];
    var src := 0;
    while src < g.N()
      invariant src <= g.N() && RowsStored(g, c, x, ids, epochs, recordOff, records, src)
    {
      var row := BuildRow(g, c, x, ids, epochs, src);
      RowsGrow(g, c, x, ids, epochs, recordOff, records, src, row);
      records := records + row;
      src := src + 1;
    }
  }

  /** The stream of some index of the graph; there is only one such index. */
  ghost predicate Stream(g: Graph, c: Config, ids: Size, epochs: Size, recordOff: seq<nat>, records: seq<nat>)
    requires c.perLine > 0
  {
    exists x :: IndexOk(g, c, x) && StreamOk(g, c, x, ids, epochs, recordOff, records)
  }

  /** buildInEdgeReusePlanRecords: the 64-bit stream. */
  method BuildRecords(g: Graph, config: Config) returns (recordOff: seq<nat>, records: seq<nat>)
    requires g.Valid() && config.hotCount <= g.N() < UINT32_LIMIT
    ensures Stream(g, Normalize(config), IDS, EPOCHS, recordOff, records)
  {
    var c := Normalize(config);
    var index := BuildIndex(g, c);
    recordOff, records := BuildStream(g, c, index, IDS, EPOCHS);
  }

  /** buildInEdgeReusePlanRecords32: fails on an empty graph or when the fields do not fit. */
  method BuildRecords32(g: Graph, config: Config)
    returns (ok: bool, recordOff: seq<nat>, records: seq<nat>, idBits: nat, epochBits: nat)
    requires g.Valid() && config.hotCount <= g.N() < UINT32_LIMIT
    ensures var c := Normalize(config);
      && IsWidth(idBits, g.N(), 32) && IsWidth(epochBits, c.ne, 16)
      && (ok <==> g.N() > 0 && idBits + 2 + 2 * epochBits <= 32)
      && (ok ==> Stream(g, c, Pow2(idBits), Pow2(epochBits), recordOff, records))
  {
    var c := Normalize(config);
    recordOff, records := seq(g.N() + 1, _ => 0), [];
    ok, idBits, epochBits := CanPack(g.N(), c.ne);
    if g.N() == 0 || !ok {
      ok := false;
      return;
    }
    var index := BuildIndex(g, c);
    recordOff, records := BuildStream(g, c, index, Pow2(idBits), Pow2(epochBits));
  }

  // ---- The two widths agree ----

  lemma RecordWidens(g: Graph, c: Config, x: Index, y: Index, src: nat, dest: nat, idBits: nat, epochBits: nat,
                     wide: nat, compact: nat)
    requires g.Valid() && IndexOk(g, c, x) && IndexOk(g, c, y) && c.perLine > 0 && 2 <= c.ne <= MAX_EPOCHS
    requires src < g.N() && dest in Accessed(g, c.push, src)
    requires IsWidth(idBits, g.N(), 32) && IsWidth(epochBits, c.ne, 16) && idBits + 2 + 2 * epochBits <= 32
    requires RecordOk(g, c, x, src, dest, IDS, EPOCHS, wide)
      && RecordOk(g, c, y, src, dest, Pow2(idBits), Pow2(epochBits), compact)
    ensures Widen(compact, Pow2(idBits), Pow2(epochBits)) == wide && 1 <= Tier(compact, Pow2(idBits)) <= 3
      && compact < IDS
  {
    var p :| EdgePlan(g, c, x, src, dest, p) && wide == Pack(dest, p.tier, p.first, p.second, IDS, EPOCHS);
    var q :| EdgePlan(g, c, y, src, dest, q)
      && compact == Pack(dest, q.tier, q.first, q.second, Pow2(idBits), Pow2(epochBits));
    IndexUnique(g, c, x, y, dest);
    EdgeLineOk(g, c, x, dest);
    PlanUnique(EdgeLine(g, c, x, dest), g.N(), src, c.ne, EdgeTier(g, c, x, dest), p, q);
    PlanInRange(g, c, x, src, dest, p);
    CompactFields(dest, p.tier, p.first, p.second, g.N(), c.ne, idBits, epochBits);
    CompactWidens(dest, p.tier, p.first, p.second, g.N(), c.ne, idBits, epochBits);
    CompactFits(dest, p.tier, p.first, p.second, idBits, epochBits);
  }

  ghost predicate AgreeAt(ids: Size, epochs: Size, wide: seq<nat>, compact: seq<nat>, start: nat, e: nat) {
    && start + e < |wide| == |compact|
    && Widen(compact[start + e], ids, epochs) == wide[start + e]
    && 1 <= Tier(compact[start + e], ids) <= 3 && compact[start + e] < IDS
  }

  lemma RowsAgree(g: Graph, c: Config, x: Index, y: Index, idBits: nat, epochBits: nat,
                  wide: seq<nat>, compact: seq<nat>, start: nat, u: nat, e: nat)
    requires g.Valid() && IndexOk(g, c, x) && IndexOk(g, c, y) && c.perLine > 0 && 2 <= c.ne <= MAX_EPOCHS
    requires IsWidth(idBits, g.N(), 32) && IsWidth(epochBits, c.ne, 16) && idBits + 2 + 2 * epochBits <= 32
    requires u < g.N() && e < |Accessed(g, c.push, u)| && |wide| == |compact|
    requires RowStored(g, c, x, IDS, EPOCHS, wide, start, u)
    requires RowStored(g, c, y, Pow2(idBits), Pow2(epochBits), compact, start, u)
    ensures AgreeAt(Pow2(idBits), Pow2(epochBits), wide, compact, start, e)
  {
    var dest := Accessed(g, c.push, u)[e];
    RecordWidens(g, c, x, y, u, dest, idBits, epochBits, wide[start + e], compact[start + e]);
  }

  lemma IndexedStreamsAgree(g: Graph, c: Config, x: Index, y: Index, idBits: nat, epochBits: nat,
                            off64: seq<nat>, wide: seq<nat>, off32: seq<nat>, compact: seq<nat>)
    requires g.Valid() && IndexOk(g, c, x) && IndexOk(g, c, y) && c.perLine > 0 && 2 <= c.ne <= MAX_EPOCHS
    requires IsWidth(idBits, g.N(), 32) && IsWidth(epochBits, c.ne, 16) && idBits + 2 + 2 * epochBits <= 32
    requires StreamOk(g, c, x, IDS, EPOCHS, off64, wide)
      && StreamOk(g, c, y, Pow2(idBits), Pow2(epochBits), off32, compact)
    ensures off64 == off32 && |wide| == |compact|
    ensures forall u, e | 0 <= u < g.N() && 0 <= e < |Accessed(g, c.push, u)| ::
      AgreeAt(Pow2(idBits), Pow2(epochBits), wide, compact, off64[u], e)
  {
    OffsetsUnique(g, c.push, off64, off32);
    forall u, e | 0 <= u < g.N() && 0 <= e < |Accessed(g, c.push, u)|
      ensures AgreeAt(Pow2(idBits), Pow2(epochBits), wide, compact, off64[u], e)
    {
      RowsAgree(g, c, x, y, idBits, epochBits, wide, compact, off64[u], u, e);
    }
  }

  /** Whenever the compact build succeeds, it has a record at exactly the positions of the 64-bit
      build, and each one widens to the 64-bit record there and carries a tier from 1 to 3. */
  lemma StreamsAgree(g: Graph, c: Config, idBits: nat, epochBits: nat,
                     off64: seq<nat>, wide: seq<nat>, off32: seq<nat>, compact: seq<nat>)
    requires g.Valid() && c.perLine > 0 && 2 <= c.ne <= MAX_EPOCHS
    requires IsWidth(idBits, g.N(), 32) && IsWidth(epochBits, c.ne, 16) && idBits + 2 + 2 * epochBits <= 32
    requires Stream(g, c, IDS, EPOCHS, off64, wide) && Stream(g, c, Pow2(idBits), Pow2(epochBits), off32, compact)
    ensures |off64| == g.N() + 1 && off64 == off32 && |wide| == |compact|
    ensures forall u, e | 0 <= u < g.N() && 0 <= e < |Accessed(g, c.push, u)| ::
      AgreeAt(Pow2(idBits), Pow2(epochBits), wide, compact, off64[u], e)
  {
    var x :| IndexOk(g, c, x) && StreamOk(g, c, x, IDS, EPOCHS, off64, wide);
    var y :| IndexOk(g, c, y) && StreamOk(g, c, y, Pow2(idBits), Pow2(epochBits), off32, compact);
    IndexedStreamsAgree(g, c, x, y, idBits, epochBits, off64, wide, off32, compact);
  }

  lemma OffsetsUnique(g: Graph, push: bool, a: seq<nat>, b: seq<nat>)
    requires Offsets(g, push, a) && Offsets(g, push, b)
    ensures a == b
  {
    forall v: nat | v <= g.N() ensures a[v] == b[v] {
      OffsetsAgree(g, push, a, b, v);
    }
  }

  lemma {:induction false} OffsetsAgree(g: Graph, push: bool, a: seq<nat>, b: seq<nat>, v: nat)
    requires Offsets(g, push, a) && Offsets(g, push, b) && v <= g.N()
    ensures a[v] == b[v]
  {
    if v > 0 {
      OffsetsAgree(g, push, a, b, v - 1);
    }
  }
}
