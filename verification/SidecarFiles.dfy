/** The sidecar writer and its validating loader, and the tool that generates a file and reads it back. */
module SidecarFiles {
  import opened Arithmetic
  import opened LittleEndian
  import SidecarHash
  import opened WireFormat
  import Graphs
  import ReusePlanRecords
  import ReusePlanBuilder
  import RS = ReusePlanStreams
  import opened Sidecar
  import opened SidecarLoader

  datatype Outcome = Loaded(header: Header, offsets: seq<nat>, records: seq<nat>) | Failed(error: LoadError)

  // ---- The fault a file is rejected for ----

  ghost function RowFault(records: seq<nat>, start: nat, end: nat, row: seq<nat>, ids: Size): LoadError {
    if start > end || end > |records| then OffsetsNotMonotonic
    else if exists k :: 0 <= k < |row| && !RecordMatches(records, start + k, end, ids, row[k]) then OrderingMismatch
    else if start + |row| != end then DegreeMismatch
    else NoError
  }

  lemma RowFaultNone(records: seq<nat>, start: nat, end: nat, row: seq<nat>, ids: Size)
    ensures RowFault(records, start, end, row, ids) == NoError <==> RowFits(records, start, end, row, ids)
  {
  }

  /** The fault of the first faulty vertex from u on. */
  ghost function FirstFault(offsets: seq<nat>, records: seq<nat>, adj: seq<seq<nat>>, ids: Size, u: nat): LoadError
    requires u <= |adj| && |offsets| == |adj| + 1
    decreases |adj| - u
  {
    if u == |adj| then NoError else
      var fault := RowFault(records, offsets[u], offsets[u+1], adj[u], ids);
      if fault != NoError then fault else FirstFault(offsets, records, adj, ids, u + 1)
  }

  ghost function ListFault(offsets: seq<nat>, records: seq<nat>, adj: seq<seq<nat>>, ids: Size): LoadError
    requires |offsets| == |adj| + 1
  {
    if offsets[0] != 0 || offsets[|adj|] != |records| then OffsetsMalformed
    else FirstFault(offsets, records, adj, ids, 0)
  }

  lemma {:induction false} FirstFaultNone(offsets: seq<nat>, records: seq<nat>, adj: seq<seq<nat>>, ids: Size, u: nat)
    requires u <= |adj| && |offsets| == |adj| + 1
    ensures FirstFault(offsets, records, adj, ids, u) == NoError
      <==> forall v | u <= v < |adj| :: RowFits(records, offsets[v], offsets[v+1], adj[v], ids)
    decreases |adj| - u
  {
    if u < |adj| {
      RowFaultNone(records, offsets[u], offsets[u+1], adj[u], ids);
      FirstFaultNone(offsets, records, adj, ids, u + 1);
    }
  }

  lemma ListFaultNone(offsets: seq<nat>, records: seq<nat>, adj: seq<seq<nat>>, ids: Size)
    requires |offsets| == |adj| + 1
    ensures ListFault(offsets, records, adj, ids) == NoError <==> Lists(offsets, records, adj, ids)
  {
    FirstFaultNone(offsets, records, adj, ids, 0);
  }

  /** The walk over one vertex's records. */
  method CheckRow(records: seq<nat>, start: nat, end: nat, row: seq<nat>, ids: Size) returns (fault: LoadError)
    ensures fault == RowFault(records, start, end, row, ids)
  {
    if start > end || end > |records| {
      return OffsetsNotMonotonic;
    }
    var index := start;
    while index - start < |row|
      invariant start <= index <= start + |row|
      invariant forall k | 0 <= k < index - start :: RecordMatches(records, start + k, end, ids, row[k])
    {
      assert index == start + (index - start);
      if !RecordMatches(records, index, end, ids, row[index - start]) {
        return OrderingMismatch;
      }
      index := index + 1;
    }
    fault := if index != end then DegreeMismatch else NoError;
  }

  method CheckLists(offsets: seq<nat>, records: seq<nat>, adj: seq<seq<nat>>, recordBytes: nat)
    returns (fault: LoadError)
    requires |offsets| == |adj| + 1
    ensures fault == ListFault(offsets, records, adj, IdRange(recordBytes, |adj|))
  {
    if offsets[0] != 0 || offsets[|adj|] != |records| {
      return OffsetsMalformed;
    }
    var ids := IDS;
    if recordBytes == 4 {
      var idBits := Width(|adj|, 32);
      WidthUnique(idBits, LeastWidth(|adj|, 32), |adj|, 32);
      ids := Pow2(idBits);
    }
    var src := 0;
    while src < |adj|
      invariant src <= |adj|
      invariant FirstFault(offsets, records, adj, ids, 0) == FirstFault(offsets, records, adj, ids, src)
    {
      fault := CheckRow(records, offsets[src], offsets[src+1], adj[src], ids);
      if fault != NoError {
        return;
      }
      src := src + 1;
    }
    fault := NoError;
  }

  // ---- Loading ----

  predicate Configured(h: Header, vertices: nat, edges: nat, setup: Setup) {
    && h.magic == MAGIC && h.version == VERSION && h.builderVersion == BUILDER_VERSION
    && h.recordBytes == setup.recordBytes && h.push == Flag(setup.push) && h.perLine == setup.perLine
    && h.epochs == ReusePlanRecords.NormalizeEpochCount(setup.epochs) && h.lineMin == Flag(setup.lineMin)
      && h.hotPpm == setup.hotPpm
    && h.vertices == vertices && h.reserved == 0 && h.edges == edges && h.offsetCount == vertices + 1
    && h.recordCount == edges
  }

  ghost predicate HeaderOk(image: seq<Byte>, vertices: nat, edges: nat, setup: Setup) {
    |image| >= HEADER_BYTES && Configured(ParseHeader(image[..HEADER_BYTES]), vertices, edges, setup)
  }

  /** The checks on a file whose header and length are right, in the loader's order. */
  ghost function PayloadFault(h: Header, offsets: seq<nat>, records: seq<nat>, adj: seq<seq<nat>>, edges: nat,
                              setup: Setup): LoadError
    requires |offsets| == |adj| + 1
  {
    var listFault := ListFault(offsets, records, adj, IdRange(setup.recordBytes, |adj|));
    if listFault != NoError then listFault
    else if h.graphHash != GraphHash(adj, edges, setup.push) then GraphHashMismatch
    else if h.payloadHash != PayloadHash(offsets, records) then PayloadHashMismatch
    else NoError
  }

  /** The first check that fails, if any. */
  ghost function Fault(image: seq<Byte>, adj: seq<seq<nat>>, edges: nat, setup: Setup): LoadError {
    if !HeaderOk(image, |adj|, edges, setup) then HeaderMismatch
    else if |image| != FileSize(|adj|, edges, setup.recordBytes) then LengthMismatch
    else PayloadFault(ParseHeader(image[..HEADER_BYTES]), ParseOffsets(image, |adj|),
                      ParseRecords(image, |adj|, edges, setup.recordBytes), adj, edges, setup)
  }

  lemma GenuineHasNoFault(image: seq<Byte>, adj: seq<seq<nat>>, edges: nat, setup: Setup)
    requires setup.Valid() && GraphOk(adj, edges) && Genuine(image, adj, edges, setup)
    ensures Fault(image, adj, edges, setup) == NoError
  {
    var offsets, records :| Holds(image, adj, edges, setup, offsets, records);
    HoldsParses(image, adj, edges, setup, offsets, records);
    ListFaultNone(offsets, records, adj, IdRange(setup.recordBytes, |adj|));
  }

  lemma FaultlessIsGenuine(image: seq<Byte>, adj: seq<seq<nat>>, edges: nat, setup: Setup)
    requires setup.Valid() && GraphOk(adj, edges) && Fault(image, adj, edges, setup) == NoError
    ensures Holds(image, adj, edges, setup, ParseOffsets(image, |adj|),
      ParseRecords(image, |adj|, edges, setup.recordBytes))
  {
    var offsets, records := ParseOffsets(image, |adj|), ParseRecords(image, |adj|, edges, setup.recordBytes);
    ImageOfParse(image, |adj|, edges, setup.recordBytes);
    ListFaultNone(offsets, records, adj, IdRange(setup.recordBytes, |adj|));
    var h := ParseHeader(image[..HEADER_BYTES]);
    assert h == Expected(setup, |adj|, edges, h.graphHash, h.payloadHash);
  }

  /** loadReusePlanSidecar: a file loads exactly when it is genuine, and otherwise the first failing
      check is reported. The payload cannot be short once the length is right. */
  method Load(image: seq<Byte>, adj: seq<seq<nat>>, edges: nat, setup: Setup) returns (outcome: Outcome)
    requires setup.Valid() && GraphOk(adj, edges)
    ensures outcome.Loaded? <==> Genuine(image, adj, edges, setup)
    ensures outcome.Loaded? ==> Holds(image, adj, edges, setup, outcome.offsets, outcome.records)
    ensures outcome.Failed? ==> outcome.error == Fault(image, adj, edges, setup) != NoError
  {
    ghost var verdict := Fault(image, adj, edges, setup);
    if Genuine(image, adj, edges, setup) {
      GenuineHasNoFault(image, adj, edges, setup);
    }
    if |image| < HEADER_BYTES {
      return Failed(HeaderMismatch);
    }
    var header := ParseHeader(image[..HEADER_BYTES]);
    if !Configured(header, |adj|, edges, setup) {
      return Failed(HeaderMismatch);
    }
    if |image| != FileSize(|adj|, edges, setup.recordBytes) {
      return Failed(LengthMismatch);
    }
    var fault, offsets, records := CheckPayload(image, header, adj, edges, setup);
    if fault != NoError {
      return Failed(fault);
    }
    FaultlessIsGenuine(image, adj, edges, setup);
    outcome := Loaded(header, offsets, records);
  }

  method CheckPayload(image: seq<Byte>, header: Header, adj: seq<seq<nat>>, edges: nat, setup: Setup)
    returns (fault: LoadError, offsets: seq<nat>, records: seq<nat>)
    requires setup.Valid() && GraphOk(adj, edges) && |image| == FileSize(|adj|, edges, setup.recordBytes)
    ensures offsets == ParseOffsets(image, |adj|) && records == ParseRecords(image, |adj|, edges, setup.recordBytes)
    ensures fault == PayloadFault(header, offsets, records, adj, edges, setup)
  {
    offsets := ParseOffsets(image, |adj|);
    records := ParseRecords(image, |adj|, edges, setup.recordBytes);
    fault := CheckLists(offsets, records, adj, setup.recordBytes);
    if fault != NoError {
      return;
    }
    var graphHash := OrderedGraphHash(adj, edges, setup.push);
    if header.graphHash != graphHash {
      return GraphHashMismatch, offsets, records;
    }
    OffsetsOfParse(image, |adj|);
    RecordsOfParse(image, |adj|, edges, setup.recordBytes);
    var payloadHash := HashFitting(offsets, records, setup.recordBytes);
    if header.payloadHash != payloadHash {
      fault := PayloadHashMismatch;
    }
  }

  /** The payload hash of lists whose values fit their fields. */
  method HashFitting(offsets: seq<nat>, records: seq<nat>, recordBytes: nat) returns (hash: SidecarHash.Word)
    requires (recordBytes == 4 || recordBytes == 8) && Fit(offsets, 8) && Fit(records, recordBytes)
    requires |offsets| < UINT64_LIMIT && |records| < UINT64_LIMIT
    ensures hash == PayloadHash(offsets, records)
  {
    Ranges();
    assert forall x | x in offsets :: x < UINT64_LIMIT;
    assert forall x | x in records :: x < UINT64_LIMIT;
    hash := HashPayload(offsets, records);
  }

  // ---- Writing ----

  /** writeReusePlanSidecar: the counts, the record width and the payload hash are filled in. */
  method Write(header: Header, offsets: seq<nat>, records: seq<nat>, recordBytes: nat) returns (image: seq<Byte>)
    requires (recordBytes == 4 || recordBytes == 8) && Fit(offsets, 8) && Fit(records, recordBytes)
    requires |offsets| < UINT64_LIMIT && |records| < UINT64_LIMIT
    ensures image == Image(header.(recordBytes := recordBytes, offsetCount := |offsets|, recordCount := |records|,
                                   payloadHash := PayloadHash(offsets, records)), offsets, records, recordBytes)
  {
    var payloadHash := HashFitting(offsets, records, recordBytes);
    var filled := header.(recordBytes := recordBytes, offsetCount := |offsets|, recordCount := |records|,
                          payloadHash := payloadHash);
    image := HeaderBytes(filled);
    image := image + Words(offsets, 8);
    image := image + Words(records, recordBytes);
  }

  // ---- Generating a file ----

  function Adjacency(g: Graphs.Graph, push: bool): seq<seq<nat>> { if push then g.out else g.inn }

  function SetupOf(c: RS.Config, recordBytes: nat, hotPpm: nat): Setup {
    Setup(recordBytes, c.push, c.perLine, c.ne, c.lineMin, hotPpm)
  }

  /** The field sizes of the records that the builders make. */
  ghost predicate Layout(recordBytes: nat, ids: Size, epochs: Size, n: nat) {
    && ids == IdRange(recordBytes, n) && n <= ids
    && ((recordBytes == 8 && epochs == EPOCHS) || (recordBytes == 4 && ids * (4 * (epochs * epochs)) <= IDS))
  }

  lemma PackedRecord(dest: nat, tier: nat, first: nat, second: nat, n: nat, recordBytes: nat, ids: Size, epochs: Size)
    requires Layout(recordBytes, ids, epochs, n) && dest < n
    ensures var word := Pack(dest, tier, first, second, ids, epochs);
      Dest(word, ids) == dest && word < Range(recordBytes)
  {
    Ranges();
    PackFields(dest, tier, first, second, ids, epochs);
    RemainderSmall(dest, ids);
    PackFits(dest, tier, first, second, ids, epochs);
  }

  lemma WideLayout(n: nat)
    requires n < UINT32_LIMIT
    ensures Layout(8, IDS, EPOCHS, n)
  {
  }

  lemma CompactLayout(n: nat, idBits: nat, epochBits: nat)
    requires IsWidth(idBits, n, 32) && idBits + 2 + 2 * epochBits <= 32
    ensures Layout(4, Pow2(idBits), Pow2(epochBits), n)
  {
    WidthUnique(idBits, LeastWidth(n, 32), n, 32);
    CompactSizes(idBits, epochBits);
  }

  lemma {:induction false} RowOf(off: seq<nat>, n: nat, i: nat) returns (u: nat)
    requires n < |off| && off[0] == 0 && i < off[n]
    ensures u < n && off[u] <= i < off[u+1]
  {
    if i >= off[n-1] {
      u := n - 1;
    } else {
      u := RowOf(off, n - 1, i);
    }
  }

  lemma BuiltRecord(g: Graphs.Graph, c: RS.Config, x: RS.Index, recordBytes: nat, ids: Size, epochs: Size, u: nat,
                    dest: nat, word: nat)
    requires g.Valid() && RS.IndexOk(g, c, x) && c.perLine > 0 && Layout(recordBytes, ids, epochs, g.N())
    requires u < g.N() && dest in ReusePlanBuilder.Accessed(g, c.push, u)
      && RS.RecordOk(g, c, x, u, dest, ids, epochs, word)
    ensures Dest(word, ids) == dest && word < Range(recordBytes)
  {
    var plan :| RS.EdgePlan(g, c, x, u, dest, plan)
      && word == Pack(dest, plan.tier, plan.first, plan.second, ids, epochs);
    PackedRecord(dest, plan.tier, plan.first, plan.second, g.N(), recordBytes, ids, epochs);
  }

  lemma BuiltRow(g: Graphs.Graph, c: RS.Config, x: RS.Index, recordBytes: nat, ids: Size, epochs: Size,
                 records: seq<nat>, start: nat, u: nat)
    requires g.Valid() && RS.IndexOk(g, c, x) && c.perLine > 0 && Layout(recordBytes, ids, epochs, g.N())
    requires u < g.N() && RS.RowStored(g, c, x, ids, epochs, records, start, u)
    ensures RowFits(records, start, start + |ReusePlanBuilder.Accessed(g, c.push, u)|,
      ReusePlanBuilder.Accessed(g, c.push, u), ids)
    ensures forall i | start <= i < start + |ReusePlanBuilder.Accessed(g, c.push, u)| :: records[i] < Range(recordBytes)
  {
    var row := ReusePlanBuilder.Accessed(g, c.push, u);
    forall k | 0 <= k < |row|
      ensures RecordMatches(records, start + k, start + |row|, ids, row[k]) && records[start + k] < Range(recordBytes)
    {
      BuiltRecord(g, c, x, recordBytes, ids, epochs, u, row[k], records[start + k]);
    }
    forall i | start <= i < start + |row| ensures records[i] < Range(recordBytes) {
      assert RecordMatches(records, start + (i - start), start + |row|, ids, row[i - start]);
    }
  }

  /** A built stream is a list of the graph's adjacency that the loader accepts. */
  lemma BuiltStreamLists(g: Graphs.Graph, c: RS.Config, x: RS.Index, recordBytes: nat, ids: Size, epochs: Size,
                         recordOff: seq<nat>, records: seq<nat>)
    requires g.Valid() && RS.IndexOk(g, c, x) && c.perLine > 0 && Layout(recordBytes, ids, epochs, g.N())
    requires RS.StreamOk(g, c, x, ids, epochs, recordOff, records)
    ensures Lists(recordOff, records, Adjacency(g, c.push), ids) && Fit(records, recordBytes)
  {
    var adj := Adjacency(g, c.push);
    forall u | 0 <= u < g.N()
      ensures RowFits(records, recordOff[u], recordOff[u+1], adj[u], ids)
      ensures forall i | recordOff[u] <= i < recordOff[u+1] :: records[i] < Range(recordBytes)
    {
      assert adj[u] == ReusePlanBuilder.Accessed(g, c.push, u);
      BuiltRow(g, c, x, recordBytes, ids, epochs, records, recordOff[u], u);
    }
    forall i | 0 <= i < |records| ensures records[i] < Range(recordBytes) {
      var u := RowOf(recordOff, g.N(), i);
    }
  }

  method BuildFor(g: Graphs.Graph, c: RS.Config, recordBytes: nat)
    returns (built: bool, offsets: seq<nat>, records: seq<nat>)
    requires g.Valid() && c.hotCount <= g.N() < UINT32_LIMIT && (recordBytes == 4 || recordBytes == 8)
    ensures built ==>
      Lists(offsets, records, Adjacency(g, c.push), IdRange(recordBytes, g.N())) && Fit(records, recordBytes)
    ensures recordBytes == 8 ==> built
  {
    if recordBytes == 4 {
      var ok, off, recs, idBits, epochBits := RS.BuildRecords32(g, c);
      built, offsets, records := ok, off, recs;
      if built {
        ghost var x :| RS.IndexOk(g, RS.Normalize(c), x)
          && RS.StreamOk(g, RS.Normalize(c), x, Pow2(idBits), Pow2(epochBits), off, recs);
        CompactLayout(g.N(), idBits, epochBits);
        BuiltStreamLists(g, RS.Normalize(c), x, 4, Pow2(idBits), Pow2(epochBits), offsets, records);
      }
    } else {
      offsets, records := RS.BuildRecords(g, c);
      built := true;
      ghost var x :| RS.IndexOk(g, RS.Normalize(c), x)
        && RS.StreamOk(g, RS.Normalize(c), x, IDS, EPOCHS, offsets, records);
      WideLayout(g.N());
      BuiltStreamLists(g, RS.Normalize(c), x, 8, IDS, EPOCHS, offsets, records);
    }
  }

  /** generateOrVerify: whenever the records can be built, the written file passes its own validation
      and loads the very lists that were written; only infeasible compact records make it fail. */
  method Generate(g: Graphs.Graph, c: RS.Config, recordBytes: nat, hotPpm: nat, edges: nat)
    returns (built: bool, outcome: Outcome, ghost offsets: seq<nat>, ghost records: seq<nat>)
    requires g.Valid() && c.hotCount <= g.N() && SetupOf(c, recordBytes, hotPpm).Valid()
    requires var adj := Adjacency(g, c.push); GraphOk(adj, edges) && edges == |Concat(adj, |adj|)|
    ensures recordBytes == 8 ==> built
    ensures built ==> outcome.Loaded? && outcome.offsets == offsets && outcome.records == records
    ensures built ==> Lists(offsets, records, Adjacency(g, c.push), IdRange(recordBytes, g.N()))
  {
    var adj, setup := Adjacency(g, c.push), SetupOf(c, recordBytes, hotPpm);
    var off, recs;
    built, off, recs := BuildFor(g, c, recordBytes);
    offsets, records := off, recs;
    outcome := Failed(NoError);
    if built {
      ListsAreAdjacency(off, recs, adj, IdRange(recordBytes, g.N()), |adj|);
      OffsetsFit(off, recs, adj, IdRange(recordBytes, g.N()));
      var graphHash := OrderedGraphHash(adj, edges, c.push);
      var header := Header(MAGIC, VERSION, BUILDER_VERSION, 0, Flag(c.push), c.perLine,
        ReusePlanRecords.NormalizeEpochCount(c.ne),
                           Flag(c.lineMin), hotPpm, |adj|, 0, edges, 0, 0, graphHash, 0);
      var image := Write(header, off, recs, recordBytes);
      assert Holds(image, adj, edges, setup, off, recs);
      outcome := Load(image, adj, edges, setup);
      GenuineUnique(image, adj, edges, setup, off, recs, outcome.offsets, outcome.records);
    }
  }

  lemma OffsetsFit(offsets: seq<nat>, records: seq<nat>, adj: seq<seq<nat>>, ids: Size)
    requires Lists(offsets, records, adj, ids) && |records| < UINT64_LIMIT
    ensures Fit(offsets, 8)
  {
    Ranges();
    forall u | 0 <= u < |offsets| ensures offsets[u] < Range(8) {
      ListsAreAdjacency(offsets, records, adj, ids, u);
    }
  }
}
