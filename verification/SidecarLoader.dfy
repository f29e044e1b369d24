/** Writing and loading sidecar files: the loader accepts exactly the files the writer makes for the same graph. */
module SidecarLoader {
  import opened Arithmetic
  import opened LittleEndian
  import opened SidecarHash
  import WireFormat
  import ReusePlanRecords
  import opened Sidecar

  /** What a load asks for. The hot fraction comes as parts per million. */
  datatype Setup = Setup(recordBytes: nat, push: bool, perLine: nat, epochs: nat, lineMin: bool, hotPpm: nat) {
    ghost predicate Valid() {
      (recordBytes == 4 || recordBytes == 8) && perLine < UINT32_LIMIT && hotPpm < UINT32_LIMIT
    }
  }

  datatype LoadError = NoError | HeaderMismatch | LengthMismatch | OffsetsMalformed | OffsetsNotMonotonic
    | OrderingMismatch | DegreeMismatch | GraphHashMismatch | PayloadHashMismatch

  // ---- What the lists of a file must say ----

  /** The size of the destination field: that of a 32-bit record depends on the vertex count. */
  function IdRange(recordBytes: nat, vertices: nat): Size {
    if recordBytes == 4 then Pow2(WireFormat.LeastWidth(vertices, 32)) else WireFormat.IDS
  }

  predicate RecordMatches(records: seq<nat>, index: nat, end: nat, ids: Size, dest: nat) {
    index < end && index < |records| && WireFormat.Dest(records[index], ids) == dest
  }

  /** The records from start to end are those of the row, in order. */
  ghost predicate RowFits(records: seq<nat>, start: nat, end: nat, row: seq<nat>, ids: Size) {
    && start + |row| == end <= |records|
    && forall k | 0 <= k < |row| :: RecordMatches(records, start + k, end, ids, row[k])
  }

  ghost predicate Lists(offsets: seq<nat>, records: seq<nat>, adj: seq<seq<nat>>, ids: Size) {
    && |offsets| == |adj| + 1 && offsets[0] == 0 && offsets[|adj|] == |records|
    && forall u | 0 <= u < |adj| :: RowFits(records, offsets[u], offsets[u+1], adj[u], ids)
  }

  function Concat(rows: seq<seq<nat>>, k: nat): seq<nat>
    requires k <= |rows|
  {
    if k == 0 then [] else Concat(rows, k - 1) + rows[k-1]
  }

  /** The destinations of the records are the adjacency lists laid end to end. */
  lemma {:induction false} ListsAreAdjacency(offsets: seq<nat>, records: seq<nat>, adj: seq<seq<nat>>, ids: Size,
                                             k: nat)
    requires Lists(offsets, records, adj, ids) && k <= |adj|
    ensures offsets[k] == |Concat(adj, k)| <= |records|
    ensures forall i | 0 <= i < |Concat(adj, k)| :: WireFormat.Dest(records[i], ids) == Concat(adj, k)[i]
  {
    if k > 0 {
      ListsAreAdjacency(offsets, records, adj, ids, k - 1);
      var start := offsets[k-1];
      assert RowFits(records, start, offsets[k], adj[k-1], ids);
      forall i | 0 <= i < |Concat(adj, k)| ensures WireFormat.Dest(records[i], ids) == Concat(adj, k)[i] {
        if i >= start {
          assert RecordMatches(records, start + (i - start), offsets[k], ids, adj[k-1][i - start]);
        }
      }
    }
  }

  // ---- The files that belong to a graph and a setup ----

  function Expected(setup: Setup, vertices: nat, edges: nat, graphHash: nat, payloadHash: nat): Header {
    Header(MAGIC, VERSION, BUILDER_VERSION, setup.recordBytes, Flag(setup.push), setup.perLine,
           ReusePlanRecords.NormalizeEpochCount(setup.epochs), Flag(setup.lineMin), setup.hotPpm, vertices, 0, edges,
           vertices + 1, edges, graphHash, payloadHash)
  }

  /** The image is what the writer makes of these lists for this graph, and the lists describe the graph. */
  ghost predicate Holds(image: seq<Byte>, adj: seq<seq<nat>>, edges: nat, setup: Setup, offsets: seq<nat>,
                        records: seq<nat>) {
    && Lists(offsets, records, adj, IdRange(setup.recordBytes, |adj|)) && |records| == edges
    && Fit(offsets, 8) && Fit(records, setup.recordBytes)
    && image == Image(Expected(setup, |adj|, edges, GraphHash(adj, edges, setup.push), PayloadHash(offsets, records)),
                      offsets, records, setup.recordBytes)
  }

  ghost predicate Genuine(image: seq<Byte>, adj: seq<seq<nat>>, edges: nat, setup: Setup) {
    exists offsets, records :: Holds(image, adj, edges, setup, offsets, records)
  }

  lemma Ranges()
    ensures Range(4) == UINT32_LIMIT && Range(8) == UINT64_LIMIT
  {
    assert Range(4) == UINT32_LIMIT;
  }

  lemma ExpectedFits(setup: Setup, adj: seq<seq<nat>>, edges: nat, graphHash: Word, payloadHash: Word)
    requires setup.Valid() && GraphOk(adj, edges)
    ensures HeaderFits(Expected(setup, |adj|, edges, graphHash, payloadHash))
  {
    Ranges();
  }

  /** The lists of a genuine file are the ones that parsing reads from it. */
  lemma HoldsParses(image: seq<Byte>, adj: seq<seq<nat>>, edges: nat, setup: Setup, offsets: seq<nat>,
                    records: seq<nat>)
    requires setup.Valid() && GraphOk(adj, edges) && Holds(image, adj, edges, setup, offsets, records)
    ensures |image| == FileSize(|adj|, edges, setup.recordBytes)
    ensures ParseHeader(image[..HEADER_BYTES])
      == Expected(setup, |adj|, edges, GraphHash(adj, edges, setup.push), PayloadHash(offsets, records))
    ensures ParseOffsets(image, |adj|) == offsets && ParseRecords(image, |adj|, edges, setup.recordBytes) == records
  {
    var gh, ph := GraphHash(adj, edges, setup.push), PayloadHash(offsets, records);
    ExpectedFits(setup, adj, edges, gh, ph);
    ParseOfImage(Expected(setup, |adj|, edges, gh, ph), offsets, records, setup.recordBytes, |adj|);
  }

  /** A genuine file carries one pair of lists. */
  lemma GenuineUnique(image: seq<Byte>, adj: seq<seq<nat>>, edges: nat, setup: Setup,
                      o: seq<nat>, r: seq<nat>, p: seq<nat>, s: seq<nat>)
    requires setup.Valid() && GraphOk(adj, edges)
    requires Holds(image, adj, edges, setup, o, r) && Holds(image, adj, edges, setup, p, s)
    ensures o == p && r == s
  {
    HoldsParses(image, adj, edges, setup, o, r);
    HoldsParses(image, adj, edges, setup, p, s);
  }

  // ---- One changed byte is always noticed ----

  lemma PayloadHashBytes(offsets: seq<nat>, records: seq<nat>)
    ensures PayloadHash(offsets, records)
      == HashBytes(BASIS, Le(|offsets|, 8) + (Words(offsets, 8) + (Le(|records|, 8) + Words(records, 8))))
  {
    var a, b := [|offsets|] + offsets, [|records|] + records;
    assert PayloadWords(offsets, records) == a + b;
    WordsAppend(a, b, 8);
    WordsAppend([|offsets|], offsets, 8);
    WordsAppend([|records|], records, 8);
    WordsOne(|offsets|, 8);
    WordsOne(|records|, 8);
    ReassociateFour(Le(|offsets|, 8), Words(offsets, 8), Le(|records|, 8), Words(records, 8));
  }

  lemma ReassociateFour(a: seq<Byte>, b: seq<Byte>, c: seq<Byte>, d: seq<Byte>)
    ensures (a + b) + (c + d) == a + (b + (c + d))
  {
  }

  lemma RecordsApart(front: seq<Byte>, c: seq<Byte>, r: seq<nat>, s: seq<nat>, recordBytes: nat)
    requires |r| == |s| && recordBytes <= 8 && Fit(r, recordBytes) && Fit(s, recordBytes)
    requires OneByteApart(Words(r, recordBytes), Words(s, recordBytes))
    ensures OneByteApart(front + (c + Words(r, 8)), front + (c + Words(s, 8)))
  {
    WideningKeepsApart(r, s, recordBytes, 8);
    OneByteJoins(c, Words(r, 8), c, Words(s, 8));
    OneByteJoins(front, c + Words(r, 8), front, c + Words(s, 8));
  }

  /** The payload hash covers records at full width; what is stored may be narrower. */
  lemma HashedApart(o: seq<nat>, r: seq<nat>, p: seq<nat>, s: seq<nat>, recordBytes: nat, c: seq<Byte>)
    requires |o| == |p| && |r| == |s| && recordBytes <= 8 && Fit(r, recordBytes) && Fit(s, recordBytes)
    requires OneByteApart(Words(o, 8) + Words(r, recordBytes), Words(p, 8) + Words(s, recordBytes))
    ensures OneByteApart(Words(o, 8) + (c + Words(r, 8)), Words(p, 8) + (c + Words(s, 8)))
  {
    OneByteSplits(Words(o, 8), Words(r, recordBytes), Words(p, 8), Words(s, recordBytes));
    if Words(o, 8) == Words(p, 8) && OneByteApart(Words(r, recordBytes), Words(s, recordBytes)) {
      RecordsApart(Words(o, 8), c, r, s, recordBytes);
    } else {
      SameWords(r, s, recordBytes);
      OneByteJoins(Words(o, 8), c + Words(r, 8), Words(p, 8), c + Words(s, 8));
    }
  }

  /** Lists whose stored bytes differ in one position have different payload hashes. */
  lemma OneByteChangesPayloadHash(o: seq<nat>, r: seq<nat>, p: seq<nat>, s: seq<nat>, recordBytes: nat)
    requires |o| == |p| && |r| == |s| && recordBytes <= 8 && Fit(r, recordBytes) && Fit(s, recordBytes)
    requires OneByteApart(Words(o, 8) + Words(r, recordBytes), Words(p, 8) + Words(s, recordBytes))
    ensures PayloadHash(o, r) != PayloadHash(p, s)
  {
    var n, c := Le(|o|, 8), Le(|r|, 8);
    HashedApart(o, r, p, s, recordBytes, c);
    var x, y := Words(o, 8) + (c + Words(r, 8)), Words(p, 8) + (c + Words(s, 8));
    OneByteJoins(n, x, n, y);
    OneByteChangesHash(BASIS, n + x, n + y);
    PayloadHashBytes(o, r);
    PayloadHashBytes(p, s);
  }

  /** Changing any single byte of a genuine file, in the header or the payload, makes it ungenuine. */
  lemma OneByteIsNoticed(image: seq<Byte>, other: seq<Byte>, adj: seq<seq<nat>>, edges: nat, setup: Setup)
    requires setup.Valid() && GraphOk(adj, edges)
    requires Genuine(image, adj, edges, setup) && OneByteApart(image, other)
    ensures !Genuine(other, adj, edges, setup)
  {
    if Genuine(other, adj, edges, setup) {
      var o, r :| Holds(image, adj, edges, setup, o, r);
      var p, s :| Holds(other, adj, edges, setup, p, s);
      HeadAndPayload(image, adj, edges, setup, o, r);
      HeadAndPayload(other, adj, edges, setup, p, s);
      NotOneByteApart(HeaderPrefix(setup, |adj|, edges, GraphHash(adj, edges, setup.push)), o, r, p, s,
        setup.recordBytes);
    }
  }

  /** Everything in the header before the payload hash, which is its last word. */
  function HeaderPrefix(setup: Setup, vertices: nat, edges: nat, graphHash: nat): seq<Byte> {
    var h := Expected(setup, vertices, edges, graphHash, 0);
    Words([MAGIC], 8) + Words(Narrow(h), 4) + Words([edges, vertices + 1, edges, graphHash], 8)
  }

  lemma HeadAndPayload(image: seq<Byte>, adj: seq<seq<nat>>, edges: nat, setup: Setup, offsets: seq<nat>,
                       records: seq<nat>)
    requires Holds(image, adj, edges, setup, offsets, records)
    ensures image == HeaderPrefix(setup, |adj|, edges, GraphHash(adj, edges, setup.push))
      + (Le(PayloadHash(offsets, records), 8) + (Words(offsets, 8) + Words(records, setup.recordBytes)))
  {
    var gh, ph := GraphHash(adj, edges, setup.push), PayloadHash(offsets, records);
    var front := [edges, |adj| + 1, edges, gh];
    assert Wide(Expected(setup, |adj|, edges, gh, ph)) == front + [ph];
    WordsAppend(front, [ph], 8);
    WordsOne(ph, 8);
    Regroup(Words([MAGIC], 8), Words(Narrow(Expected(setup, |adj|, edges, gh, 0)), 4), Words(front, 8), Le(ph, 8),
            Words(offsets, 8), Words(records, setup.recordBytes));
  }

  lemma Regroup(a: seq<Byte>, b: seq<Byte>, c: seq<Byte>, d: seq<Byte>, e: seq<Byte>, f: seq<Byte>)
    ensures (a + b + (c + d)) + e + f == (a + b + c) + (d + (e + f))
  {
  }

  lemma NotOneByteApart(prefix: seq<Byte>, o: seq<nat>, r: seq<nat>, p: seq<nat>, s: seq<nat>, recordBytes: nat)
    requires |o| == |p| && |r| == |s| && recordBytes <= 8
    requires Fit(o, 8) && Fit(p, 8) && Fit(r, recordBytes) && Fit(s, recordBytes)
    ensures !OneByteApart(prefix + (Le(PayloadHash(o, r), 8) + (Words(o, 8) + Words(r, recordBytes))),
                          prefix + (Le(PayloadHash(p, s), 8) + (Words(p, 8) + Words(s, recordBytes))))
  {
    var x, y := Words(o, 8) + Words(r, recordBytes), Words(p, 8) + Words(s, recordBytes);
    HashTells(o, r, p, s, recordBytes, x, y);
    HashOrPayload(prefix, PayloadHash(o, r), x, PayloadHash(p, s), y);
  }

  lemma HashTells(o: seq<nat>, r: seq<nat>, p: seq<nat>, s: seq<nat>, recordBytes: nat, x: seq<Byte>, y: seq<Byte>)
    requires |o| == |p| && |r| == |s| && recordBytes <= 8
    requires Fit(o, 8) && Fit(p, 8) && Fit(r, recordBytes) && Fit(s, recordBytes)
    requires x == Words(o, 8) + Words(r, recordBytes) && y == Words(p, 8) + Words(s, recordBytes)
    ensures x == y ==> PayloadHash(o, r) == PayloadHash(p, s)
    ensures OneByteApart(x, y) ==> PayloadHash(o, r) != PayloadHash(p, s)
  {
    if x == y {
      SamePayload(o, r, p, s, recordBytes);
    } else if OneByteApart(x, y) {
      OneByteChangesPayloadHash(o, r, p, s, recordBytes);
    }
  }

  /** A hash next to the payload it covers: one changed byte breaks their agreement. */
  lemma HashOrPayload(prefix: seq<Byte>, g: Word, x: seq<Byte>, h: Word, y: seq<Byte>)
    requires (x == y ==> g == h) && (OneByteApart(x, y) ==> g != h)
    ensures !OneByteApart(prefix + (Le(g, 8) + x), prefix + (Le(h, 8) + y))
  {
    if OneByteApart(prefix + (Le(g, 8) + x), prefix + (Le(h, 8) + y)) {
      OneByteSplits(prefix, Le(g, 8) + x, prefix, Le(h, 8) + y);
      OneByteSplits(Le(g, 8), x, Le(h, 8), y);
      if x != y {
        HashesShow(g, h);
      }
    }
  }

  lemma SamePayload(o: seq<nat>, r: seq<nat>, p: seq<nat>, s: seq<nat>, recordBytes: nat)
    requires |o| == |p| && |r| == |s| && Fit(o, 8) && Fit(p, 8) && Fit(r, recordBytes) && Fit(s, recordBytes)
    requires Words(o, 8) + Words(r, recordBytes) == Words(p, 8) + Words(s, recordBytes)
    ensures o == p && r == s
  {
    SameHalves(Words(o, 8), Words(r, recordBytes), Words(p, 8), Words(s, recordBytes));
    SameWords(o, p, 8);
    SameWords(r, s, recordBytes);
  }

  lemma SameHalves(a: seq<Byte>, b: seq<Byte>, c: seq<Byte>, d: seq<Byte>)
    requires |a| == |c| && a + b == c + d
    ensures a == c && b == d
  {
    assert (a + b)[..|a|] == a && (c + d)[..|c|] == c && (a + b)[|a|..] == b && (c + d)[|c|..] == d;
  }

  lemma HashesShow(g: Word, h: Word)
    requires Le(g, 8) == Le(h, 8)
    ensures g == h
  {
    Ranges();
    FromLeOfLe(g, 8);
    FromLeOfLe(h, 8);
  }
}
