/** The sidecar file of a record stream: the words it hashes and the layout of its bytes. */
module Sidecar {
  import Arithmetic
  import opened LittleEndian
  import opened SidecarHash

  const MAGIC: nat := 0x3150435350524745
  const VERSION: nat := 1
  const BUILDER_VERSION: nat := 1
  const HEADER_BYTES: nat := 88

  datatype Header = Header(magic: nat, version: nat, builderVersion: nat, recordBytes: nat, push: nat, perLine: nat,
                           epochs: nat, lineMin: nat, hotPpm: nat, vertices: nat, reserved: nat, edges: nat,
                           offsetCount: nat, recordCount: nat, graphHash: nat, payloadHash: nat)

  function Flag(b: bool): (flag: nat)
    ensures b ==> flag == 1
    ensures !b ==> flag == 0
  {
    if b then 1 else 0
  }

  /** A graph with 32-bit vertex ids whose file length is a 64-bit number. */
  ghost predicate GraphOk(adj: seq<seq<nat>>, edges: nat) {
    && |adj| < Arithmetic.UINT32_LIMIT && HEADER_BYTES + (|adj| + 1) * 8 + edges * 8 < Arithmetic.UINT64_LIMIT
    && forall u | 0 <= u < |adj| :: RowSized(adj[u], |adj|)
  }

  ghost predicate RowSized(row: seq<nat>, n: nat) {
    |row| < Arithmetic.UINT64_LIMIT && forall k | 0 <= k < |row| :: row[k] < n
  }

  // ---- The hashed words ----

  function RowWords(adj: seq<seq<nat>>, k: nat): seq<nat>
    requires k <= |adj|
  {
    if k == 0 then [] else RowWords(adj, k - 1) + adj[k-1] + [|adj[k-1]|]
  }

  function WordsUpTo(adj: seq<seq<nat>>, edges: nat, push: bool, k: nat): seq<nat>
    requires k <= |adj|
  {
    [|adj|, edges, Flag(push)] + RowWords(adj, k)
  }

  function GraphWords(adj: seq<seq<nat>>, edges: nat, push: bool): seq<nat> { WordsUpTo(adj, edges, push, |adj|) }

  lemma WordsStep(adj: seq<seq<nat>>, edges: nat, push: bool, k: nat)
    requires k < |adj|
    ensures WordsUpTo(adj, edges, push, 0) == [|adj|, edges, Flag(push)]
    ensures WordsUpTo(adj, edges, push, k + 1) == WordsUpTo(adj, edges, push, k) + adj[k] + [|adj[k]|]
  {
  }

  function PayloadWords(offsets: seq<nat>, records: seq<nat>): seq<nat> {
    [|offsets|] + offsets + [|records|] + records
  }

  function GraphHash(adj: seq<seq<nat>>, edges: nat, push: bool): Word {
    HashWords(BASIS, GraphWords(adj, edges, push))
  }

  function PayloadHash(offsets: seq<nat>, records: seq<nat>): Word { HashWords(BASIS, PayloadWords(offsets, records)) }

  /** The words hashed for a graph determine its lists, their order, the edge count and the direction. */
  lemma GraphWordsDetermine(a: seq<seq<nat>>, e: nat, p: bool, b: seq<seq<nat>>, f: nat, q: bool)
    requires GraphWords(a, e, p) == GraphWords(b, f, q)
    ensures a == b && e == f && p == q
  {
    var x, y := GraphWords(a, e, p), GraphWords(b, f, q);
    assert x[0] == |a| && y[0] == |b| && x[1] == e && y[1] == f && x[2] == Flag(p) && y[2] == Flag(q);
    assert x[3..] == RowWords(a, |a|) && y[3..] == RowWords(b, |b|);
    RowWordsDetermine(a, b, |a|);
  }

  lemma {:induction false} RowWordsDetermine(a: seq<seq<nat>>, b: seq<seq<nat>>, k: nat)
    requires |a| == |b| && k <= |a| && RowWords(a, k) == RowWords(b, k)
    ensures a[..k] == b[..k]
  {
    if k > 0 {
      var x, y := RowWords(a, k), RowWords(b, k);
      var m, c, d := |x|, |a[k-1]|, |b[k-1]|;
      assert x[m-1] == c && y[m-1] == d;
      assert x[m-1-c..m-1] == a[k-1] && y[m-1-c..m-1] == b[k-1];
      assert x[..m-1-c] == RowWords(a, k - 1) && y[..m-1-c] == RowWords(b, k - 1);
      RowWordsDetermine(a, b, k - 1);
      assert a[..k] == a[..k-1] + [a[k-1]] && b[..k] == b[..k-1] + [b[k-1]];
    }
  }

  /** orderedGraphHash: counts and destinations, row by row. */
  method OrderedGraphHash(adj: seq<seq<nat>>, edges: Word, push: bool) returns (hash: Word)
    requires GraphOk(adj, edges)
    ensures hash == GraphHash(adj, edges, push)
  {
    hash := HashHead(|adj|, edges, Flag(push));
    assert WordsUpTo(adj, edges, push, 0) == [|adj|, edges, Flag(push)];
    var src := 0;
    while src < |adj|
      invariant src <= |adj| && hash == HashWords(BASIS, WordsUpTo(adj, edges, push, src))
    {
      hash := HashRow(adj[src], |adj|, hash, WordsUpTo(adj, edges, push, src));
      WordsStep(adj, edges, push, src);
      src := src + 1;
    }
  }

  method HashHead(vertices: Word, edges: Word, push: Word) returns (hash: Word)
    ensures hash == HashWords(BASIS, [vertices, edges, push])
  {
    hash := HashAll(BASIS, [vertices, edges, push], []);
    ghost var words: seq<nat> := [vertices, edges, push];
    assert [] + words == words;
  }

  method HashRow(row: seq<nat>, n: nat, before: Word, ghost words: seq<nat>) returns (hash: Word)
    requires n < Arithmetic.UINT32_LIMIT && RowSized(row, n) && before == HashWords(BASIS, words)
    ensures hash == HashWords(BASIS, words + row + [|row|])
  {
    hash := before;
    var count := 0;
    assert words + row[..0] == words;
    while count < |row|
      invariant count <= |row| && hash == HashWords(BASIS, words + row[..count])
    {
      HashWordsAppend(BASIS, words + row[..count], row[count]);
      assert words + row[..count+1] == words + row[..count] + [row[count]];
      hash := HashU64(hash, row[count]);
      count := count + 1;
    }
    assert row[..count] == row;
    HashWordsAppend(BASIS, words + row, count);
    hash := HashU64(hash, count);
  }

  /** sidecarPayloadHash. */
  method HashPayload(offsets: seq<Word>, records: seq<Word>) returns (hash: Word)
    requires |offsets| < Arithmetic.UINT64_LIMIT && |records| < Arithmetic.UINT64_LIMIT
    ensures hash == PayloadHash(offsets, records)
  {
    hash := HashAll(BASIS, [|offsets|], []);
    hash := HashAll(hash, offsets, [] + [|offsets|]);
    hash := HashAll(hash, [|records|], [] + [|offsets|] + offsets);
    hash := HashAll(hash, records, [] + [|offsets|] + offsets + [|records|]);
    assert [] + [|offsets|] + offsets + [|records|] + records == PayloadWords(offsets, records);
  }

  // ---- The image of a file ----

  ghost predicate HeaderFits(h: Header) { Fit([h.magic], 8) && Fit(Narrow(h), 4) && Fit(Wide(h), 8) }

  function Narrow(h: Header): seq<nat> {
    [h.version, h.builderVersion, h.recordBytes, h.push, h.perLine, h.epochs, h.lineMin, h.hotPpm, h.vertices,
      h.reserved]
  }

  function Wide(h: Header): seq<nat> { [h.edges, h.offsetCount, h.recordCount, h.graphHash, h.payloadHash] }

  function HeaderBytes(h: Header): (bytes: seq<Byte>)
    ensures |bytes| == HEADER_BYTES
  {
    Words([h.magic], 8) + Words(Narrow(h), 4) + Words(Wide(h), 8)
  }

  ghost predicate At(bytes: seq<Byte>, offset: nat, width: nat, value: nat) {
    offset + width <= |bytes| && bytes[offset..offset + width] == Le(value, width)
  }

  lemma PartAt(before: seq<Byte>, values: seq<nat>, after: seq<Byte>, width: nat, i: nat)
    requires i < |values|
    ensures 0 <= i * width && At(before + Words(values, width) + after, |before| + i * width, width, values[i])
  {
    WordAt(values, width, i);
    SliceOfPart(before, Words(values, width), after, i * width, width);
  }

  lemma SliceOfPart(a: seq<Byte>, b: seq<Byte>, c: seq<Byte>, i: nat, k: nat)
    requires i + k <= |b|
    ensures (a + b + c)[|a| + i..|a| + i + k] == b[i..i+k]
  {
  }

  /** Where the fields of the header lie in the file. */
  lemma HeaderFields(h: Header)
    ensures var bytes := HeaderBytes(h);
      && At(bytes, 0, 8, h.magic) && At(bytes, 8, 4, h.version) && At(bytes, 12, 4, h.builderVersion)
      && At(bytes, 16, 4, h.recordBytes) && At(bytes, 20, 4, h.push) && At(bytes, 24, 4, h.perLine)
      && At(bytes, 28, 4, h.epochs) && At(bytes, 32, 4, h.lineMin) && At(bytes, 36, 4, h.hotPpm)
      && At(bytes, 40, 4, h.vertices) && At(bytes, 44, 4, h.reserved) && At(bytes, 48, 8, h.edges)
      && At(bytes, 56, 8, h.offsetCount) && At(bytes, 64, 8, h.recordCount) && At(bytes, 72, 8, h.graphHash)
      && At(bytes, 80, 8, h.payloadHash)
  {
    PartAt([], [h.magic], Words(Narrow(h), 4) + Words(Wide(h), 8), 8, 0);
    assert HeaderBytes(h) == [] + Words([h.magic], 8) + (Words(Narrow(h), 4) + Words(Wide(h), 8));
    NarrowFields(h);
    WideFields(h);
  }

  lemma NarrowFields(h: Header)
    ensures var bytes := HeaderBytes(h);
      && At(bytes, 8, 4, h.version) && At(bytes, 12, 4, h.builderVersion)
      && At(bytes, 16, 4, h.recordBytes) && At(bytes, 20, 4, h.push) && At(bytes, 24, 4, h.perLine)
      && At(bytes, 28, 4, h.epochs) && At(bytes, 32, 4, h.lineMin) && At(bytes, 36, 4, h.hotPpm)
      && At(bytes, 40, 4, h.vertices) && At(bytes, 44, 4, h.reserved)
  {
    var fields := Narrow(h);
    forall i | 0 <= i < 10 ensures At(HeaderBytes(h), 8 + i * 4, 4, fields[i]) {
      PartAt(Words([h.magic], 8), fields, Words(Wide(h), 8), 4, i);
    }
    assert fields[0] == h.version && fields[1] == h.builderVersion && fields[2] == h.recordBytes;
    assert fields[3] == h.push && fields[4] == h.perLine && fields[5] == h.epochs && fields[6] == h.lineMin;
    assert fields[7] == h.hotPpm && fields[8] == h.vertices && fields[9] == h.reserved;
  }

  lemma WideFields(h: Header)
    ensures var bytes := HeaderBytes(h);
      && At(bytes, 48, 8, h.edges) && At(bytes, 56, 8, h.offsetCount) && At(bytes, 64, 8, h.recordCount)
      && At(bytes, 72, 8, h.graphHash) && At(bytes, 80, 8, h.payloadHash)
  {
    var fields, before := Wide(h), Words([h.magic], 8) + Words(Narrow(h), 4);
    assert HeaderBytes(h) == before + Words(fields, 8) + [];
    forall i | 0 <= i < 5 ensures At(HeaderBytes(h), 48 + i * 8, 8, fields[i]) {
      PartAt(before, fields, [], 8, i);
    }
    assert fields[0] == h.edges && fields[1] == h.offsetCount && fields[2] == h.recordCount;
    assert fields[3] == h.graphHash && fields[4] == h.payloadHash;
  }

  function ParseHeader(bytes: seq<Byte>): Header
    requires |bytes| == HEADER_BYTES
  {
    var a, b, c := Unwords(bytes[..8], 8, 1), Unwords(bytes[8..48], 4, 10), Unwords(bytes[48..], 8, 5);
    Header(a[0], b[0], b[1], b[2], b[3], b[4], b[5], b[6], b[7], b[8], b[9], c[0], c[1], c[2], c[3], c[4])
  }

  lemma ParseOfHeader(h: Header)
    requires HeaderFits(h)
    ensures ParseHeader(HeaderBytes(h)) == h
  {
    var bytes := HeaderBytes(h);
    PartsOfConcat(Words([h.magic], 8), Words(Narrow(h), 4), Words(Wide(h), 8));
    UnwordsOfWords([h.magic], 8);
    UnwordsOfWords(Narrow(h), 4);
    UnwordsOfWords(Wide(h), 8);
  }

  lemma ThreeParts(bytes: seq<Byte>, i: nat, j: nat)
    requires i <= j <= |bytes|
    ensures bytes == bytes[..i] + bytes[i..j] + bytes[j..]
  {
  }

  lemma PartsOfConcat(a: seq<Byte>, b: seq<Byte>, c: seq<Byte>)
    ensures var bytes := a + b + c; var i, j := |a|, |a| + |b|;
      bytes[..i] == a && bytes[i..j] == b && bytes[j..] == c && |bytes| == j + |c|
  {
  }

  lemma ParsedLists(bytes: seq<Byte>)
    requires |bytes| == HEADER_BYTES
    ensures var h := ParseHeader(bytes);
      && [h.magic] == Unwords(bytes[..8], 8, 1) && Narrow(h) == Unwords(bytes[8..48], 4, 10)
      && Wide(h) == Unwords(bytes[48..], 8, 5)
  {
  }

  lemma HeaderOfParse(bytes: seq<Byte>)
    requires |bytes| == HEADER_BYTES
    ensures HeaderBytes(ParseHeader(bytes)) == bytes
  {
    ParsedLists(bytes);
    WordsOfUnwords(bytes[..8], 8, 1);
    WordsOfUnwords(bytes[8..48], 4, 10);
    WordsOfUnwords(bytes[48..], 8, 5);
    ThreeParts(bytes, 8, 48);
  }

  function Image(h: Header, offsets: seq<nat>, records: seq<nat>, recordBytes: nat): seq<Byte> {
    HeaderBytes(h) + Words(offsets, 8) + Words(records, recordBytes)
  }

  /** Where the offsets and the records lie: behind the 88 bytes of the header, end to end. */
  lemma ImageFields(h: Header, offsets: seq<nat>, records: seq<nat>, recordBytes: nat, i: nat)
    ensures var image, start := Image(h, offsets, records, recordBytes), 88 + |offsets| * 8;
      && (i < |offsets| ==> At(image, 88 + i * 8, 8, offsets[i]))
      && (i < |records| ==> 0 <= i * recordBytes && At(image, start + i * recordBytes, recordBytes, records[i]))
  {
    var before := HeaderBytes(h) + Words(offsets, 8);
    assert before + Words(records, recordBytes) == before + Words(records, recordBytes) + [];
    if i < |offsets| {
      PartAt(HeaderBytes(h), offsets, Words(records, recordBytes), 8, i);
    }
    if i < |records| {
      PartAt(before, records, [], recordBytes, i);
    }
  }

  function PayloadStart(vertices: nat): nat { HEADER_BYTES + (vertices + 1) * 8 }

  function FileSize(vertices: nat, edges: nat, recordBytes: nat): (size: nat)
    ensures size >= PayloadStart(vertices) && size - PayloadStart(vertices) == edges * recordBytes
  {
    PayloadStart(vertices) + edges * recordBytes
  }

  function ParseOffsets(image: seq<Byte>, vertices: nat): seq<nat>
    requires |image| >= PayloadStart(vertices)
  {
    Unwords(image[HEADER_BYTES..PayloadStart(vertices)], 8, vertices + 1)
  }

  function ParseRecords(image: seq<Byte>, vertices: nat, edges: nat, recordBytes: nat): seq<nat>
    requires |image| == FileSize(vertices, edges, recordBytes)
  {
    Unwords(image[PayloadStart(vertices)..], recordBytes, edges)
  }

  lemma SplitImage(h: Header, offsets: seq<nat>, records: seq<nat>, recordBytes: nat, vertices: nat)
    requires |offsets| == vertices + 1
    ensures var image := Image(h, offsets, records, recordBytes);
      && |image| == FileSize(vertices, |records|, recordBytes) && image[..HEADER_BYTES] == HeaderBytes(h)
      && image[HEADER_BYTES..PayloadStart(vertices)] == Words(offsets, 8)
      && image[PayloadStart(vertices)..] == Words(records, recordBytes)
  {
    PartsOfConcat(HeaderBytes(h), Words(offsets, 8), Words(records, recordBytes));
  }

  /** Reading an image back gives what was written. */
  lemma ParseOfImage(h: Header, offsets: seq<nat>, records: seq<nat>, recordBytes: nat, vertices: nat)
    requires HeaderFits(h) && Fit(offsets, 8) && Fit(records, recordBytes) && |offsets| == vertices + 1
    ensures var image := Image(h, offsets, records, recordBytes);
      && |image| == FileSize(vertices, |records|, recordBytes) && ParseHeader(image[..HEADER_BYTES]) == h
      && ParseOffsets(image, vertices) == offsets && ParseRecords(image, vertices, |records|, recordBytes) == records
  {
    SplitImage(h, offsets, records, recordBytes, vertices);
    ParseOfHeader(h);
    UnwordsOfWords(offsets, 8);
    UnwordsOfWords(records, recordBytes);
  }

  lemma OffsetsOfParse(image: seq<Byte>, vertices: nat)
    requires |image| >= PayloadStart(vertices)
    ensures var offsets := ParseOffsets(image, vertices);
      Fit(offsets, 8) && Words(offsets, 8) == image[HEADER_BYTES..PayloadStart(vertices)]
  {
    WordsOfUnwords(image[HEADER_BYTES..PayloadStart(vertices)], 8, vertices + 1);
  }

  lemma RecordsOfParse(image: seq<Byte>, vertices: nat, edges: nat, recordBytes: nat)
    requires |image| == FileSize(vertices, edges, recordBytes)
    ensures var records := ParseRecords(image, vertices, edges, recordBytes);
      Fit(records, recordBytes) && Words(records, recordBytes) == image[PayloadStart(vertices)..]
  {
    WordsOfUnwords(image[PayloadStart(vertices)..], recordBytes, edges);
  }

  /** Any bytes of the right length are the image of what is read from them. */
  lemma ImageOfParse(image: seq<Byte>, vertices: nat, edges: nat, recordBytes: nat)
    requires |image| == FileSize(vertices, edges, recordBytes)
    ensures var offsets, records := ParseOffsets(image, vertices), ParseRecords(image, vertices, edges, recordBytes);
      && Fit(offsets, 8) && Fit(records, recordBytes)
      && image == Image(ParseHeader(image[..HEADER_BYTES]), offsets, records, recordBytes)
  {
    HeaderOfParse(image[..HEADER_BYTES]);
    OffsetsOfParse(image, vertices);
    RecordsOfParse(image, vertices, edges, recordBytes);
    ThreeParts(image, HEADER_BYTES, PayloadStart(vertices));
  }
}
