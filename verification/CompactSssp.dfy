/** Label-correcting SSSP fed from packed compact records instead of CSR edges. */
module CompactSssp {
  import Common
  import opened ShortestPaths
  import opened WireFormat
  import LabelCorrecting

  predicate Packable(g: WGraph, e: Edge): (fits: bool)
    ensures fits <==> g.N() <= 0x100_0000 && e.v < 0x100_0000 && 1 <= e.w <= 255
  {
    CanPackWeighted(g.N(), e.v, e.w)
  }

  /** The record holds the edge and the plan fields of the wide record at its position. */
  predicate Carries(word: nat, e: Edge, pair: nat) {
    && WeightedDest(word) == e.v && WeightedWeight(word) == e.w
    && Tier(word, IDS) == Tier(pair, IDS) && First(word, IDS, EPOCHS) == First(pair, IDS, EPOCHS)
    && Second(word, IDS, EPOCHS) == Second(pair, IDS, EPOCHS)
  }

  lemma Parts(x: nat, p: nat)
    requires p > 0
    ensures Above(x % p, x / p, p) == x
  {
    AboveIs(x % p, x / p, p);
  }

  /** The plan half of a word is made of its three fields. */
  lemma PlanHalf(y: nat)
    requires y < 4 * (EPOCHS * EPOCHS)
    ensures Above(y % 4, Above(y / 4 % EPOCHS, y / 4 / EPOCHS % EPOCHS, EPOCHS), 4) == y
  {
    RemainderSmall(y / 4 / EPOCHS, EPOCHS);
    Parts(y / 4, EPOCHS);
    Parts(y, 4);
  }

  lemma EdgeHalf(x: nat)
    requires x < IDS
    ensures Above(x % COMPACT_MAX_VERTICES, x / COMPACT_MAX_VERTICES % 256, COMPACT_MAX_VERTICES) == x
  {
    RemainderSmall(x / COMPACT_MAX_VERTICES, 256);
    Parts(x, COMPACT_MAX_VERTICES);
  }

  /** A 64-bit word carries a packable edge exactly when it is the one record the packing loop makes of it. */
  lemma CarriesIffPacked(g: WGraph, word: nat, e: Edge, pair: nat)
    requires word < 0x1_0000_0000_0000_0000 && Packable(g, e)
    ensures Carries(word, e, pair) <==>
      word == PackWeighted(e.v, e.w, Tier(pair, IDS), First(pair, IDS, EPOCHS), Second(pair, IDS, EPOCHS))
  {
    var t, f, s := Tier(pair, IDS), First(pair, IDS, EPOCHS), Second(pair, IDS, EPOCHS);
    RemainderSmall(t, 4);
    RemainderSmall(f, EPOCHS);
    RemainderSmall(s, EPOCHS);
    WeightedRoundTrip(e.v, e.w, t, f, s);
    if Carries(word, e, pair) {
      WordOfFields(word, e.v, e.w, t, f, s);
    }
  }

  lemma WordOfFields(word: nat, v: nat, w: nat, t: nat, f: nat, s: nat)
    requires word < 0x1_0000_0000_0000_0000 && v < COMPACT_MAX_VERTICES && w < 256
    requires v == WeightedDest(word) && w == WeightedWeight(word)
    requires t == Tier(word, IDS) && f == First(word, IDS, EPOCHS) && s == Second(word, IDS, EPOCHS)
    ensures word == PackWeighted(v, w, t, f, s)
  {
    var low, high := word % IDS, word / IDS;
    EdgeHalf(low);
    PlanHalf(high);
    Parts(word, IDS);
    RemainderSmall(v, COMPACT_MAX_VERTICES);
    RemainderSmall(w, 256);
    RemainderSmall(low, IDS);
    RemainderSmall(t, 4);
    RemainderSmall(f, EPOCHS);
    RemainderSmall(s, EPOCHS);
  }

  ghost predicate RowCarries(row: seq<Edge>, compact: seq<nat>, pairs: seq<nat>, start: nat, k: nat)
    requires k <= |row|
  {
    && start + k <= |compact| && start + k <= |pairs|
    && forall j | 0 <= j < k :: Carries(compact[start + j], row[j], pairs[start + j])
  }

  ghost predicate CompactOk(g: WGraph, off: seq<nat>, pairs: seq<nat>, compact: seq<nat>)
    requires Common.RowOffsets(g.out, off)
  {
    forall u | 0 <= u < g.N() :: RowCarries(g.out[u], compact, pairs, off[u], |g.out[u]|)
  }

  /** The words carry the row's first edges, all of which fit. */
  ghost predicate RowPacked(g: WGraph, row: seq<Edge>, pairs: seq<nat>, start: nat, words: seq<nat>) {
    && |words| <= |row| && start + |row| <= |pairs|
    && forall j | 0 <= j < |words| :: Packable(g, row[j]) && Carries(words[j], row[j], pairs[start + j])
  }

  lemma PackNext(g: WGraph, row: seq<Edge>, pairs: seq<nat>, start: nat, words: seq<nat>, word: nat)
    requires RowPacked(g, row, pairs, start, words) && |words| < |row|
    requires Packable(g, row[|words|]) && Carries(word, row[|words|], pairs[start + |words|])
    ensures RowPacked(g, row, pairs, start, words + [word])
  {
  }

  /** The record built for one edge from its wide record. */
  method PackWord(g: WGraph, e: Edge, pair: nat) returns (word: nat)
    requires Packable(g, e)
    ensures Carries(word, e, pair)
  {
    var t, f, s := Tier(pair, IDS), First(pair, IDS, EPOCHS), Second(pair, IDS, EPOCHS);
    RemainderSmall(t, 4);
    RemainderSmall(f, EPOCHS);
    RemainderSmall(s, EPOCHS);
    WeightedRoundTrip(e.v, e.w, t, f, s);
    word := PackWeighted(e.v, e.w, t, f, s);
  }

  /** One row of the compact stream; stops at the first edge that does not fit. */
  method PackRow(g: WGraph, u: nat, pairs: seq<nat>, start: nat) returns (ok: bool, words: seq<nat>)
    requires u < g.N() && start + |g.out[u]| <= |pairs|
    ensures ok <==> forall j | 0 <= j < |g.out[u]| :: Packable(g, g.out[u][j])
    ensures ok ==> |words| == |g.out[u]| && RowPacked(g, g.out[u], pairs, start, words)
  {
    ok, words := true, [];
    while |words| < |g.out[u]|
      invariant ok && RowPacked(g, g.out[u], pairs, start, words)
      decreases |g.out[u]| - |words|
    {
      var e, pair := g.out[u][|words|], pairs[start + |words|];
      if !Packable(g, e) {
        ok := false;
        return;
      }
      var word := PackWord(g, e, pair);
      PackNext(g, g.out[u], pairs, start, words, word);
      words := words + [word];
    }
  }

  /** The records of the rows before src. */
  ghost predicate RowsPacked(g: WGraph, off: seq<nat>, pairs: seq<nat>, compact: seq<nat>, src: nat)
    requires Common.RowOffsets(g.out, off) && src <= g.N()
  {
    && |compact| == off[src]
    && forall u | 0 <= u < src :: RowCarries(g.out[u], compact, pairs, off[u], |g.out[u]|)
         && forall j | 0 <= j < |g.out[u]| :: Packable(g, g.out[u][j])
  }

  lemma RowsGrow(g: WGraph, off: seq<nat>, pairs: seq<nat>, compact: seq<nat>, src: nat, words: seq<nat>)
    requires Common.RowOffsets(g.out, off) && src < g.N() && RowsPacked(g, off, pairs, compact, src)
    requires |words| == |g.out[src]| && RowPacked(g, g.out[src], pairs, off[src], words)
    ensures RowsPacked(g, off, pairs, compact + words, src + 1)
  {
    forall u | 0 <= u < src + 1
      ensures RowCarries(g.out[u], compact + words, pairs, off[u], |g.out[u]|)
      ensures forall j | 0 <= j < |g.out[u]| :: Packable(g, g.out[u][j])
    {
      if u < src {
        assert RowCarries(g.out[u], compact, pairs, off[u], |g.out[u]|);
      }
    }
  }

  /** The packing loop of run_sssp: it succeeds exactly when every edge fits. */
  method PackCompact(g: WGraph, off: seq<nat>, pairs: seq<nat>) returns (ok: bool, compact: seq<nat>)
    requires Common.RowOffsets(g.out, off) && |pairs| == off[g.N()]
    ensures ok <==>
      && g.N() <= COMPACT_MAX_VERTICES
      && forall u, j | 0 <= u < g.N() && 0 <= j < |g.out[u]| :: Packable(g, g.out[u][j])
    ensures ok ==> |compact| == |pairs| && CompactOk(g, off, pairs, compact)
    ensures !ok ==> compact == []
  {
    ok, compact := g.N() <= COMPACT_MAX_VERTICES, [];
    var src := 0;
    while ok && src < g.N()
      invariant src <= g.N() && (ok <==> g.N() <= COMPACT_MAX_VERTICES)
      invariant if ok then RowsPacked(g, off, pairs, compact, src) else compact == []
    {
      assert off[src + 1] <= off[g.N()];
      var fits, words := PackRow(g, src, pairs, off[src]);
      if !fits {
        return false, [];
      }
      RowsGrow(g, off, pairs, compact, src, words);
      compact := compact + words;
      src := src + 1;
    }
  }

  /** relax_compact_edges reads its edges from the records of the row. */
  method DecodeRow(compact: seq<nat>, start: nat, stop: nat) returns (edges: seq<Edge>)
    requires start <= stop <= |compact|
    ensures |edges| == stop - start
    ensures forall j | 0 <= j < |edges| ::
      edges[j] == Edge(WeightedDest(compact[start + j]), WeightedWeight(compact[start + j]))
  {
    edges := [];
    var pos := start;
    while pos < stop
      invariant start <= pos <= stop && |edges| == pos - start
      invariant forall j | 0 <= j < |edges| ::
        edges[j] == Edge(WeightedDest(compact[start + j]), WeightedWeight(compact[start + j]))
    {
      edges := edges + [Edge(WeightedDest(compact[pos]), WeightedWeight(compact[pos]))];
      pos := pos + 1;
    }
  }

  method DecodeRows(g: WGraph, off: seq<nat>, ghost pairs: seq<nat>, compact: seq<nat>) returns (rows: seq<seq<Edge>>)
    requires Common.RowOffsets(g.out, off) && CompactOk(g, off, pairs, compact)
    ensures rows == g.out
  {
    rows := [];
    while |rows| < g.N()
      invariant |rows| <= g.N() && rows == g.out[..|rows|]
      decreases g.N() - |rows|
    {
      var u := |rows|;
      assert RowCarries(g.out[u], compact, pairs, off[u], |g.out[u]|);
      var row := DecodeRow(compact, off[u], off[u+1]);
      assert row == g.out[u];
      rows := rows + [row];
    }
  }

  /** run_sssp: the compact records, when they can be built, give the distances the CSR edges give. */
  method RunSssp(g: WGraph, s: nat, off: seq<nat>, pairs: seq<nat>, fused: bool) returns (dist: seq<nat>)
    requires g.Valid() && s < g.N() && Common.RowOffsets(g.out, off) && |pairs| == off[g.N()]
    ensures Exact(g, s, dist)
  {
    var compactOk, compact := PackCompact(g, off, pairs);
    if fused && compactOk {
      var rows := DecodeRows(g, off, pairs, compact);
      dist := LabelCorrecting.Run(g, s, rows);
    } else {
      dist := LabelCorrecting.Run(g, s, g.out);
    }
  }
}
