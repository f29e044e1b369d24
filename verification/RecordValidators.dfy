/** The validators of the builder: each accepts exactly what its stream is supposed to be. */
module RecordValidators {
  import Common
  import Arithmetic
  import opened WireFormat
  import SidecarLoader
  import opened ShortestPaths
  import opened CompactSssp

  // ---- Records against the graph ----

  /** The walk over one vertex's records. */
  method RowListed(records: seq<nat>, start: nat, end: nat, row: seq<nat>) returns (ok: bool)
    ensures ok <==> SidecarLoader.RowFits(records, start, end, row, IDS) || (row == [] && start == end)
  {
    var k := 0;
    while k < |row|
      invariant k <= |row| && forall j | 0 <= j < k :: SidecarLoader.RecordMatches(records, start + j, end, IDS, row[j])
    {
      if !SidecarLoader.RecordMatches(records, start + k, end, IDS, row[k]) {
        return false;
      }
      k := k + 1;
    }
    ok := start + k == end;
    assert k > 0 ==> SidecarLoader.RecordMatches(records, start + (k - 1), end, IDS, row[k-1]);
  }

  /** The offsets before u cannot exceed the number of records when they ascend to it. */
  lemma {:induction false} OffsetsBelow(offsets: seq<nat>, u: nat, n: nat)
    requires u <= n < |offsets| && forall v | u <= v < n :: offsets[v] <= offsets[v+1]
    ensures offsets[u] <= offsets[n]
    decreases n - u
  {
    if u < n {
      OffsetsBelow(offsets, u + 1, n);
    }
  }

  ghost predicate RowAccepted(offsets: seq<nat>, records: seq<nat>, adj: seq<seq<nat>>, u: nat)
    requires u < |adj| && u + 1 < |offsets|
  {
    SidecarLoader.RowFits(records, offsets[u], offsets[u+1], adj[u], IDS)
      || (adj[u] == [] && offsets[u] == offsets[u+1])
  }

  lemma AcceptedLists(offsets: seq<nat>, records: seq<nat>, adj: seq<seq<nat>>)
    requires |offsets| == |adj| + 1 && offsets[0] == 0 && offsets[|adj|] == |records|
    ensures (forall u | 0 <= u < |adj| :: RowAccepted(offsets, records, adj, u))
      <==> SidecarLoader.Lists(offsets, records, adj, IDS)
  {
    if forall u | 0 <= u < |adj| :: RowAccepted(offsets, records, adj, u) {
      forall u | 0 <= u < |adj| ensures SidecarLoader.RowFits(records, offsets[u], offsets[u+1], adj[u], IDS) {
        forall v | 0 <= v < |adj| ensures offsets[v] <= offsets[v+1] {
          assert RowAccepted(offsets, records, adj, v);
        }
        OffsetsBelow(offsets, u + 1, |adj|);
        assert RowAccepted(offsets, records, adj, u);
      }
    }
  }

  /** validateWeightedReusePlanRecords: the records list the destinations of the graph's edges in order. */
  method ValidateRecords(adj: seq<seq<nat>>, offsets: seq<nat>, records: seq<nat>) returns (ok: bool)
    ensures ok <==> SidecarLoader.Lists(offsets, records, adj, IDS)
  {
    if |offsets| != |adj| + 1 || offsets[0] != 0 || offsets[|adj|] != |records| {
      return false;
    }
    AcceptedLists(offsets, records, adj);
    var src := 0;
    while src < |adj|
      invariant src <= |adj| && forall u | 0 <= u < src :: RowAccepted(offsets, records, adj, u)
    {
      ok := RowListed(records, offsets[src], offsets[src+1], adj[src]);
      if !ok {
        assert !RowAccepted(offsets, records, adj, src);
        return;
      }
      src := src + 1;
    }
    ok := true;
  }

  // ---- Sidecar words against their records ----

  lemma FieldsOfHalf(y: nat, q: nat)
    requires q > 0 && y < 4 * (q * q)
    ensures Above(y % 4 % 4, Above(y / 4 % q % q, y / 4 / q % q % q, q), 4) == y
  {
    var z := y / 4;
    Arithmetic.DivBelow(y, 4, q * q);
    Arithmetic.DivBelow(z, q, q);
    ModBound(z, q);
    RemainderSmall(z / q, q);
    DivideBack(z, q);
    AboveIs(z % q, z / q, q);
    AboveIs(y % 4, z, 4);
  }

  lemma DivideBack(z: nat, q: nat)
    requires q > 0
    ensures z % q + z / q * q == z
  {
  }

  /** A word is the record's sidecar exactly when it recombines with the destination to the record. */
  lemma SidecarIffRecombines(word: nat, sidecar: nat)
    requires word < Arithmetic.UINT64_LIMIT
    ensures sidecar == PackSidecar(Tier(word, IDS), First(word, IDS, EPOCHS), Second(word, IDS, EPOCHS))
      <==> Combine(Dest(word, IDS), sidecar) == word
  {
    FieldsOfHalf(word / IDS, EPOCHS);
    Recombine(word, sidecar, IDS);
  }

  lemma Recombine(word: nat, high: nat, p: nat)
    requires p > 0
    ensures high == word / p <==> Above(word % p % p, high, p) == word
  {
    ModBound(word, p);
    AboveIs(word % p, high, p);
    Arithmetic.QuotientRemainder(word % p, high, p);
  }

  ghost predicate SidecarsMatch(offsets: seq<nat>, records: seq<nat>, sidecars: seq<nat>) {
    && |records| == |sidecars| && offsets != [] && offsets[|offsets|-1] == |records|
    && forall i | 0 <= i < |records| :: Recombines(records[i], sidecars[i])
  }

  ghost predicate Recombines(record: nat, sidecar: nat) { Combine(Dest(record, IDS), sidecar) == record }

  method CheckSidecar(record: nat, sidecar: nat) returns (ok: bool)
    requires record < Arithmetic.UINT64_LIMIT
    ensures ok <==> Recombines(record, sidecar)
  {
    SidecarIffRecombines(record, sidecar);
    ok := sidecar == PackSidecar(Tier(record, IDS), First(record, IDS, EPOCHS), Second(record, IDS, EPOCHS));
  }

  /** validateWeightedReusePlanSidecars: every sidecar word gives its record back. */
  method ValidateSidecars(offsets: seq<nat>, records: seq<nat>, sidecars: seq<nat>) returns (ok: bool)
    requires forall i | 0 <= i < |records| :: records[i] < Arithmetic.UINT64_LIMIT
    ensures ok <==> SidecarsMatch(offsets, records, sidecars)
  {
    if |records| != |sidecars| || |offsets| == 0 || offsets[|offsets|-1] != |records| {
      return false;
    }
    var i := 0;
    while i < |records|
      invariant i <= |records|
      invariant forall j | 0 <= j < i :: Recombines(records[j], sidecars[j])
    {
      ok := CheckSidecar(records[i], sidecars[i]);
      if !ok {
        return;
      }
      i := i + 1;
    }
    ok := true;
  }

  // ---- Compact weighted records against edges and wide records ----

  predicate EdgeCarried(g: WGraph, e: Edge, compact: seq<nat>, pairs: seq<nat>, pos: nat, end: nat)
    requires |compact| == |pairs|
  {
    pos < end && pos < |compact| && Packable(g, e) && Carries(compact[pos], e, pairs[pos])
  }

  ghost predicate RowCarried(g: WGraph, row: seq<Edge>, compact: seq<nat>, pairs: seq<nat>, start: nat, end: nat)
    requires |compact| == |pairs|
  {
    start + |row| == end && forall k | 0 <= k < |row| :: EdgeCarried(g, row[k], compact, pairs, start + k, end)
  }

  method CheckRowCarried(g: WGraph, row: seq<Edge>, compact: seq<nat>, pairs: seq<nat>, start: nat, end: nat)
    returns (ok: bool)
    requires |compact| == |pairs|
    ensures ok <==> RowCarried(g, row, compact, pairs, start, end)
  {
    var k := 0;
    while k < |row|
      invariant k <= |row| && forall j | 0 <= j < k :: EdgeCarried(g, row[j], compact, pairs, start + j, end)
    {
      if !EdgeCarried(g, row[k], compact, pairs, start + k, end) {
        return false;
      }
      k := k + 1;
    }
    ok := start + k == end;
  }

  ghost predicate CompactStream(g: WGraph, off: seq<nat>, pairs: seq<nat>, compact: seq<nat>) {
    && g.N() <= COMPACT_MAX_VERTICES && |pairs| == |compact| && Common.RowOffsets(g.out, off) && off[g.N()] == |compact|
    && (forall u, k | 0 <= u < g.N() && 0 <= k < |g.out[u]| :: Packable(g, g.out[u][k]))
    && CompactOk(g, off, pairs, compact)
  }

  /** validateCompactWeightedReusePlanRecords: every edge fits, and the record at its position carries
      the edge and the plan of the wide record there. */
  method ValidateCompact(g: WGraph, off: seq<nat>, pairs: seq<nat>, compact: seq<nat>) returns (ok: bool)
    ensures ok <==> CompactStream(g, off, pairs, compact)
  {
    if g.N() > COMPACT_MAX_VERTICES || |pairs| != |compact| || |off| != g.N() + 1 || off[0] != 0
      || off[g.N()] != |compact| {
      return false;
    }
    CarriedRows(g, off, pairs, compact);
    var src := 0;
    while src < g.N()
      invariant src <= g.N()
      invariant forall u | 0 <= u < src :: RowCarried(g, g.out[u], compact, pairs, off[u], off[u+1])
    {
      ok := CheckRowCarried(g, g.out[src], compact, pairs, off[src], off[src+1]);
      if !ok {
        return;
      }
      src := src + 1;
    }
    ok := true;
  }

  lemma CarriedRows(g: WGraph, off: seq<nat>, pairs: seq<nat>, compact: seq<nat>)
    requires |off| == g.N() + 1 && off[0] == 0 && off[g.N()] == |compact| == |pairs|
    ensures (forall u | 0 <= u < g.N() :: RowCarried(g, g.out[u], compact, pairs, off[u], off[u+1])) <==>
      && Common.RowOffsets(g.out, off)
      && (forall u, k | 0 <= u < g.N() && 0 <= k < |g.out[u]| :: Packable(g, g.out[u][k]))
      && CompactOk(g, off, pairs, compact)
  {
    if forall u | 0 <= u < g.N() :: RowCarried(g, g.out[u], compact, pairs, off[u], off[u+1]) {
      CarriedIsCompact(g, off, pairs, compact);
    } else if Common.RowOffsets(g.out, off)
      && (forall u, k | 0 <= u < g.N() && 0 <= k < |g.out[u]| :: Packable(g, g.out[u][k]))
              && CompactOk(g, off, pairs, compact) {
      forall u | 0 <= u < g.N() ensures RowCarried(g, g.out[u], compact, pairs, off[u], off[u+1]) {
        CompactIsCarried(g, off, pairs, compact, u);
      }
    }
  }

  lemma CarriedIsCompact(g: WGraph, off: seq<nat>, pairs: seq<nat>, compact: seq<nat>)
    requires |off| == g.N() + 1 && off[0] == 0 && off[g.N()] == |compact| == |pairs|
    requires forall u | 0 <= u < g.N() :: RowCarried(g, g.out[u], compact, pairs, off[u], off[u+1])
    ensures Common.RowOffsets(g.out, off) && CompactOk(g, off, pairs, compact)
    ensures forall u, k | 0 <= u < g.N() && 0 <= k < |g.out[u]| :: Packable(g, g.out[u][k])
  {
    forall u | 0 <= u < g.N() ensures off[u+1] == off[u] + |g.out[u]| {
      assert RowCarried(g, g.out[u], compact, pairs, off[u], off[u+1]);
    }
    forall u, v | 0 <= u <= v <= g.N() ensures off[u] <= off[v] {
      OffsetsBelow(off, u, v);
    }
    forall u | 0 <= u < g.N()
      ensures RowCarries(g.out[u], compact, pairs, off[u], |g.out[u]|)
      ensures forall k | 0 <= k < |g.out[u]| :: Packable(g, g.out[u][k])
    {
      assert RowCarried(g, g.out[u], compact, pairs, off[u], off[u+1]);
      assert off[u+1] <= off[g.N()];
      forall k | 0 <= k < |g.out[u]|
        ensures Carries(compact[off[u] + k], g.out[u][k], pairs[off[u] + k]) && Packable(g, g.out[u][k])
      {
        assert EdgeCarried(g, g.out[u][k], compact, pairs, off[u] + k, off[u+1]);
      }
    }
  }

  lemma CompactIsCarried(g: WGraph, off: seq<nat>, pairs: seq<nat>, compact: seq<nat>, u: nat)
    requires Common.RowOffsets(g.out, off) && off[g.N()] == |compact| == |pairs| && u < g.N()
      && CompactOk(g, off, pairs, compact)
    requires forall k | 0 <= k < |g.out[u]| :: Packable(g, g.out[u][k])
    ensures RowCarried(g, g.out[u], compact, pairs, off[u], off[u+1])
  {
    assert off[u+1] <= off[g.N()];
    assert RowCarries(g.out[u], compact, pairs, off[u], |g.out[u]|);
    forall k | 0 <= k < |g.out[u]| ensures EdgeCarried(g, g.out[u][k], compact, pairs, off[u] + k, off[u+1]) {
      assert Carries(compact[off[u] + k], g.out[u][k], pairs[off[u] + k]);
    }
  }
}
