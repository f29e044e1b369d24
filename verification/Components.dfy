/** The sequential connected-components kernels: Afforest (link, compress, skip the largest
    component) and Shiloach-Vishkin (hook, compress, repeat). Both compute component minima. */
module Components {
  import opened Graphs
  import opened Forests

  // ---- Link ----

  lemma HookIsJoin(c: seq<nat>, u: nat, v: nat, h: nat, l: nat)
    requires Forest(c) && l < h < |c| && c[h] == h && Matched(Roots(c), u, v, h, l)
    ensures Forest(c[h := l]) && Roots(c[h := l]) == Join(Roots(c), u, v)
  {
    HookRoots(c, h, l);
    assert Merge(Roots(c), h, l) == Join(Roots(c), u, v);
  }

  lemma SameRootJoin(r: seq<nat>, u: nat, v: nat)
    requires u < |r| && v < |r| && r[u] == r[v]
    ensures Join(r, u, v) == r
  {
  }

  /** One turn of the link loop on an unchanged array: what each exit and the reloads mean. */
  lemma LinkTurn(c: seq<nat>, u: nat, v: nat, p1: nat, p2: nat)
    requires Forest(c) && Matched(Roots(c), u, v, p1, p2) && p1 != p2
    ensures var high := if p1 > p2 then p1 else p2;
      var low := p1 + p2 - high;
      && low < high && c[high] <= high
      && (c[high] == low ==> Roots(c)[u] == Roots(c)[v])
      && (c[high] < high ==>
            Matched(Roots(c), u, v, c[c[high]], c[low]) && c[c[high]] + c[low] < p1 + p2)
  {
    RootsLabel(c);
    var high := if p1 > p2 then p1 else p2;
    var low := p1 + p2 - high;
    assert c[high] <= high && c[low] <= low && c[c[high]] <= c[high];
  }

  lemma LinkEntry(c: seq<nat>, u: nat, v: nat)
    requires Forest(c) && u < |c| && v < |c|
    ensures Matched(Roots(c), u, v, c[u], c[v])
  {
    RootsLabel(c);
    assert c[u] <= u && c[v] <= v;
  }

  /** The end of the loop: the two vertices share a root, so nothing has to be joined. */
  lemma LinkEnd(c: seq<nat>, u: nat, v: nat, p1: nat, p2: nat)
    requires Forest(c) && Matched(Roots(c), u, v, p1, p2)
    requires p1 == p2 || Roots(c)[u] == Roots(c)[v]
    ensures Join(Roots(c), u, v) == Roots(c)
  {
    SameRootJoin(Roots(c), u, v);
  }

  /** The store that hooks a root; on one thread it needs no compare-and-swap. */
  method StoreRoot(comp: array<nat>, ghost u: nat, ghost v: nat, high: nat, low: nat)
    requires Forest(comp[..]) && low < high < comp.Length && comp[high] == high
    requires Matched(Roots(comp[..]), u, v, high, low)
    modifies comp
    ensures Forest(comp[..]) && Roots(comp[..]) == Join(old(Roots(comp[..])), u, v)
  {
    ghost var c := comp[..];
    HookIsJoin(c, u, v, high, low);
    comp[high] := low;
    assert comp[..] == c[high := low];
  }

  /** cc_link_loaded (and cc_link, which loads comp[v] itself): joins exactly the trees of u and v,
      under the smaller of their roots. */
  method LinkLoaded(u: nat, v: nat, loaded: nat, comp: array<nat>)
    requires Forest(comp[..]) && u < comp.Length && v < comp.Length && loaded == comp[v]
    modifies comp
    ensures Forest(comp[..]) && Roots(comp[..]) == Join(old(Roots(comp[..])), u, v)
  {
    var p1, p2 := comp[u], loaded;
    ghost var c := comp[..];
    LinkEntry(c, u, v);
    while p1 != p2
      invariant comp[..] == c && Matched(Roots(c), u, v, p1, p2)
      decreases p1 + p2
    {
      var high := if p1 > p2 then p1 else p2;
      var low := p1 + p2 - high;
      var pHigh := comp[high];
      LinkTurn(c, u, v, p1, p2);
      if pHigh == low {
        break;
      }
      if pHigh == high {
        StoreRoot(comp, u, v, high, low);
        return;
      }
      p1 := comp[comp[high]];
      p2 := comp[low];
    }
    LinkEnd(c, u, v, p1, p2);
  }

  // ---- Compress ----

  lemma ShortcutKeepsRoots(c: seq<nat>, n: nat)
    requires Forest(c) && n < |c| && c[n] != c[c[n]]
    ensures Forest(c[n := c[c[n]]]) && Roots(c[n := c[c[n]]]) == Roots(c)
  {
    var a := c[c[n]];
    assert c[n] <= n && a <= c[n];
    forall x: nat | x < |c| ensures Forest(c[n := a]) && Root(c[n := a], x) == Root(c, x) {
      RedirectRoot(c, n, a, x);
    }
  }

  /** cc_compress: every vertex ends pointing straight at its root. */
  method Compress(comp: array<nat>)
    requires Forest(comp[..])
    modifies comp
    ensures comp[..] == old(Roots(comp[..]))
    ensures Forest(comp[..]) && Roots(comp[..]) == old(Roots(comp[..]))
    ensures forall x | 0 <= x < comp.Length :: comp[x] <= old(comp[x])
  {
    ghost var r := Roots(comp[..]);
    var n := 0;
    while n < comp.Length
      invariant n <= comp.Length && Forest(comp[..]) && Roots(comp[..]) == r
      invariant forall x | 0 <= x < n :: comp[x] == r[x]
      invariant forall x | 0 <= x < comp.Length :: comp[x] <= old(comp[x])
    {
      while comp[n] != comp[comp[n]]
        invariant Forest(comp[..]) && Roots(comp[..]) == r
        invariant forall x | 0 <= x < n :: comp[x] == r[x]
        invariant forall x | 0 <= x < comp.Length :: comp[x] <= old(comp[x])
        decreases comp[n]
      {
        ghost var c := comp[..];
        ShortcutKeepsRoots(c, n);
        comp[n] := comp[comp[n]];
        assert comp[..] == c[n := c[c[n]]];
      }
      assert Root(comp[..], n) == comp[n];
      n := n + 1;
    }
    forall x | 0 <= x < comp.Length ensures Root(comp[..], x) == comp[x] {
    }
  }

  // ---- Afforest ----

  /** u needs no more links: it is in the skipped tree, or joined to its first k neighbours. */
  ghost predicate Settled(g: Graph, r: seq<nat>, u: nat, largest: nat) {
    && u < |r| && largest < |r| && u < g.N()
    && (r[u] == r[largest] || forall v | v in g.out[u] :: v < |r| && r[v] == r[u])
  }

  /** Joining any two vertices keeps every pair that already agreed. */
  ghost predicate Coarser(r: seq<nat>, q: seq<nat>) {
    |q| == |r| && forall x, y | 0 <= x < |r| && 0 <= y < |r| && r[x] == r[y] :: q[x] == q[y]
  }

  lemma JoinCoarser(r: seq<nat>, u: nat, v: nat)
    requires u < |r| && v < |r|
    ensures Coarser(r, Join(r, u, v)) && Join(r, u, v)[u] == Join(r, u, v)[v]
  {
  }

  lemma SettledStays(g: Graph, r: seq<nat>, q: seq<nat>, u: nat, largest: nat)
    requires Settled(g, r, u, largest) && Coarser(r, q)
    ensures Settled(g, q, u, largest)
  {
  }

  ghost predicate Joined(g: Graph, comp: seq<nat>) {
    && |comp| == g.N() && Forest(comp) && SoundLabels(Roots(comp), g.Edges())
  }

  lemma LinkKeepsJoined(g: Graph, c: seq<nat>, d: seq<nat>, u: nat, v: nat)
    requires Joined(g, c) && u < g.N() && v in g.out[u] && v < g.N()
    requires |d| == |c| && Forest(d) && Roots(d) == Join(Roots(c), u, v)
    ensures Joined(g, d) && Coarser(Roots(c), Roots(d)) && Roots(d)[u] == Roots(d)[v]
  {
    JoinIsSound(Roots(c), u, v, g.Edges());
    JoinCoarser(Roots(c), u, v);
  }

  /** The first k vertices are in one tree with their r-th neighbours. */
  ghost predicate SampledUpTo(g: Graph, r: nat, roots: seq<nat>, k: nat)
    requires g.Valid() && |roots| == g.N() && k <= g.N()
  {
    forall u | 0 <= u < k && r < |g.out[u]| :: SampledAt(g, r, roots, u)
  }

  ghost predicate SampledAt(g: Graph, r: nat, roots: seq<nat>, u: nat)
    requires u < g.N() == |roots| && r < |g.out[u]|
  {
    g.out[u][r] < g.N() && roots[u] == roots[g.out[u][r]]
  }

  lemma SampledStays(g: Graph, r: nat, before: seq<nat>, after: seq<nat>, k: nat)
    requires g.Valid() && |before| == |after| == g.N() && k <= g.N()
    requires SampledUpTo(g, r, before, k) && Coarser(before, after)
    ensures SampledUpTo(g, r, after, k)
  {
    forall u | 0 <= u < k && r < |g.out[u]| ensures SampledAt(g, r, after, u) {
      assert SampledAt(g, r, before, u);
    }
  }

  /** One sampling round: link each vertex with its r-th neighbour, then compress. */
  method SampleRound(g: Graph, r: nat, comp: array<nat>)
    requires g.Valid() && Joined(g, comp[..])
    modifies comp
    ensures Joined(g, comp[..]) && comp[..] == Roots(comp[..]) && Coarser(old(Roots(comp[..])), Roots(comp[..]))
    ensures SampledUpTo(g, r, Roots(comp[..]), g.N())
  {
    var u := 0;
    while u < g.N()
      invariant u <= g.N() && Joined(g, comp[..])
      invariant Coarser(old(Roots(comp[..])), Roots(comp[..])) && SampledUpTo(g, r, Roots(comp[..]), u)
    {
      if r < |g.out[u]| {
        SampleOne(g, u, r, comp);
      }
      u := u + 1;
    }
    Compress(comp);
  }

  method SampleOne(g: Graph, u: nat, r: nat, comp: array<nat>)
    requires g.Valid() && Joined(g, comp[..]) && u < g.N() && r < |g.out[u]| && SampledUpTo(g, r, Roots(comp[..]), u)
    modifies comp
    ensures Joined(g, comp[..]) && Coarser(old(Roots(comp[..])), Roots(comp[..]))
    ensures SampledUpTo(g, r, Roots(comp[..]), u + 1)
  {
    var v := g.out[u][r];
    ghost var c := comp[..];
    assert v in g.out[u];
    LinkLoaded(u, v, comp[v], comp);
    LinkKeepsJoined(g, c, comp[..], u, v);
    SampledStays(g, r, Roots(c), Roots(comp[..]), u);
    assert SampledAt(g, r, Roots(comp[..]), u);
  }

  ghost predicate Counts(count: map<nat, nat>, s: seq<nat>) {
    && (forall l :: l in count <==> l in s)
    && forall l | l in count :: count[l] == multiset(s)[l]
  }

  lemma CountsStep(count: map<nat, nat>, s: seq<nat>, x: nat)
    requires Counts(count, s)
    ensures Counts(count[x := (if x in count then count[x] else 0) + 1], s + [x])
  {
    assert multiset(s + [x]) == multiset(s) + multiset{x};
    if x !in count {
      assert x !in multiset(s);
    }
  }

  method CountLabels(comp: array<nat>) returns (count: map<nat, nat>)
    ensures Counts(count, comp[..])
  {
    count := map[];
    var n := 0;
    while n < comp.Length
      invariant n <= comp.Length && Counts(count, comp[..n])
    {
      CountsStep(count, comp[..n], comp[n]);
      assert comp[..n+1] == comp[..n] + [comp[n]];
      count := count[comp[n] := (if comp[n] in count then count[comp[n]] else 0) + 1];
      n := n + 1;
    }
    assert comp[..comp.Length] == comp[..];
  }

  /** A most frequent label; the map may be walked in any order. */
  method LargestLabel(comp: array<nat>) returns (largest: nat)
    requires comp.Length > 0
    ensures largest in comp[..]
    ensures forall l | l in comp[..] :: multiset(comp[..])[l] <= multiset(comp[..])[largest]
  {
    var count := CountLabels(comp);
    largest := comp[0];
    assert largest in comp[..];
    var largestCount := -1;
    var left := count.Keys;
    while left != {}
      invariant left <= count.Keys && largest in count
      invariant if largestCount == -1 then left == count.Keys else largestCount == count[largest]
      invariant forall l | l in count && l !in left :: count[l] <= largestCount
      decreases |left|
    {
      var l :| l in left;
      if count[l] > largestCount {
        largestCount, largest := count[l], l;
      }
      left := left - {l};
    }
  }

  /** Links every out-neighbour of u. */
  method LinkNeighbours(g: Graph, u: nat, comp: array<nat>)
    requires g.Valid() && Joined(g, comp[..]) && u < g.N()
    modifies comp
    ensures Joined(g, comp[..]) && Coarser(old(Roots(comp[..])), Roots(comp[..]))
    ensures forall v | v in g.out[u] :: v < g.N() && Roots(comp[..])[v] == Roots(comp[..])[u]
  {
    var i := 0;
    while i < |g.out[u]|
      invariant i <= |g.out[u]| && Joined(g, comp[..])
      invariant Coarser(old(Roots(comp[..])), Roots(comp[..]))
      invariant forall j | 0 <= j < i :: g.out[u][j] < g.N() && Roots(comp[..])[g.out[u][j]] == Roots(comp[..])[u]
    {
      var v := g.out[u][i];
      ghost var c := comp[..];
      assert v in g.out[u];
      LinkLoaded(u, v, comp[v], comp);
      LinkKeepsJoined(g, c, comp[..], u, v);
      i := i + 1;
    }
  }

  lemma SettledLabels(g: Graph, r: seq<nat>, largest: nat)
    requires g.Symmetric() && |r| == g.N() && SoundLabels(r, g.Edges())
    requires forall u | 0 <= u < g.N() :: Settled(g, r, u, largest)
    ensures forall x | 0 <= x < g.N() :: IsMinConnected(g.Edges(), x, r[x])
  {
    forall a, b | (a, b) in g.Edges() ensures a < |r| && b < |r| && r[a] == r[b] {
      assert b in g.out[a] && a in g.out[b];
      assert Settled(g, r, a, largest) && Settled(g, r, b, largest);
    }
    forall x | 0 <= x < g.N() ensures IsMinConnected(g.Edges(), x, r[x]) {
      LabelIsMinConnected(r, g.Edges(), x);
    }
  }

  lemma SkippedSettled(g: Graph, c: seq<nat>, u: nat)
    requires Joined(g, c) && u < g.N()
    ensures c[u] < g.N() && Settled(g, Roots(c), u, c[u])
  {
    RootsLabel(c);
    assert c[u] <= u;
  }

  /** The full phase for one vertex. */
  method FullVertex(g: Graph, largest: nat, u: nat, comp: array<nat>)
    requires g.Symmetric() && Joined(g, comp[..]) && largest < g.N() && u < g.N()
    modifies comp
    ensures Joined(g, comp[..]) && Coarser(old(Roots(comp[..])), Roots(comp[..]))
    ensures Settled(g, Roots(comp[..]), u, largest)
  {
    if comp[u] == largest {
      SkippedSettled(g, comp[..], u);
    } else {
      LinkNeighbours(g, u, comp);
    }
  }

  /** The full phase: vertices whose current label is `largest` are skipped, all others link every
      neighbour. Whichever label is skipped, every edge of a symmetric graph ends up joined. */
  method FullPhase(g: Graph, largest: nat, comp: array<nat>)
    requires g.Symmetric() && Joined(g, comp[..]) && largest < g.N()
    modifies comp
    ensures Joined(g, comp[..])
    ensures forall x | 0 <= x < g.N() :: IsMinConnected(g.Edges(), x, Roots(comp[..])[x])
  {
    var u := 0;
    while u < g.N()
      invariant u <= g.N() && Joined(g, comp[..])
      invariant forall x | 0 <= x < u :: Settled(g, Roots(comp[..]), x, largest)
    {
      ghost var r := Roots(comp[..]);
      FullVertex(g, largest, u, comp);
      forall x | 0 <= x < u ensures Settled(g, Roots(comp[..]), x, largest) {
        SettledStays(g, r, Roots(comp[..]), x, largest);
      }
      u := u + 1;
    }
    SettledLabels(g, Roots(comp[..]), largest);
  }

  lemma IdentityJoined(g: Graph, c: seq<nat>)
    requires |c| == g.N() && forall x | 0 <= x < |c| :: c[x] == x
    ensures Joined(g, c)
  {
    forall x: nat | x < |c| ensures Connected(g.Edges(), x, x) {
      ConnectedRefl(g.Edges(), x);
    }
  }

  /** run_cc: the label of every vertex is the smallest vertex of its component. */
  method Afforest(g: Graph, neighborRounds: nat) returns (labels: seq<nat>)
    requires g.Symmetric()
    ensures |labels| == g.N()
    ensures forall x | 0 <= x < g.N() :: IsMinConnected(g.Edges(), x, labels[x])
  {
    var comp := new nat[g.N()](x => x);
    IdentityJoined(g, comp[..]);
    var r := 0;
    while r < neighborRounds
      invariant Joined(g, comp[..])
    {
      SampleRound(g, r, comp);
      r := r + 1;
    }
    if g.N() > 0 {
      var largest := LargestLabel(comp);
      assert exists x :: 0 <= x < comp.Length && comp[..][x] == largest;
      FullPhase(g, largest, comp);
    }
    Compress(comp);
    labels := comp[..];
  }

  // ---- Shiloach-Vishkin ----

  ghost function Sum(c: seq<nat>): nat {
    if c == [] then 0 else c[0] + Sum(c[1..])
  }

  ghost predicate Below(d: seq<nat>, c: seq<nat>) {
    |d| == |c| && forall i | 0 <= i < |c| :: d[i] <= c[i]
  }

  lemma {:induction false} SumFalls(c: seq<nat>, d: seq<nat>)
    requires Below(d, c)
    ensures Sum(d) <= Sum(c) && (d != c ==> Sum(d) < Sum(c))
    decreases |c|
  {
    if c != [] {
      SumFalls(c[1..], d[1..]);
      assert c == [c[0]] + c[1..] && d == [d[0]] + d[1..];
    }
  }

  /** Every vertex points straight at its root. */
  ghost predicate Flat(c: seq<nat>) {
    Forest(c) && Roots(c) == c
  }

  lemma FlatEntry(c: seq<nat>, u: nat)
    requires Flat(c) && u < |c|
    ensures c[u] < |c| && c[c[u]] == c[u]
  {
    assert Root(c, u) == c[u];
  }

  /** Hook the larger of the two labels under the smaller one if it is a root. */
  method HookEdge(g: Graph, u: nat, v: nat, comp: array<nat>) returns (hooked: bool)
    requires g.Valid() && Joined(g, comp[..]) && u < g.N() && v in g.out[u] && v < g.N()
    modifies comp
    ensures Joined(g, comp[..]) && Below(comp[..], old(comp[..]))
    ensures hooked ==> comp[..] != old(comp[..]) && Roots(comp[..]) == Join(old(Roots(comp[..])), u, v)
    ensures !hooked ==> comp[..] == old(comp[..])
    ensures !hooked && old(Flat(comp[..])) ==> comp[u] == comp[v]
  {
    ghost var c := comp[..];
    LinkEntry(c, u, v);
    if Flat(c) {
      FlatEntry(c, u);
      FlatEntry(c, v);
    }
    var compU, compV := comp[u], comp[v];
    hooked := false;
    if compU != compV {
      var high := if compU > compV then compU else compV;
      var low := if compU < compV then compU else compV;
      if comp[high] == high {
        HookIsJoin(c, u, v, high, low);
        comp[high] := low;
        hooked := true;
        assert comp[..] == c[high := low];
        LinkKeepsJoined(g, c, comp[..], u, v);
      }
    }
  }

  ghost predicate AgreeOnEdges(g: Graph, c: seq<nat>, u: nat)
    requires u < g.N()
  {
    forall v | v in g.out[u] :: v < |c| && u < |c| && c[v] == c[u]
  }

  ghost predicate AgreeUpTo(g: Graph, c: seq<nat>, u: nat, i: nat)
    requires u < g.N() && i <= |g.out[u]|
  {
    u < |c| && forall j | 0 <= j < i :: g.out[u][j] < |c| && c[g.out[u][j]] == c[u]
  }

  /** The hooks of a round so far have made c of before; the first i neighbours of u are done. */
  ghost predicate Hooking(g: Graph, before: seq<nat>, c: seq<nat>, u: nat, i: nat, change: bool)
    requires u < g.N() && i <= |g.out[u]|
  {
    && Joined(g, c) && Below(c, before) && (change <==> c != before)
    && (!change && Flat(before) ==> AgreeUpTo(g, c, u, i))
  }

  lemma StaysChanged(before: seq<nat>, c: seq<nat>, d: seq<nat>)
    requires Below(c, before) && Below(d, c) && c != before
    ensures d != before
  {
    var x :| 0 <= x < |c| && c[x] != before[x];
  }

  lemma HookingNext(g: Graph, before: seq<nat>, c: seq<nat>, d: seq<nat>, u: nat, i: nat, change: bool, hooked: bool)
    requires g.Valid() && u < g.N() && i < |g.out[u]| && Hooking(g, before, c, u, i, change)
    requires Joined(g, d) && Below(d, c) && (hooked <==> d != c)
    requires !hooked && Flat(c) ==> g.out[u][i] < |d| && u < |d| && d[u] == d[g.out[u][i]]
    ensures Hooking(g, before, d, u, i + 1, change || hooked)
  {
    if change {
      StaysChanged(before, c, d);
    }
  }

  method HookVertex(g: Graph, u: nat, comp: array<nat>) returns (change: bool)
    requires g.Valid() && Joined(g, comp[..]) && u < g.N()
    modifies comp
    ensures Joined(g, comp[..]) && Below(comp[..], old(comp[..]))
    ensures change <==> comp[..] != old(comp[..])
    ensures !change && old(Flat(comp[..])) ==> AgreeOnEdges(g, comp[..], u)
  {
    change := false;
    var i := 0;
    while i < |g.out[u]|
      invariant i <= |g.out[u]| && Hooking(g, old(comp[..]), comp[..], u, i, change)
    {
      ghost var c := comp[..];
      assert g.out[u][i] in g.out[u];
      var hooked := HookEdge(g, u, g.out[u][i], comp);
      HookingNext(g, old(comp[..]), c, comp[..], u, i, change, hooked);
      change := change || hooked;
      i := i + 1;
    }
  }

  method HookPass(g: Graph, comp: array<nat>) returns (change: bool)
    requires g.Valid() && Joined(g, comp[..])
    modifies comp
    ensures Joined(g, comp[..]) && Below(comp[..], old(comp[..]))
    ensures change <==> comp[..] != old(comp[..])
    ensures !change && old(Flat(comp[..])) ==> forall u | 0 <= u < g.N() :: AgreeOnEdges(g, comp[..], u)
  {
    change := false;
    var u := 0;
    while u < g.N()
      invariant u <= g.N() && Joined(g, comp[..]) && Below(comp[..], old(comp[..]))
      invariant change <==> comp[..] != old(comp[..])
      invariant !change && old(Flat(comp[..])) ==> forall x | 0 <= x < u :: AgreeOnEdges(g, comp[..], x)
    {
      var changed := HookVertex(g, u, comp);
      change := change || changed;
      u := u + 1;
    }
  }

  /** ShiloachVishkin: hook and compress until a round changes nothing. It terminates because every
      hook lowers an entry of comp, and it labels components by their smallest vertices. */
  method ShiloachVishkin(g: Graph) returns (labels: seq<nat>)
    requires g.Valid()
    ensures |labels| == g.N()
    ensures forall x | 0 <= x < g.N() :: IsMinConnected(g.Edges(), x, labels[x])
  {
    var comp := new nat[g.N()](x => x);
    IdentityJoined(g, comp[..]);
    assert Flat(comp[..]);
    var change := true;
    while change
      invariant Joined(g, comp[..]) && Flat(comp[..])
      invariant !change ==> forall u | 0 <= u < g.N() :: AgreeOnEdges(g, comp[..], u)
      decreases Sum(comp[..]), change
    {
      ghost var c := comp[..];
      change := HookPass(g, comp);
      SumFalls(c, comp[..]);
      ghost var d := comp[..];
      Compress(comp);
      SumFalls(d, comp[..]);
    }
    labels := comp[..];
    forall x | 0 <= x < g.N() ensures IsMinConnected(g.Edges(), x, labels[x]) {
      forall a, b | (a, b) in g.Edges() ensures a < |labels| && b < |labels| && labels[a] == labels[b] {
        assert AgreeOnEdges(g, labels, a);
      }
      LabelIsMinConnected(labels, g.Edges(), x);
    }
  }

  /** Afforest and Shiloach-Vishkin agree on every vertex, since component minima are unique. */
  lemma KernelsAgree(g: Graph, afforest: seq<nat>, sv: seq<nat>)
    requires |afforest| == |sv| == g.N()
    requires forall x | 0 <= x < g.N() :: IsMinConnected(g.Edges(), x, afforest[x])
    requires forall x | 0 <= x < g.N() :: IsMinConnected(g.Edges(), x, sv[x])
    ensures afforest == sv
  {
  }
}
