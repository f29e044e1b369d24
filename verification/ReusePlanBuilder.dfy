/** Building reuse plans for a whole graph: reader lists, tiers, per-line plans and record streams. */
module ReusePlanBuilder {
  import Graphs
  import opened Sorting
  import ReusePlan

  // ---- Reader lists in CSR form ----

  /** The property of v is read by its in-neighbours when pushing and by its out-neighbours when pulling. */
  function ReaderList(g: Graphs.Graph, push: bool, v: nat): seq<nat>
    requires v < |g.out| && |g.inn| == |g.out|
  {
    if push then g.inn[v] else g.out[v]
  }

  /** The property entries that src accesses, in edge order. */
  function Accessed(g: Graphs.Graph, push: bool, src: nat): seq<nat>
    requires src < |g.out| && |g.inn| == |g.out|
  {
    if push then g.out[src] else g.inn[src]
  }

  ghost predicate CsrShape(off: seq<nat>, readers: seq<nat>, n: nat) {
    && |off| == n + 1 && off[0] == 0 && off[n] == |readers|
    && (forall v | 0 <= v <= n :: off[v] <= |readers|)
    && forall v | 0 <= v < n :: off[v] <= off[v+1]
  }

  function Segment(off: seq<nat>, readers: seq<nat>, v: nat): seq<nat>
    requires v + 1 < |off| && off[v] <= off[v+1] <= |readers|
  {
    readers[off[v]..off[v+1]]
  }

  function AtMost(): (nat, nat) -> bool { (a: nat, b: nat) => a <= b }

  /** Each segment is the ascending reader list of its vertex, repeated readers included. */
  ghost predicate ReaderCsr(g: Graphs.Graph, push: bool, off: seq<nat>, readers: seq<nat>) {
    PartialCsr(g, push, off, readers, g.N())
  }

  lemma SortReaders(rs: seq<nat>, n: nat)
    requires forall i | 0 <= i < |rs| :: rs[i] < n
    ensures var s := Sort(AtMost(), rs);
      ReusePlan.SortedReaders(s, n) && multiset(s) == multiset(rs) && |s| == |rs|
  {
    var s := Sort(AtMost(), rs);
    SortSorts(AtMost(), rs);
    forall i | 0 <= i < |s| ensures s[i] < n {
      assert s[i] in multiset(s);
      assert s[i] in rs;
    }
    assert forall i, j | 0 <= i <= j < |s| :: AtMost()(s[i], s[j]);
  }

  /** The reader list of v, dropping readers that are not vertices. */
  method CollectReaders(list: seq<nat>, n: nat) returns (rs: seq<nat>)
    requires forall v | v in list :: v < n
    ensures rs == list && forall i | 0 <= i < |rs| :: rs[i] < n
  {
    rs := [];
    var i := 0;
    while i < |list|
      invariant i <= |list| && rs == list[..i]
    {
      var w := list[i];
      assert w in list;
      if w < n {
        rs := rs + [w];
      }
      i := i + 1;
    }
    assert forall j | 0 <= j < |list| :: list[j] in list;
  }

  /** The first v segments. */
  ghost predicate PartialCsr(g: Graphs.Graph, push: bool, off: seq<nat>, readers: seq<nat>, v: nat) {
    && |g.inn| == |g.out| && v <= g.N() && CsrShape(off, readers, v)
    && forall w | 0 <= w < v ::
         Segment(off, readers, w) == Sort(AtMost(), ReaderList(g, push, w))
         && ReusePlan.SortedReaders(Segment(off, readers, w), g.N())
  }

  lemma AppendSegment(g: Graphs.Graph, push: bool, off: seq<nat>, readers: seq<nat>, v: nat, rs: seq<nat>)
    requires PartialCsr(g, push, off, readers, v) && v < g.N()
    requires rs == Sort(AtMost(), ReaderList(g, push, v)) && ReusePlan.SortedReaders(rs, g.N())
    ensures PartialCsr(g, push, off + [|readers| + |rs|], readers + rs, v + 1)
  {
    var off', readers' := off + [|readers| + |rs|], readers + rs;
    forall w | 0 <= w < v ensures Segment(off', readers', w) == Segment(off, readers, w) {
    }
    assert Segment(off', readers', v) == rs;
  }

  /** buildReaderCsr. off is filled up to the vertex reached, as the loop fills it. */
  method BuildReaderCsr(g: Graphs.Graph, push: bool) returns (off: seq<nat>, readers: seq<nat>)
    requires g.Valid()
    ensures ReaderCsr(g, push, off, readers)
  {
    off, readers := [0], [];
    var v := 0;
    while v < g.N()
      invariant PartialCsr(g, push, off, readers, v)
    {
      var rs := CollectReaders(ReaderList(g, push, v), g.N());
      SortReaders(rs, g.N());
      AppendSegment(g, push, off, readers, v, Sort(AtMost(), rs));
      readers := readers + Sort(AtMost(), rs);
      off := off + [|readers|];
      v := v + 1;
    }
  }

  /** Reader lists in CSR form are determined by the graph and the direction. */
  lemma ReaderCsrUnique(g: Graphs.Graph, push: bool, off: seq<nat>, readers: seq<nat>, off': seq<nat>,
                        readers': seq<nat>)
    requires ReaderCsr(g, push, off, readers) && ReaderCsr(g, push, off', readers')
    ensures off == off'
    ensures forall v | 0 <= v < g.N() :: Segment(off, readers, v) == Segment(off', readers', v)
  {
    forall v: nat | v <= g.N() ensures off[v] == off'[v] {
      OffsetUnique(g, push, off, readers, off', readers', v);
    }
  }

  lemma {:induction false} OffsetUnique(g: Graphs.Graph, push: bool, off: seq<nat>, readers: seq<nat>,
                                        off': seq<nat>, readers': seq<nat>, v: nat)
    requires ReaderCsr(g, push, off, readers) && ReaderCsr(g, push, off', readers') && v <= g.N()
    ensures off[v] == off'[v]
  {
    if v > 0 {
      OffsetUnique(g, push, off, readers, off', readers', v - 1);
      assert |Segment(off, readers, v - 1)| == |Segment(off', readers', v - 1)|;
    }
  }

  // ---- Reuse tiers ----

  /** How often v's property entry is accessed. */
  function Count(off: seq<nat>, v: nat): int {
    if v + 1 < |off| then off[v+1] as int - off[v] as int else 0
  }

  /** u ranks before v: more accesses, or as many and a smaller number. */
  predicate Hotter(off: seq<nat>, u: nat, v: nat) {
    Count(off, u) > Count(off, v) || (Count(off, u) == Count(off, v) && u < v)
  }

  function HotterOrSame(off: seq<nat>): (nat, nat) -> bool { (u: nat, v: nat) => u == v || Hotter(off, u, v) }

  ghost function Rank(off: seq<nat>, n: nat, v: nat): nat {
    |set u: nat | u < n && Hotter(off, u, v)|
  }

  /** The first hotCount vertices are hot (1), the next hotCount moderate (2), all others cold (3). */
  function TierOfRank(rank: nat, hotCount: nat): nat {
    if rank < hotCount then 1 else if rank < 2 * hotCount then 2 else 3
  }

  function Iota(n: nat): (s: seq<nat>)
    ensures |s| == n && forall i | 0 <= i < n :: s[i] == i
  {
    seq(n, i => i)
  }

  lemma SortedHotter(off: seq<nat>, order: seq<nat>, i: nat, r: nat)
    requires SortedBy(HotterOrSame(off), order) && i < |order| && r < |order|
    requires forall a, b | 0 <= a < b < |order| :: order[a] != order[b]
    ensures Hotter(off, order[i], order[r]) <==> i < r
  {
    if i < r {
      assert HotterOrSame(off)(order[i], order[r]);
    } else {
      assert HotterOrSame(off)(order[r], order[i]);
    }
  }

  lemma OrderIsRank(off: seq<nat>, n: nat, order: seq<nat>, r: nat)
    requires |order| == n && r < n && multiset(order) == multiset(Iota(n)) && SortedBy(HotterOrSame(off), order)
    ensures order[r] < n && Rank(off, n, order[r]) == r
  {
    InOrder(n, order);
    var before := set u: nat | u < n && Hotter(off, u, order[r]);
    var prefix := set i | 0 <= i < r :: order[i];
    forall u: nat ensures u in before <==> u in prefix {
      if u < n {
        assert u in order;
        var i :| 0 <= i < n && order[i] == u;
        SortedHotter(off, order, i, r);
      }
    }
    assert before == prefix;
    PrefixSize(order, r);
  }

  lemma InOrder(n: nat, order: seq<nat>)
    requires |order| == n && multiset(order) == multiset(Iota(n))
    ensures forall u: nat | u < n :: u in order
    ensures forall i | 0 <= i < n :: order[i] < n
    ensures forall i, j | 0 <= i < j < n :: order[i] != order[j]
  {
    forall u: nat | u < n ensures u in order {
      assert Iota(n)[u] in multiset(Iota(n));
      assert u in multiset(order);
    }
    forall i | 0 <= i < n ensures order[i] < n {
      assert order[i] in multiset(Iota(n));
    }
    forall i, j | 0 <= i < j < n ensures order[i] != order[j] {
      IotaOnce(n, order[i]);
      if order[i] == order[j] {
        TwiceCounts(order, i, j);
      }
    }
  }

  lemma {:induction false} IotaOnce(n: nat, x: nat)
    ensures multiset(Iota(n))[x] <= 1
  {
    if n > 0 {
      IotaOnce(n - 1, x);
      assert Iota(n) == Iota(n - 1) + [n - 1];
      if x == n - 1 && x in Iota(n - 1) {
        assert false;
      }
    }
  }

  lemma TwiceCounts(s: seq<nat>, i: nat, j: nat)
    requires i < j < |s| && s[i] == s[j]
    ensures multiset(s)[s[i]] >= 2
  {
    assert s == s[..i] + [s[i]] + s[i+1..j] + [s[j]] + s[j+1..];
  }

  lemma {:induction false} PrefixSize(order: seq<nat>, r: nat)
    requires r <= |order| && forall i, j | 0 <= i < j < |order| :: order[i] != order[j]
    ensures |set i | 0 <= i < r :: order[i]| == r
  {
    if r > 0 {
      PrefixSize(order, r - 1);
      var p := set i | 0 <= i < r - 1 :: order[i];
      assert order[r-1] !in p;
      assert (set i | 0 <= i < r :: order[i]) == p + {order[r-1]};
    }
  }

  lemma HotterOrder(off: seq<nat>)
    ensures TotalOrder(HotterOrSame(off))
  {
  }

  /** buildReuseTiers, with the hot count given. */
  method BuildReuseTiers(off: seq<nat>, n: nat, hotCount: nat) returns (tiers: seq<nat>)
    requires |off| == n + 1 && hotCount <= n
    ensures |tiers| == n && forall v | 0 <= v < n :: tiers[v] == TierOfRank(Rank(off, n, v), hotCount)
  {
    tiers := seq(n, _ => 3);
    var order := Sort(HotterOrSame(off), Iota(n));
    HotterOrder(off);
    SortSorts(HotterOrSame(off), Iota(n));
    InOrder(n, order);
    var moderateEnd := if n < hotCount * 2 then n else hotCount * 2;
    var rank := 0;
    while rank < |order|
      invariant rank <= |order| && |tiers| == n
      invariant forall i | 0 <= i < rank :: tiers[order[i]] == TierOfRank(i, hotCount)
    {
      tiers := tiers[order[rank] := if rank < hotCount then 1 else if rank < moderateEnd then 2 else 3];
      rank := rank + 1;
    }
    forall v | 0 <= v < n ensures tiers[v] == TierOfRank(Rank(off, n, v), hotCount) {
      assert v in order;
      var i :| 0 <= i < n && order[i] == v;
      OrderIsRank(off, n, order, i);
    }
  }
}
