/** Triangle counting by merging sorted adjacency lists, in degree order and in id order. */
module Triangles {
  import opened Graphs

  /** Undirected graphs with strictly ascending adjacency lists. */
  ghost predicate Countable(g: Graph) {
    && g.Symmetric()
    && forall u | 0 <= u < g.N() :: StrictlyAscending(g.out[u])
  }

  ghost predicate StrictlyAscending(s: seq<nat>) {
    forall i, j | 0 <= i < j < |s| :: s[i] < s[j]
  }

  // ---- Triangles, and the ways to order their corners ----

  function Vertices(n: nat): (vs: set<nat>)
    ensures forall v: nat :: v in vs <==> v < n
  {
    if n == 0 then {} else Vertices(n - 1) + {n - 1}
  }

  ghost predicate IsTriangle(g: Graph, corners: set<nat>) {
    && |corners| == 3 && corners <= Vertices(g.N())
    && forall a, b | a in corners && b in corners && a != b :: a < g.N() && b in g.out[a]
  }

  ghost function Triangles(g: Graph): set<set<nat>> {
    set corners | corners <= Vertices(g.N()) && IsTriangle(g, corners)
  }

  datatype Order = ById | ByDegree

  /** OrderedCount compares degrees first, the verifier only ids. */
  predicate Less(g: Graph, order: Order, a: nat, b: nat)
    requires a < g.N() && b < g.N()
  {
    match order
    case ById => a < b
    case ByDegree => |g.out[a]| < |g.out[b]| || (|g.out[a]| == |g.out[b]| && a < b)
  }

  datatype Triple = Triple(a: nat, b: nat, c: nat)

  function Corners(t: Triple): set<nat> { {t.a, t.b, t.c} }

  ghost predicate Increasing(g: Graph, order: Order, t: Triple) {
    && t.a < g.N() && t.b < g.N() && t.c < g.N()
    && t.b in g.out[t.a] && t.c in g.out[t.a] && t.c in g.out[t.b]
    && Less(g, order, t.a, t.b) && Less(g, order, t.b, t.c)
  }

  ghost function Triples(g: Graph, order: Order): set<Triple> {
    set a, b, c | 0 <= a < g.N() && 0 <= b < g.N() && 0 <= c < g.N() && Increasing(g, order, Triple(a, b, c)) ::
      Triple(a, b, c)
  }

  lemma LessIsStrict(g: Graph, order: Order, a: nat, b: nat)
    requires a < g.N() && b < g.N()
    ensures a == b ==> !Less(g, order, a, b)
    ensures a != b ==> (Less(g, order, a, b) <==> !Less(g, order, b, a))
  {
  }

  lemma LessTransitive(g: Graph, order: Order, a: nat, b: nat, c: nat)
    requires a < g.N() && b < g.N() && c < g.N() && Less(g, order, a, b) && Less(g, order, b, c)
    ensures Less(g, order, a, c)
  {
  }

  lemma TripleIsTriangle(g: Graph, order: Order, t: Triple)
    requires Countable(g) && Increasing(g, order, t)
    ensures Corners(t) in Triangles(g)
  {
    LessTransitive(g, order, t.a, t.b, t.c);
    LessIsStrict(g, order, t.a, t.b);
    LessIsStrict(g, order, t.b, t.c);
    LessIsStrict(g, order, t.a, t.c);
    assert t.a in g.out[t.b] && t.a in g.out[t.c] && t.b in g.out[t.c];
    assert |Corners(t)| == 3;
  }

  lemma SameCorners(g: Graph, order: Order, s: Triple, t: Triple)
    requires Increasing(g, order, s) && Increasing(g, order, t) && Corners(s) == Corners(t)
    ensures s == t
  {
    LessTransitive(g, order, s.a, s.b, s.c);
    LessTransitive(g, order, t.a, t.b, t.c);
    assert s.a in Corners(t) && s.b in Corners(t) && s.c in Corners(t);
    assert t.a in Corners(s) && t.b in Corners(s) && t.c in Corners(s);
  }

  lemma ThreeElements(s: set<nat>) returns (x: nat, y: nat, z: nat)
    requires |s| == 3
    ensures s == {x, y, z} && x != y && y != z && x != z
  {
    x :| x in s;
    assert |s - {x}| == 2;
    y :| y in s - {x};
    assert |s - {x} - {y}| == 1;
    z :| z in s - {x} - {y};
    assert |s - {x} - {y} - {z}| == 0;
  }

  lemma SortThree(g: Graph, order: Order, x: nat, y: nat, z: nat) returns (t: Triple)
    requires x < g.N() && y < g.N() && z < g.N() && x != y && y != z && x != z
    ensures Corners(t) == {x, y, z} && t.a < g.N() && t.b < g.N() && t.c < g.N()
    ensures Less(g, order, t.a, t.b) && Less(g, order, t.b, t.c)
  {
    LessIsStrict(g, order, x, y);
    LessIsStrict(g, order, x, z);
    LessIsStrict(g, order, y, z);
    var p, q := x, y;
    if Less(g, order, y, x) {
      p, q := y, x;
    }
    if Less(g, order, z, p) {
      t := Triple(z, p, q);
    } else if Less(g, order, z, q) {
      t := Triple(p, z, q);
    } else {
      t := Triple(p, q, z);
    }
  }

  /** The corners of a triangle can be put in order. */
  lemma TriangleHasTriple(g: Graph, order: Order, corners: set<nat>) returns (t: Triple)
    requires Countable(g) && IsTriangle(g, corners)
    ensures Increasing(g, order, t) && Corners(t) == corners
  {
    var x, y, z := ThreeElements(corners);
    t := SortThree(g, order, x, y, z);
    assert t.a in Corners(t) && t.b in Corners(t) && t.c in Corners(t);
    LessIsStrict(g, order, t.a, t.b);
    LessIsStrict(g, order, t.b, t.c);
    LessTransitive(g, order, t.a, t.b, t.c);
    LessIsStrict(g, order, t.a, t.c);
  }

  /** A one-to-one correspondence between triples and corner sets. */
  lemma {:induction false} SameSize(triples: set<Triple>, sets: set<set<nat>>)
    requires forall t | t in triples :: Corners(t) in sets
    requires forall s, t | s in triples && t in triples && Corners(s) == Corners(t) :: s == t
    requires forall s | s in sets :: exists t :: t in triples && Corners(t) == s
    ensures |triples| == |sets|
    decreases triples
  {
    if triples == {} {
      if s :| s in sets {
        assert false;
      }
    } else {
      var t :| t in triples;
      forall s | s in sets - {Corners(t)} ensures exists u :: u in triples - {t} && Corners(u) == s {
        var u :| u in triples && Corners(u) == s;
        assert u in triples - {t};
      }
      SameSize(triples - {t}, sets - {Corners(t)});
    }
  }

  /** Whatever the order, each triangle is counted by exactly one increasing triple. */
  lemma OneTriplePerTriangle(g: Graph, order: Order)
    requires Countable(g)
    ensures |Triples(g, order)| == |Triangles(g)|
  {
    forall t | t in Triples(g, order) ensures Corners(t) in Triangles(g) {
      TripleIsTriangle(g, order, t);
    }
    forall s, t | s in Triples(g, order) && t in Triples(g, order) && Corners(s) == Corners(t) ensures s == t {
      SameCorners(g, order, s, t);
    }
    forall s | s in Triangles(g) ensures exists t :: t in Triples(g, order) && Corners(t) == s {
      var t := TriangleHasTriple(g, order, s);
      assert t in Triples(g, order);
    }
    SameSize(Triples(g, order), Triangles(g));
  }

  // ---- One pair of adjacency lists ----

  ghost function PairTriples(g: Graph, order: Order, u: nat, v: nat): set<Triple>
    requires u < g.N()
  {
    PairUpTo(g, order, u, v, |g.out[u]|)
  }

  /** The triples of u and v whose third corner is among u's first i neighbours. */
  ghost function PairUpTo(g: Graph, order: Order, u: nat, v: nat, i: nat): set<Triple>
    requires u < g.N() && i <= |g.out[u]|
  {
    set k | 0 <= k < i && Increasing(g, order, Triple(u, v, g.out[u][k])) :: Triple(u, v, g.out[u][k])
  }

  /** No triple of u and v has its third corner both among u's later and v's earlier neighbours. */
  ghost predicate NoneSkipped(g: Graph, order: Order, u: nat, v: nat, i: nat, j: nat)
    requires u < g.N() && v < g.N()
  {
    forall m, k | i <= m < |g.out[u]| && 0 <= k < j && k < |g.out[v]| && g.out[u][m] == g.out[v][k] ::
      !Increasing(g, order, Triple(u, v, g.out[u][m]))
  }

  lemma PairGrows(g: Graph, order: Order, u: nat, v: nat, i: nat)
    requires Countable(g) && u < g.N() && i < |g.out[u]|
    ensures var t := Triple(u, v, g.out[u][i]);
      && t !in PairUpTo(g, order, u, v, i)
      && PairUpTo(g, order, u, v, i + 1)
           == PairUpTo(g, order, u, v, i) + (if Increasing(g, order, t) then {t} else {})
  {
  }

  /** u's neighbour i is not a neighbour of v from j on: it is smaller than all of those. */
  lemma NotInRest(g: Graph, order: Order, u: nat, v: nat, i: nat, j: nat)
    requires Countable(g) && u < g.N() && v < g.N() && i < |g.out[u]| && j <= |g.out[v]|
    requires NoneSkipped(g, order, u, v, i, j) && (j < |g.out[v]| ==> g.out[u][i] < g.out[v][j])
    ensures !Increasing(g, order, Triple(u, v, g.out[u][i]))
  {
    var w := g.out[u][i];
    if w in g.out[v] {
      var k :| 0 <= k < |g.out[v]| && g.out[v][k] == w;
      assert k < j;
    }
  }

  /** Past a match, an earlier neighbour of v cannot match a later one of u. */
  lemma MatchSkipsNone(g: Graph, order: Order, u: nat, v: nat, i: nat, j: nat)
    requires Countable(g) && u < g.N() && v < g.N() && i < |g.out[u]| && j < |g.out[v]|
    requires g.out[u][i] == g.out[v][j] && NoneSkipped(g, order, u, v, i, j)
    ensures NoneSkipped(g, order, u, v, i + 1, j + 1)
  {
    forall m | i < m < |g.out[u]| ensures g.out[u][m] != g.out[v][j] {
    }
  }

  /** A match counts exactly when its third corner follows v. */
  lemma MatchCounts(g: Graph, order: Order, u: nat, v: nat, i: nat)
    requires Countable(g) && u < g.N() && v < g.N() && i < |g.out[u]| && v in g.out[u] && Less(g, order, u, v)
    requires g.out[u][i] in g.out[v] && g.out[u][i] < g.N()
    ensures |PairUpTo(g, order, u, v, i + 1)|
      == |PairUpTo(g, order, u, v, i)| + (if Less(g, order, v, g.out[u][i]) then 1 else 0)
  {
    PairGrows(g, order, u, v, i);
  }

  /** A smaller neighbour of u: it closes no triple. */
  lemma LeftStep(g: Graph, order: Order, u: nat, v: nat, i: nat, j: nat)
    requires Countable(g) && u < g.N() && v < g.N() && i < |g.out[u]| && j < |g.out[v]|
    requires g.out[u][i] < g.out[v][j] && NoneSkipped(g, order, u, v, i, j)
    ensures NoneSkipped(g, order, u, v, i + 1, j) && |PairUpTo(g, order, u, v, i + 1)| == |PairUpTo(g, order, u, v, i)|
  {
    PairGrows(g, order, u, v, i);
    NotInRest(g, order, u, v, i, j);
  }

  /** A neighbour of v that is smaller, or equal but not counted, can be skipped. */
  lemma RightStep(g: Graph, order: Order, u: nat, v: nat, i: nat, j: nat)
    requires Countable(g) && u < g.N() && v < g.N() && i < |g.out[u]| && j < |g.out[v]|
    requires g.out[u][i] >= g.out[v][j] && NoneSkipped(g, order, u, v, i, j)
    requires g.out[u][i] == g.out[v][j] ==> !Increasing(g, order, Triple(u, v, g.out[u][i]))
    ensures NoneSkipped(g, order, u, v, i, j + 1)
  {
    forall m | i < m < |g.out[u]| ensures g.out[u][m] != g.out[v][j] {
    }
  }

  /** Once one list is exhausted, the rest of the other adds nothing. */
  lemma {:induction false} PairDone(g: Graph, order: Order, u: nat, v: nat, i: nat, j: nat)
    requires Countable(g) && u < g.N() && v < g.N() && i <= |g.out[u]| && j <= |g.out[v]|
    requires NoneSkipped(g, order, u, v, i, j) && (i == |g.out[u]| || j == |g.out[v]|)
    ensures PairUpTo(g, order, u, v, i) == PairTriples(g, order, u, v)
    decreases |g.out[u]| - i
  {
    if i < |g.out[u]| {
      NotInRest(g, order, u, v, i, j);
      PairGrows(g, order, u, v, i);
      PairDone(g, order, u, v, i + 1, j);
    }
  }

  /** Where a merge stands: count is right for the first i neighbours of u, and of v's nothing is lost. */
  ghost predicate Merging(g: Graph, order: Order, u: nat, v: nat, i: nat, j: nat, count: nat)
    requires u < g.N() && v < g.N()
  {
    && i <= |g.out[u]| && j <= |g.out[v]| && count == |PairUpTo(g, order, u, v, i)|
    && NoneSkipped(g, order, u, v, i, j)
  }

  /** One comparison of a merge: a match may advance both lists, or v's only if it does not count. */
  lemma MergeStep(g: Graph, order: Order, u: nat, v: nat, i: nat, j: nat, count: nat)
    requires Countable(g) && u < g.N() && v < g.N() && i < |g.out[u]| && j < |g.out[v]|
    requires v in g.out[u] && Less(g, order, u, v) && Merging(g, order, u, v, i, j, count)
    ensures var x, y := g.out[u][i], g.out[v][j];
      && x < g.N()
      && (x == y ==> Merging(g, order, u, v, i + 1, j + 1, count + if Less(g, order, v, x) then 1 else 0))
      && (x < y ==> Merging(g, order, u, v, i + 1, j, count))
      && (x > y || (x == y && !Less(g, order, v, x)) ==> Merging(g, order, u, v, i, j + 1, count))
  {
    var x, y := g.out[u][i], g.out[v][j];
    assert x in g.out[u];
    if x == y {
      assert g.out[v][j] in g.out[v];
      MatchSkipsNone(g, order, u, v, i, j);
      MatchCounts(g, order, u, v, i);
    }
    if x < y {
      LeftStep(g, order, u, v, i, j);
    } else if x > y || !Less(g, order, v, x) {
      RightStep(g, order, u, v, i, j);
    }
  }

  lemma MergeStarts(g: Graph, order: Order, u: nat, v: nat)
    requires u < g.N() && v < g.N()
    ensures Merging(g, order, u, v, 0, 0, 0)
  {
  }

  lemma MergeEnds(g: Graph, order: Order, u: nat, v: nat, i: nat, j: nat, count: nat)
    requires Countable(g) && u < g.N() && v < g.N() && Merging(g, order, u, v, i, j, count)
    requires i == |g.out[u]| || j == |g.out[v]|
    ensures count == |PairTriples(g, order, u, v)|
  {
    PairDone(g, order, u, v, i, j);
  }

  /** The merge of OrderedCount for one edge: on a match both lists advance. */
  method MergeOrdered(g: Graph, u: nat, v: nat) returns (count: nat)
    requires Countable(g) && u < g.N() && v < g.N() && v in g.out[u] && Less(g, ByDegree, u, v)
    ensures count == |PairTriples(g, ByDegree, u, v)|
  {
    MergeStarts(g, ByDegree, u, v);
    var i, j := 0, 0;
    count := 0;
    while i < |g.out[u]| && j < |g.out[v]|
      invariant i <= |g.out[u]| && j <= |g.out[v]| && Merging(g, ByDegree, u, v, i, j, count)
      decreases |g.out[u]| - i + |g.out[v]| - j
    {
      MergeStep(g, ByDegree, u, v, i, j, count);
      var w1, w2 := g.out[u][i], g.out[v][j];
      if w1 == w2 {
        if Less(g, ByDegree, v, w1) {
          count := count + 1;
        }
        i, j := i + 1, j + 1;
      } else if w1 < w2 {
        i := i + 1;
      } else {
        j := j + 1;
      }
    }
    MergeEnds(g, ByDegree, u, v, i, j, count);
  }

  /** The verifier's merge: a match that is not above v advances only v's list. */
  method MergeById(g: Graph, u: nat, v: nat) returns (count: nat)
    requires Countable(g) && u < g.N() && v < g.N() && v in g.out[u] && u < v
    ensures count == |PairTriples(g, ById, u, v)|
  {
    MergeStarts(g, ById, u, v);
    var i, j := 0, 0;
    count := 0;
    while i < |g.out[u]| && j < |g.out[v]|
      invariant i <= |g.out[u]| && j <= |g.out[v]| && Merging(g, ById, u, v, i, j, count)
      decreases |g.out[u]| - i + |g.out[v]| - j
    {
      MergeStep(g, ById, u, v, i, j, count);
      var w1, w2 := g.out[u][i], g.out[v][j];
      if w1 == w2 && w1 > v {
        count := count + 1;
        i, j := i + 1, j + 1;
      } else if w1 < w2 {
        i := i + 1;
      } else {
        j := j + 1;
      }
    }
    MergeEnds(g, ById, u, v, i, j, count);
  }

  // ---- The whole graph ----

  /** The triples of the edges handled before edge i of vertex u. */
  ghost function Before(g: Graph, order: Order, u: nat, i: nat): set<Triple>
    requires u < g.N() ==> i <= |g.out[u]|
  {
    set t | t in Triples(g, order) && (t.a < u || (t.a == u < g.N() && t.b in g.out[u][..i]))
  }

  lemma EdgeTriples(g: Graph, order: Order, u: nat, v: nat, t: Triple)
    requires Countable(g) && u < g.N()
    ensures t in PairTriples(g, order, u, v) <==> t in Triples(g, order) && t.a == u && t.b == v
  {
    if t in Triples(g, order) && t.a == u && t.b == v {
      var k :| 0 <= k < |g.out[u]| && g.out[u][k] == t.c;
      assert t == Triple(u, v, g.out[u][k]);
    }
  }

  lemma BeforeSplits(g: Graph, order: Order, u: nat, i: nat, t: Triple)
    requires Countable(g) && u < g.N() && i < |g.out[u]|
    ensures t in Before(g, order, u, i + 1)
      <==> t in Before(g, order, u, i) || (t in Triples(g, order) && t.a == u && t.b == g.out[u][i])
    ensures t in Before(g, order, u, i) ==> t.a != u || t.b != g.out[u][i]
  {
    assert g.out[u][..i+1] == g.out[u][..i] + [g.out[u][i]];
    assert g.out[u][i] !in g.out[u][..i];
  }

  lemma BeforeGrows(g: Graph, order: Order, u: nat, i: nat)
    requires Countable(g) && u < g.N() && i < |g.out[u]|
    ensures |Before(g, order, u, i + 1)| == |Before(g, order, u, i)| + |PairTriples(g, order, u, g.out[u][i])|
  {
    var whole, part, pair := Before(g, order, u, i + 1), Before(g, order, u, i), PairTriples(g, order, u, g.out[u][i]);
    forall t ensures (t in whole <==> t in part || t in pair) && !(t in part && t in pair) {
      EdgeTriples(g, order, u, g.out[u][i], t);
      BeforeSplits(g, order, u, i, t);
    }
    assert whole == part + pair && part !! pair;
  }

  lemma EdgeAgainstOrder(g: Graph, order: Order, u: nat, v: nat)
    requires u < g.N() && v < g.N() && !Less(g, order, u, v)
    ensures PairTriples(g, order, u, v) == {}
  {
  }

  lemma NextVertex(g: Graph, order: Order, u: nat)
    requires Countable(g) && u < g.N()
    ensures Before(g, order, u, |g.out[u]|) == Before(g, order, u + 1, 0)
  {
    assert g.out[u][..|g.out[u]|] == g.out[u];
  }

  /** The triangles counted at edge i of vertex u. */
  ghost function EdgeCount(g: Graph, order: Order, u: nat, i: nat): nat
    requires u < g.N() && i < |g.out[u]|
  {
    var v := g.out[u][i];
    if v < g.N() && Less(g, order, u, v) then |PairTriples(g, order, u, v)| else 0
  }

  ghost function RowCount(g: Graph, order: Order, u: nat, i: nat): nat
    requires u < g.N() && i <= |g.out[u]|
  {
    if i == 0 then 0 else RowCount(g, order, u, i - 1) + EdgeCount(g, order, u, i - 1)
  }

  ghost function TotalCount(g: Graph, order: Order, u: nat): nat
    requires u <= g.N()
  {
    if u == 0 then 0 else TotalCount(g, order, u - 1) + RowCount(g, order, u - 1, |g.out[u-1]|)
  }

  lemma EdgeCountIs(g: Graph, order: Order, u: nat, i: nat)
    requires Countable(g) && u < g.N() && 0 < i <= |g.out[u]|
    ensures CountBefore(g, order, u, i) == CountBefore(g, order, u, i - 1) + EdgeCount(g, order, u, i - 1)
  {
    BeforeGrows(g, order, u, i - 1);
    assert g.out[u][i-1] in g.out[u];
    if !Less(g, order, u, g.out[u][i-1]) {
      EdgeAgainstOrder(g, order, u, g.out[u][i-1]);
    }
  }

  ghost function CountBefore(g: Graph, order: Order, u: nat, i: nat): nat
    requires u < g.N() ==> i <= |g.out[u]|
  {
    |Before(g, order, u, i)|
  }

  /** before is what the vertices below u have counted. */
  lemma {:induction false} RowCountIs(g: Graph, order: Order, u: nat, i: nat, before: nat)
    requires Countable(g) && u < g.N() && i <= |g.out[u]| && CountBefore(g, order, u, 0) == before
    ensures CountBefore(g, order, u, i) == before + RowCount(g, order, u, i)
    decreases i
  {
    if i > 0 {
      RowCountIs(g, order, u, i - 1, before);
      EdgeCountIs(g, order, u, i);
    }
  }

  lemma {:induction false} TotalCountIs(g: Graph, order: Order, u: nat)
    requires Countable(g) && u <= g.N()
    ensures CountBefore(g, order, u, 0) == TotalCount(g, order, u)
  {
    if u == 0 {
      assert Before(g, order, 0, 0) == {};
    } else {
      TotalCountIs(g, order, u - 1);
      RowCountIs(g, order, u - 1, |g.out[u-1]|, TotalCount(g, order, u - 1));
      NextVertex(g, order, u - 1);
    }
  }

  /** Edge by edge, in either order, every triangle is counted once. */
  lemma TotalIsTriangles(g: Graph, order: Order)
    requires Countable(g)
    ensures TotalCount(g, order, g.N()) == |Triangles(g)|
  {
    TotalCountIs(g, order, g.N());
    assert Before(g, order, g.N(), 0) == Triples(g, order);
    OneTriplePerTriangle(g, order);
  }

  method CountOrdered(g: Graph, u: nat) returns (total: nat)
    requires Countable(g) && u < g.N()
    ensures total == RowCount(g, ByDegree, u, |g.out[u]|)
  {
    total := 0;
    var i := 0;
    while i < |g.out[u]|
      invariant i <= |g.out[u]| && total == RowCount(g, ByDegree, u, i)
    {
      var v := g.out[u][i];
      assert v in g.out[u];
      if Less(g, ByDegree, u, v) {
        var count := MergeOrdered(g, u, v);
        total := total + count;
      }
      i := i + 1;
    }
  }

  /** OrderedCount: the total is the number of triangles. */
  method OrderedCount(g: Graph) returns (total: nat)
    requires Countable(g)
    ensures total == |Triangles(g)|
  {
    total := 0;
    var u := 0;
    while u < g.N()
      invariant u <= g.N() && total == TotalCount(g, ByDegree, u)
    {
      var count := CountOrdered(g, u);
      total := total + count;
      u := u + 1;
    }
    TotalIsTriangles(g, ByDegree);
  }

  method CountById(g: Graph, u: nat) returns (total: nat)
    requires Countable(g) && u < g.N()
    ensures total == RowCount(g, ById, u, |g.out[u]|)
  {
    total := 0;
    var i := 0;
    while i < |g.out[u]|
      invariant i <= |g.out[u]| && total == RowCount(g, ById, u, i)
    {
      var v := g.out[u][i];
      assert v in g.out[u];
      if v > u {
        var count := MergeById(g, u, v);
        total := total + count;
      }
      i := i + 1;
    }
  }

  /** TCVerifier: accepts a total exactly when it is the number of triangles. */
  method Verify(g: Graph, testTotal: nat) returns (ok: bool)
    requires Countable(g)
    ensures ok <==> testTotal == |Triangles(g)|
  {
    var total := 0;
    var u := 0;
    while u < g.N()
      invariant u <= g.N() && total == TotalCount(g, ById, u)
    {
      var count := CountById(g, u);
      total := total + count;
      u := u + 1;
    }
    TotalIsTriangles(g, ById);
    ok := total == testTotal;
  }
}
