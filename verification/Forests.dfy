/** Union-find forests stored as parent links that never point upwards (comp[x] <= x). */
module Forests {
  import opened Graphs

  ghost predicate Forest(c: seq<nat>) {
    forall i | 0 <= i < |c| :: c[i] <= i
  }

  ghost function Root(c: seq<nat>, x: nat): (r: nat)
    requires Forest(c) && x < |c|
    ensures r <= x && c[r] == r
    decreases x
  {
    if c[x] == x then x else Root(c, c[x])
  }

  /** The root of every vertex, as a labelling. */
  ghost function Roots(c: seq<nat>): (r: seq<nat>)
    requires Forest(c)
    ensures |r| == |c| && forall x | 0 <= x < |c| :: r[x] == Root(c, x)
  {
    seq(|c|, x requires 0 <= x < |c| => Root(c, x))
  }

  ghost predicate SameTree(c: seq<nat>, x: nat, y: nat)
    requires Forest(c)
  {
    x < |c| && y < |c| && Root(c, x) == Root(c, y)
  }

  /** What proofs need of Roots(c), without unfolding the recursion. */
  ghost predicate Labels(c: seq<nat>, r: seq<nat>) {
    && |r| == |c|
    && forall x {:trigger c[x]} | 0 <= x < |c| ::
        c[x] <= x && r[x] <= x && r[c[x]] == r[x] && (c[x] == x ==> r[x] == x)
  }

  /** a and b stand for u and v: one of them is in u's tree, the other in v's (r labels trees). */
  ghost predicate Matched(r: seq<nat>, u: nat, v: nat, a: nat, b: nat) {
    && u < |r| && v < |r| && a < |r| && b < |r|
    && ((r[u] == r[a] && r[v] == r[b]) || (r[u] == r[b] && r[v] == r[a]))
  }

  lemma RootsLabel(c: seq<nat>)
    requires Forest(c)
    ensures Labels(c, Roots(c))
  {
  }

  /** Hooking root h under a smaller vertex l moves exactly h's tree to l's root. */
  lemma {:induction false} HookRoot(c: seq<nat>, h: nat, l: nat, x: nat)
    requires Forest(c) && l < h < |c| && c[h] == h && x < |c|
    ensures Forest(c[h := l])
    ensures Root(c[h := l], x) == if Root(c, x) == h then Root(c, l) else Root(c, x)
    decreases x
  {
    var d := c[h := l];
    if x == h {
      assert Root(d, h) == Root(d, l);
      HookRoot(c, h, l, l);
    } else if c[x] != x {
      HookRoot(c, h, l, c[x]);
    }
  }

  /** The labelling after hooking root h under l. */
  function Merge(r: seq<nat>, h: nat, l: nat): (m: seq<nat>)
    requires l < |r|
    ensures |m| == |r| && forall x | 0 <= x < |r| :: m[x] == if r[x] == h then r[l] else r[x]
  {
    seq(|r|, x requires 0 <= x < |r| => if r[x] == h then r[l] else r[x])
  }

  lemma HookRoots(c: seq<nat>, h: nat, l: nat)
    requires Forest(c) && l < h < |c| && c[h] == h
    ensures Forest(c[h := l]) && Roots(c[h := l]) == Merge(Roots(c), h, l)
  {
    forall x: nat | x < |c| ensures Root(c[h := l], x) == Merge(Roots(c), h, l)[x] {
      HookRoot(c, h, l, x);
    }
  }

  /** Redirecting a non-root to a smaller vertex of its own tree changes no root. */
  lemma {:induction false} RedirectRoot(c: seq<nat>, n: nat, a: nat, x: nat)
    requires Forest(c) && a < n < |c| && c[n] != n && Root(c, a) == Root(c, n) && x < |c|
    ensures Forest(c[n := a])
    ensures Root(c[n := a], x) == Root(c, x)
    decreases x
  {
    if x == n {
      assert Root(c[n := a], n) == Root(c[n := a], a);
      RedirectRoot(c, n, a, a);
    } else if c[x] != x {
      RedirectRoot(c, n, a, c[x]);
    }
  }

  // ---- Forests and connectivity ----

  /** Every parent link joins vertices that the edges E connect. */
  ghost predicate Sound(c: seq<nat>, E: set<(nat, nat)>) {
    Forest(c) && forall x | 0 <= x < |c| :: Connected(E, x, c[x])
  }

  lemma {:induction false} SoundRoot(c: seq<nat>, E: set<(nat, nat)>, x: nat)
    requires Sound(c, E) && x < |c|
    ensures Connected(E, x, Root(c, x))
    decreases x
  {
    if c[x] == x {
      ConnectedRefl(E, x);
    } else {
      SoundRoot(c, E, c[x]);
      ConnectedTrans(E, x, c[x], Root(c, x));
    }
  }

  /** Same tree implies connected: no false merges. */
  lemma SameTreeConnected(c: seq<nat>, E: set<(nat, nat)>, x: nat, y: nat)
    requires Sound(c, E) && SameTree(c, x, y)
    ensures Connected(E, x, y)
  {
    SoundRoot(c, E, x);
    SoundRoot(c, E, y);
    ConnectedSym(E, y, Root(c, y));
    ConnectedTrans(E, x, Root(c, x), y);
  }

  // ---- The same facts for a labelling by roots ----

  function JoinLabel(l: nat, a: nat, b: nat): nat {
    if l == a || l == b then (if a < b then a else b) else l
  }

  /** The labelling after linking u and v: the larger root's tree joins the smaller root. */
  function Join(r: seq<nat>, u: nat, v: nat): (q: seq<nat>)
    requires u < |r| && v < |r|
    ensures |q| == |r| && forall x | 0 <= x < |r| :: q[x] == JoinLabel(r[x], r[u], r[v])
  {
    seq(|r|, x requires 0 <= x < |r| => JoinLabel(r[x], r[u], r[v]))
  }

  ghost predicate SoundLabels(r: seq<nat>, E: set<(nat, nat)>) {
    forall x | 0 <= x < |r| :: r[x] <= x && Connected(E, x, r[x])
  }

  lemma JoinIsSound(r: seq<nat>, u: nat, v: nat, E: set<(nat, nat)>)
    requires SoundLabels(r, E) && u < |r| && v < |r| && Adjacent(E, u, v)
    ensures SoundLabels(Join(r, u, v), E)
  {
    ConnectedEdge(E, u, v);
    ConnectedEdge(E, v, u);
    forall x | 0 <= x < |r| ensures Join(r, u, v)[x] <= x && Connected(E, x, Join(r, u, v)[x]) {
      if r[x] == r[u] && r[v] < r[u] {
        AcrossEdge(r, E, x, u, v);
      } else if r[x] == r[v] && r[u] < r[v] {
        AcrossEdge(r, E, x, v, u);
      }
    }
  }

  lemma SoundRoots(c: seq<nat>, E: set<(nat, nat)>)
    requires Sound(c, E)
    ensures SoundLabels(Roots(c), E)
  {
    forall x: nat | x < |c| ensures Connected(E, x, Roots(c)[x]) {
      SoundRoot(c, E, x);
    }
  }

  lemma AcrossEdge(r: seq<nat>, E: set<(nat, nat)>, x: nat, a: nat, b: nat)
    requires SoundLabels(r, E) && x < |r| && a < |r| && b < |r| && r[x] == r[a] && Connected(E, a, b)
    ensures Connected(E, x, r[b])
  {
    ConnectedSym(E, a, r[a]);
    ConnectedTrans(E, x, r[a], a);
    ConnectedTrans(E, x, a, b);
    ConnectedTrans(E, x, b, r[b]);
  }

  lemma LabelIsMinConnected(r: seq<nat>, E: set<(nat, nat)>, x: nat)
    requires SoundLabels(r, E) && x < |r|
    requires forall a, b | (a, b) in E :: a < |r| && b < |r| && r[a] == r[b]
    ensures IsMinConnected(E, x, r[x])
  {
    var tag := (a: nat) => if a < |r| then r[a] else a;
    forall y | Connected(E, x, y) ensures r[x] <= y {
      assert forall a, b | (a, b) in E :: tag(a) == tag(b);
      ConnectedSameLabel(E, tag, x, y);
    }
  }
}
