/** Graphs as the kernels see them: out- and in-adjacency lists over vertices 0..n-1. */
module Graphs {

  datatype Graph = Graph(out: seq<seq<nat>>, inn: seq<seq<nat>>) {
    function N(): nat { |out| }

    /** Neighbours are vertices, and the in-lists are the transpose of the out-lists. */
    ghost predicate Valid() {
      && |inn| == |out|
      && (forall u, v | 0 <= u < N() && v in out[u] :: v < N())
      && (forall u, v | 0 <= u < N() && v in inn[u] :: v < N())
      && (forall u, v | 0 <= u < N() && 0 <= v < N() :: v in out[u] <==> u in inn[v])
    }

    ghost predicate Symmetric() {
      && Valid()
      && forall u, v | 0 <= u < N() && 0 <= v < N() :: v in out[u] <==> u in out[v]
    }

    ghost function Edges(): set<(nat, nat)> {
      set u, v | 0 <= u < N() && v in out[u] :: (u, v)
    }
  }

  // ---- Connectivity: the equivalence closure of a set of edges ----

  ghost predicate Adjacent(E: set<(nat, nat)>, a: nat, b: nat) {
    (a, b) in E || (b, a) in E
  }

  ghost predicate IsPath(E: set<(nat, nat)>, p: seq<nat>) {
    |p| > 0 && forall i | 1 <= i < |p| :: Adjacent(E, p[i-1], p[i])
  }

  ghost predicate Connected(E: set<(nat, nat)>, x: nat, y: nat) {
    exists p :: IsPath(E, p) && p[0] == x && p[|p|-1] == y
  }

  lemma ConnectedRefl(E: set<(nat, nat)>, x: nat)
    ensures Connected(E, x, x)
  {
    assert IsPath(E, [x]);
  }

  lemma ConnectedEdge(E: set<(nat, nat)>, x: nat, y: nat)
    requires Adjacent(E, x, y)
    ensures Connected(E, x, y)
  {
    assert IsPath(E, [x, y]);
  }

  lemma ConnectedTrans(E: set<(nat, nat)>, x: nat, y: nat, z: nat)
    requires Connected(E, x, y) && Connected(E, y, z)
    ensures Connected(E, x, z)
  {
    var p :| IsPath(E, p) && p[0] == x && p[|p|-1] == y;
    var q :| IsPath(E, q) && q[0] == y && q[|q|-1] == z;
    var r := p + q[1..];
    forall i | 1 <= i < |r| ensures Adjacent(E, r[i-1], r[i]) {
      if i >= |p| {
        assert r[i] == q[i-|p|+1] && r[i-1] == q[i-|p|];
      }
    }
    assert IsPath(E, r) && r[|r|-1] == z;
  }

  lemma ConnectedSym(E: set<(nat, nat)>, x: nat, y: nat)
    requires Connected(E, x, y)
    ensures Connected(E, y, x)
  {
    var p :| IsPath(E, p) && p[0] == x && p[|p|-1] == y;
    var r := seq(|p|, i requires 0 <= i < |p| => p[|p|-1-i]);
    forall i | 1 <= i < |r| ensures Adjacent(E, r[i-1], r[i]) {
      assert Adjacent(E, p[|p|-1-i], p[|p|-i]);
    }
    assert IsPath(E, r);
  }

  /** A labelling constant along every edge is constant along every path. */
  lemma {:induction false} LabelAlongPath(E: set<(nat, nat)>, tag: nat -> nat, p: seq<nat>)
    requires IsPath(E, p)
    requires forall a, b | (a, b) in E :: tag(a) == tag(b)
    ensures tag(p[0]) == tag(p[|p|-1])
  {
    if |p| > 1 {
      var q := p[..|p|-1];
      assert IsPath(E, q);
      LabelAlongPath(E, tag, q);
      assert Adjacent(E, p[|p|-2], p[|p|-1]);
    }
  }

  lemma ConnectedSameLabel(E: set<(nat, nat)>, tag: nat -> nat, x: nat, y: nat)
    requires Connected(E, x, y)
    requires forall a, b | (a, b) in E :: tag(a) == tag(b)
    ensures tag(x) == tag(y)
  {
    var p :| IsPath(E, p) && p[0] == x && p[|p|-1] == y;
    LabelAlongPath(E, tag, p);
  }

  /** m is the smallest vertex connected to x. */
  ghost predicate IsMinConnected(E: set<(nat, nat)>, x: nat, m: nat) {
    Connected(E, x, m) && forall y | Connected(E, x, y) :: m <= y
  }
}
