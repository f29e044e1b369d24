/** The direction-optimizing BFS kernel, run on one thread and without its cache model. */
module BfsKernel {
  import Arithmetic
  import opened Graphs
  import opened Bfs

  /** SlidingQueue: appends become visible when the window slides. `shared` is the used part of a
      buffer of maxSize slots, which appends must never overrun. */
  class SlidingQueue {
    const maxSize: nat
    var shared: seq<nat>
    var outStart: nat
    var outEnd: nat

    constructor (maxSize: nat)
      ensures this.maxSize == maxSize && Valid() && Window() == Pending() == shared == []
    {
      this.maxSize := maxSize;
      shared, outStart, outEnd := [], 0, 0;
    }

    ghost predicate Valid()
      reads this
    {
      outStart <= outEnd <= |shared| <= maxSize
    }

    function Window(): seq<nat>
      requires Valid()
      reads this
    {
      shared[outStart..outEnd]
    }

    /** What the next slide will show. */
    function Pending(): seq<nat>
      requires Valid()
      reads this
    {
      shared[outEnd..]
    }

    method PushBack(v: nat)
      requires Valid() && |shared| < maxSize
      modifies this
      ensures Valid() && Window() == old(Window()) && Pending() == old(Pending()) + [v]
      ensures |shared| == |old(shared)| + 1
    {
      shared := shared + [v];
    }

    method SlideWindow()
      requires Valid()
      modifies this
      ensures Valid() && Window() == old(Pending()) && Pending() == [] && shared == old(shared)
    {
      outStart := outEnd;
      outEnd := |shared|;
    }
  }

  // ---- Counting, for termination and for the size of the queue ----

  function Unvisited(p: seq<int>): nat {
    if p == [] then 0 else (if p[0] < 0 then 1 else 0) + Unvisited(p[1..])
  }

  lemma {:induction false} VisitOne(p: seq<int>, v: nat, x: int)
    requires v < |p| && p[v] < 0 <= x
    ensures Unvisited(p[v := x]) == Unvisited(p) - 1
  {
    if v > 0 {
      VisitOne(p[1..], v - 1, x);
      assert p[v := x][1..] == p[1..][v-1 := x];
    } else {
      assert p[v := x][1..] == p[1..];
    }
  }

  lemma {:induction false} UnvisitedBound(p: seq<int>)
    ensures Unvisited(p) <= |p|
  {
    if p != [] {
      UnvisitedBound(p[1..]);
    }
  }

  function SetBits(b: seq<bool>): nat {
    if b == [] then 0 else SetBits(b[..|b|-1]) + if b[|b|-1] then 1 else 0
  }

  lemma {:induction false} SetBit(b: seq<bool>, v: nat)
    requires v < |b| && !b[v]
    ensures SetBits(b[v := true]) == SetBits(b) + 1
  {
    if v < |b| - 1 {
      SetBit(b[..|b|-1], v);
      assert b[v := true][..|b|-1] == b[..|b|-1][v := true];
    } else {
      assert b[v := true][..|b|-1] == b[..|b|-1];
    }
  }

  lemma {:induction false} NoBits(b: seq<bool>)
    requires forall v | 0 <= v < |b| :: !b[v]
    ensures SetBits(b) == 0
  {
    if b != [] {
      NoBits(b[..|b|-1]);
    }
  }

  lemma {:induction false} SetBitsMonotone(b: seq<bool>, n: nat)
    requires n <= |b|
    ensures SetBits(b[..n]) <= SetBits(b)
    decreases |b|
  {
    if n == |b| {
      assert b[..n] == b;
    } else {
      SetBitsMonotone(b[..|b|-1], n);
      assert b[..|b|-1][..n] == b[..n];
    }
  }

  // ---- The frontier as a queue and as a bitmap ----

  /** The window lists exactly the vertices of level d. */
  ghost predicate Lists(g: Graph, level: seq<int>, d: nat, window: seq<nat>) {
    && |level| == g.N()
    && (forall i | 0 <= i < |window| :: window[i] < g.N() && level[window[i]] == d)
    && forall v | 0 <= v < g.N() && level[v] == d :: v in window
  }

  /** The bitmap marks exactly the vertices of level d. */
  ghost predicate Marks(g: Graph, level: seq<int>, d: nat, bits: seq<bool>) {
    |bits| == |level| == g.N() && forall v | 0 <= v < g.N() :: bits[v] <==> level[v] == d
  }

  method QueueToBitmap(queue: SlidingQueue, bm: array<bool>)
    requires queue.Valid() && forall i | 0 <= i < |queue.Window()| :: queue.Window()[i] < bm.Length
    modifies bm
    ensures forall v | 0 <= v < bm.Length :: bm[v] <==> old(bm[v]) || v in queue.Window()
  {
    var window := queue.Window();
    var i := 0;
    while i < |window|
      invariant i <= |window|
      invariant forall v | 0 <= v < bm.Length :: bm[v] <==> old(bm[v]) || v in window[..i]
    {
      bm[window[i]] := true;
      assert window[..i+1] == window[..i] + [window[i]];
      i := i + 1;
    }
    assert window[..i] == window;
  }

  method BitmapToQueue(bm: array<bool>, queue: SlidingQueue)
    requires queue.Valid() && queue.Pending() == []
    requires |queue.shared| + SetBits(bm[..]) <= queue.maxSize
    modifies queue
    ensures queue.Valid() && queue.Pending() == []
    ensures forall v: nat :: v in queue.Window() <==> v < bm.Length && bm[v]
    ensures |queue.Window()| == SetBits(bm[..]) && |queue.shared| == |old(queue.shared)| + SetBits(bm[..])
  {
    var n := 0;
    while n < bm.Length
      invariant n <= bm.Length && queue.Valid()
      invariant forall v: nat :: v in queue.Pending() <==> v < n && bm[v]
      invariant |queue.Pending()| == SetBits(bm[..n])
      invariant |queue.shared| == |old(queue.shared)| + SetBits(bm[..n])
    {
      assert bm[..n+1][..n] == bm[..n];
      SetBitsMonotone(bm[..], n + 1);
      if bm[n] {
        queue.PushBack(n);
      }
      n := n + 1;
    }
    assert bm[..n] == bm[..];
    queue.SlideWindow();
  }

  // ---- Top-down ----

  /** From p to q, vertices were only discovered, each from a vertex of level d. */
  ghost predicate Progress(g: Graph, level: seq<int>, d: nat, p: seq<int>, q: seq<int>) {
    && |p| == |q| == |level| == g.N()
    && (forall v | 0 <= v < g.N() :: p[v] >= 0 <==> level[v] >= 0)
    && forall v | 0 <= v < g.N() && q[v] != p[v] ::
         p[v] < 0 && 0 <= q[v] < g.N() && level[q[v]] == d && v in g.out[q[v]]
  }

  ghost predicate Covered(g: Graph, q: seq<int>, u: nat)
    requires u < g.N()
  {
    forall v | v in g.out[u] :: v < |q| && q[v] >= 0
  }

  lemma CoveredExpands(g: Graph, level: seq<int>, d: nat, p: seq<int>, q: seq<int>)
    requires g.Valid() && Progress(g, level, d, p, q)
    requires forall u | 0 <= u < g.N() && level[u] == d :: Covered(g, q, u)
    ensures Expanded(g, level, d, p, q)
  {
    forall v | 0 <= v < g.N() && q[v] == p[v] && level[v] < 0 ensures !Exposed(g, level, d, v) {
      forall u | 0 <= u < g.N() && level[u] == d ensures v !in g.out[u] {
        assert Covered(g, q, u);
      }
    }
  }

  /** The new vertices wait in the queue, each once. */
  ghost predicate Queued(p: seq<int>, q: seq<int>, pending: seq<nat>) {
    && |p| == |q|
    && (forall v: nat :: v in pending <==> v < |p| && q[v] != p[v])
    && |pending| + Unvisited(q) == Unvisited(p)
  }

  lemma Discover(g: Graph, level: seq<int>, d: nat, p: seq<int>, q: seq<int>, u: nat, v: nat, pending: seq<nat>)
    requires Progress(g, level, d, p, q) && Queued(p, q, pending)
    requires u < g.N() && v < g.N() && level[u] == d && v in g.out[u] && q[v] < 0
    ensures Progress(g, level, d, p, q[v := u]) && Queued(p, q[v := u], pending + [v])
    ensures Unvisited(q[v := u]) == Unvisited(q) - 1
  {
    VisitOne(q, v, u);
  }

  /** The edges of one frontier vertex, top-down. */
  method TDVertex(g: Graph, u: nat, parent: array<int>, queue: SlidingQueue, scout: int,
                  ghost level: seq<int>, ghost d: nat, ghost p: seq<int>) returns (scout': int)
    requires g.Valid() && u < g.N() && |level| == g.N() && level[u] == d && parent.Length == g.N()
    requires Progress(g, level, d, p, parent[..])
    requires queue.Valid() && Queued(p, parent[..], queue.Pending())
    requires |queue.shared| + Unvisited(parent[..]) <= queue.maxSize
    modifies parent, queue
    ensures Progress(g, level, d, p, parent[..]) && Covered(g, parent[..], u)
    ensures forall v | 0 <= v < parent.Length && old(parent[v]) >= 0 :: parent[v] == old(parent[v])
    ensures queue.Valid() && queue.Window() == old(queue.Window()) && Queued(p, parent[..], queue.Pending())
    ensures |queue.shared| + Unvisited(parent[..]) <= queue.maxSize
  {
    scout' := scout;
    var i := 0;
    while i < |g.out[u]|
      invariant i <= |g.out[u]|
      invariant Progress(g, level, d, p, parent[..])
      invariant forall j | 0 <= j < i :: g.out[u][j] < parent.Length && parent[g.out[u][j]] >= 0
      invariant forall v | 0 <= v < parent.Length && old(parent[v]) >= 0 :: parent[v] == old(parent[v])
      invariant queue.Valid() && queue.Window() == old(queue.Window()) && Queued(p, parent[..], queue.Pending())
      invariant |queue.shared| + Unvisited(parent[..]) <= queue.maxSize
    {
      var v := g.out[u][i];
      assert v in g.out[u];
      var currVal := parent[v];
      if currVal < 0 {
        ghost var q := parent[..];
        Discover(g, level, d, p, q, u, v, queue.Pending());
        parent[v] := u;
        assert parent[..] == q[v := u];
        queue.PushBack(v);
        scout' := scout' - currVal;
      }
      i := i + 1;
    }
  }

  /** TDStep: expands the window and queues what it discovers. The scout count it returns steers
      the choice of phase only. */
  method TDStep(g: Graph, parent: array<int>, queue: SlidingQueue, ghost level: seq<int>, ghost d: nat)
    returns (scout: int)
    requires g.Valid() && parent.Length == |level| == g.N()
    requires forall v | 0 <= v < g.N() :: parent[v] >= 0 <==> level[v] >= 0
    requires queue.Valid() && queue.Pending() == [] && Lists(g, level, d, queue.Window())
    requires |queue.shared| + Unvisited(parent[..]) <= queue.maxSize
    modifies parent, queue
    ensures Expanded(g, level, d, old(parent[..]), parent[..])
    ensures queue.Valid() && queue.Window() == old(queue.Window())
    ensures Queued(old(parent[..]), parent[..], queue.Pending())
    ensures |queue.shared| + Unvisited(parent[..]) <= queue.maxSize
  {
    ghost var p := parent[..];
    var window := queue.Window();
    scout := 0;
    var i := 0;
    while i < |window|
      invariant i <= |window| && Progress(g, level, d, p, parent[..])
      invariant forall j | 0 <= j < i :: Covered(g, parent[..], window[j])
      invariant queue.Valid() && queue.Window() == window && Queued(p, parent[..], queue.Pending())
      invariant |queue.shared| + Unvisited(parent[..]) <= queue.maxSize
    {
      scout := TDVertex(g, window[i], parent, queue, scout, level, d, p);
      i := i + 1;
    }
    CoveredExpands(g, level, d, p, parent[..]);
  }

  // ---- Bottom-up ----

  method Reset(bm: array<bool>)
    modifies bm
    ensures forall v | 0 <= v < bm.Length :: !bm[v]
  {
    var i := 0;
    while i < bm.Length
      invariant i <= bm.Length && forall v | 0 <= v < i :: !bm[v]
    {
      bm[i] := false;
      i := i + 1;
    }
  }

  /** The first in-neighbour of u whose frontier bit is set, if any. Stale bits do no harm: their
      vertices have no unvisited out-neighbour, and u is unvisited. */
  method FindFront(g: Graph, u: nat, front: array<bool>, ghost level: seq<int>, ghost d: nat)
    returns (found: bool, v: nat)
    requires g.Valid() && u < g.N() && |level| == g.N() && level[u] < 0
    requires FrontOk(g, level, d, front[..]) && forall w | 0 <= w < g.N() && level[w] == d :: front[w]
    ensures found <==> Exposed(g, level, d, u)
    ensures found ==> v < g.N() && level[v] == d && u in g.out[v]
  {
    v := 0;
    var i := 0;
    while i < |g.inn[u]|
      invariant i <= |g.inn[u]|
      invariant forall j | 0 <= j < i :: g.inn[u][j] < g.N() && !front[g.inn[u][j]]
    {
      v := g.inn[u][i];
      assert v in g.inn[u];
      if front[v] {
        assert front[..][v] && BitOk(g, level, d, v);
        return true, v;
      }
      i := i + 1;
    }
    found := false;
  }

  /** What the sweep has done to vertex v, whose parent was pv and is qv. */
  ghost predicate VertexSwept(g: Graph, level: seq<int>, d: nat, v: nat, pv: int, qv: int, bit: bool, done: bool)
    requires v < |level| == g.N()
  {
    && (bit <==> qv != pv)
    && if done && level[v] < 0 && Exposed(g, level, d, v)
       then 0 <= qv < g.N() && level[qv] == d && v in g.out[qv]
       else qv == pv
  }

  ghost predicate Swept(g: Graph, level: seq<int>, d: nat, p: seq<int>, q: seq<int>, bits: seq<bool>, u: nat) {
    && |p| == |q| == |bits| == |level| == g.N()
    && forall v | 0 <= v < g.N() :: VertexSwept(g, level, d, v, p[v], q[v], bits[v], v < u)
  }

  /** The search of one vertex. */
  method BUVertex(g: Graph, u: nat, parent: array<int>, front: array<bool>, next: array<bool>, awake0: nat,
                  ghost level: seq<int>, ghost d: nat, ghost p: seq<int>) returns (awake: nat)
    requires g.Valid() && u < g.N() && front != next && Swept(g, level, d, p, parent[..], next[..], u)
    requires forall v | 0 <= v < g.N() :: p[v] >= 0 <==> level[v] >= 0
    requires FrontOk(g, level, d, front[..]) && forall w | 0 <= w < g.N() && level[w] == d :: front[w]
    requires awake0 == SetBits(next[..]) && Unvisited(parent[..]) + awake0 == Unvisited(p)
    modifies parent, next
    ensures Swept(g, level, d, p, parent[..], next[..], u + 1)
    ensures awake == SetBits(next[..]) && Unvisited(parent[..]) + awake == Unvisited(p)
  {
    ghost var q, b := parent[..], next[..];
    assert VertexSwept(g, level, d, u, p[u], q[u], b[u], false);
    awake := awake0;
    if parent[u] < 0 {
      var found, v := FindFront(g, u, front, level, d);
      if found {
        VisitOne(q, u, v);
        SetBit(b, u);
        parent[u] := v;
        awake := awake + 1;
        next[u] := true;
        assert parent[..] == q[u := v] && next[..] == b[u := true];
      }
    }
    assert VertexSwept(g, level, d, u, p[u], parent[..][u], next[..][u], true);
    assert forall v | 0 <= v < g.N() && v != u :: parent[..][v] == q[v] && next[..][v] == b[v];
  }

  /** BUStep: every unvisited vertex looks for a parent on the frontier. */
  method BUStep(g: Graph, parent: array<int>, front: array<bool>, next: array<bool>,
                ghost level: seq<int>, ghost d: nat) returns (awake: nat)
    requires g.Valid() && parent.Length == |level| == next.Length == g.N() && front != next
    requires forall v | 0 <= v < g.N() :: parent[v] >= 0 <==> level[v] >= 0
    requires FrontOk(g, level, d, front[..]) && forall w | 0 <= w < g.N() && level[w] == d :: front[w]
    modifies parent, next
    ensures Swept(g, level, d, old(parent[..]), parent[..], next[..], g.N())
    ensures awake == SetBits(next[..]) && Unvisited(parent[..]) + awake == old(Unvisited(parent[..]))
  {
    ghost var p := parent[..];
    awake := 0;
    Reset(next);
    NoBits(next[..]);
    var u := 0;
    while u < g.N()
      invariant u <= g.N() && Swept(g, level, d, p, parent[..], next[..], u)
      invariant awake == SetBits(next[..]) && Unvisited(parent[..]) + awake == Unvisited(p)
    {
      awake := BUVertex(g, u, parent, front, next, awake, level, d, p);
      u := u + 1;
    }
  }

  lemma SweptExpands(g: Graph, level: seq<int>, d: nat, p: seq<int>, q: seq<int>, bits: seq<bool>)
    requires Swept(g, level, d, p, q, bits, g.N())
    ensures Expanded(g, level, d, p, q) && forall v | 0 <= v < g.N() :: bits[v] <==> q[v] != p[v]
  {
    assert forall v | 0 <= v < g.N() :: VertexSwept(g, level, d, v, p[v], q[v], bits[v], true);
  }

  // ---- The phase loop ----

  lemma DiscoveredIsNextLevel(g: Graph, s: nat, level: seq<int>, d: nat, p: seq<int>, q: seq<int>, v: nat)
    requires Levels(g, s, level, d) && TreeInv(g, s, level, p) && Expanded(g, level, d, p, q) && v < g.N()
    ensures q[v] != p[v] <==> NextLevels(g, level, d)[v] == d + 1
  {
  }

  lemma PendingListsLevel(g: Graph, s: nat, level: seq<int>, d: nat, p: seq<int>, q: seq<int>, pending: seq<nat>)
    requires Levels(g, s, level, d) && TreeInv(g, s, level, p) && Expanded(g, level, d, p, q)
    requires Queued(p, q, pending)
    ensures Lists(g, NextLevels(g, level, d), d + 1, pending)
  {
    assert forall i | 0 <= i < |pending| :: pending[i] in pending;
    forall v: nat | v < g.N() ensures v in pending <==> NextLevels(g, level, d)[v] == d + 1 {
      DiscoveredIsNextLevel(g, s, level, d, p, q, v);
    }
  }

  lemma NextMarksLevel(g: Graph, s: nat, level: seq<int>, d: nat, p: seq<int>, q: seq<int>, bits: seq<bool>)
    requires Levels(g, s, level, d) && TreeInv(g, s, level, p) && Expanded(g, level, d, p, q)
    requires |bits| == g.N() && forall v | 0 <= v < g.N() :: bits[v] <==> q[v] != p[v]
    ensures Marks(g, NextLevels(g, level, d), d + 1, bits)
  {
    forall v: nat | v < g.N() ensures bits[v] <==> NextLevels(g, level, d)[v] == d + 1 {
      DiscoveredIsNextLevel(g, s, level, d, p, q, v);
    }
  }

  /** The search has reached level d and front marks at least that level. */
  ghost predicate Searching(g: Graph, s: nat, level: seq<int>, d: nat, parent: seq<int>, front: seq<bool>) {
    && Levels(g, s, level, d) && TreeInv(g, s, level, parent)
    && FrontOk(g, level, d, front) && forall w | 0 <= w < g.N() && level[w] == d :: front[w]
  }

  lemma MarksFront(g: Graph, s: nat, level: seq<int>, d: nat, parent: seq<int>, bits: seq<bool>)
    requires Levels(g, s, level, d) && TreeInv(g, s, level, parent) && Marks(g, level, d, bits)
    ensures Searching(g, s, level, d, parent, bits)
  {
  }

  lemma TurnLevels(g: Graph, s: nat, level: seq<int>, d: nat, p: seq<int>, q: seq<int>, bits: seq<bool>)
    requires g.Valid() && Levels(g, s, level, d) && TreeInv(g, s, level, p) && Swept(g, level, d, p, q, bits, g.N())
    ensures Searching(g, s, NextLevels(g, level, d), d + 1, q, bits) && Marks(g, NextLevels(g, level, d), d + 1, bits)
  {
    SweptExpands(g, level, d, p, q, bits);
    LevelsAdvance(g, s, level, d);
    TreeAdvance(g, s, level, d, p, q);
    NextMarksLevel(g, s, level, d, p, q, bits);
    MarksFront(g, s, NextLevels(g, level, d), d + 1, q, bits);
  }

  /** One bottom-up step seen from the level structure: `next` becomes the next frontier. */
  method BUTurn(g: Graph, ghost s: nat, parent: array<int>, front: array<bool>, next: array<bool>,
                ghost level: seq<int>, ghost d: nat) returns (awake: nat, ghost level': seq<int>)
    requires g.Valid() && parent.Length == next.Length == g.N() && front != next
    requires Searching(g, s, level, d, parent[..], front[..])
    modifies parent, next
    ensures Searching(g, s, level', d + 1, parent[..], next[..]) && Marks(g, level', d + 1, next[..])
    ensures awake == SetBits(next[..]) && Unvisited(parent[..]) + awake == old(Unvisited(parent[..]))
  {
    ghost var p := parent[..];
    awake := BUStep(g, parent, front, next, level, d);
    TurnLevels(g, s, level, d, p, parent[..], next[..]);
    level' := NextLevels(g, level, d);
  }

  /** The bottom-up loop. The two bitmaps swap roles after each step and only `next` is cleared. */
  method BottomUp(g: Graph, ghost s: nat, parent: array<int>, front0: array<bool>, curr0: array<bool>,
                  size: nat, beta: nat, ghost level0: seq<int>, ghost d0: nat)
    returns (front: array<bool>, curr: array<bool>, ghost level: seq<int>, ghost d: nat)
    requires g.Valid() && beta > 0 && size > 0
    requires parent.Length == front0.Length == curr0.Length == g.N() && front0 != curr0
    requires Searching(g, s, level0, d0, parent[..], front0[..])
    modifies parent, front0, curr0
    ensures (front == front0 && curr == curr0) || (front == curr0 && curr == front0)
    ensures Searching(g, s, level, d, parent[..], front[..]) && Marks(g, level, d, front[..])
    ensures SetBits(front[..]) + Unvisited(parent[..]) <= old(Unvisited(parent[..]))
    ensures SetBits(front[..]) == 0 || Unvisited(parent[..]) < old(Unvisited(parent[..]))
  {
    front, curr, level, d := front0, curr0, level0, d0;
    var awake := size;
    var limit: nat := g.N() / beta;
    ghost var total := Unvisited(parent[..]);
    while true
      invariant awake > 0
      invariant (front == front0 && curr == curr0) || (front == curr0 && curr == front0)
      invariant Searching(g, s, level, d, parent[..], front[..])
      invariant Unvisited(parent[..]) <= total
      decreases Unvisited(parent[..])
    {
      var oldAwake := awake;
      awake, level := BUTurn(g, s, parent, front, curr, level, d);
      d := d + 1;
      front, curr := curr, front;
      if !(awake >= oldAwake || awake > limit) {
        break;
      }
    }
  }

  /** C++ division truncates toward zero. */
  function TruncDiv(a: int, b: nat): (q: int)
    requires b > 0
    ensures a >= 0 ==> b * q <= a < b * q + b
    ensures a < 0 ==> b * q - b < a <= b * q
  {
    if a >= 0 then
      Arithmetic.DivBounds(a, b);
      a / b
    else
      Arithmetic.DivBounds(-a, b);
      assert b * -((-a) / b) == -(b * ((-a) / b));
      -((-a) / b)
  }

  lemma ListsLevel(g: Graph, level: seq<int>, d: nat, bits: seq<bool>, window: seq<nat>)
    requires Marks(g, level, d, bits) && forall v: nat :: v in window <==> v < |bits| && bits[v]
    ensures Lists(g, level, d, window)
  {
    forall i | 0 <= i < |window| ensures window[i] < g.N() && level[window[i]] == d {
      assert window[i] in window;
    }
  }

  lemma WindowFitsFront(g: Graph, level: seq<int>, d: nat, window: seq<nat>, before: seq<bool>, after: seq<bool>)
    requires FrontOk(g, level, d, before) && Lists(g, level, d, window) && |after| == |before|
    requires forall v | 0 <= v < |after| :: after[v] <==> before[v] || v in window
    ensures FrontOk(g, level, d, after) && forall w | 0 <= w < g.N() && level[w] == d :: after[w]
  {
  }

  /** InitParent: unvisited vertices carry their negated out-degree, or -1. */
  method InitParent(g: Graph) returns (parent: array<int>)
    ensures fresh(parent) && parent.Length == g.N()
    ensures forall v | 0 <= v < g.N() :: parent[v] < 0
  {
    parent := new int[g.N()];
    var n := 0;
    while n < g.N()
      invariant n <= g.N() && forall v | 0 <= v < n :: parent[v] < 0
    {
      parent[n] := if |g.out[n]| != 0 then -|g.out[n]| else -1;
      n := n + 1;
    }
  }

  /** Unreached vertices are reported as -1. */
  method Finalize(parent: array<int>)
    modifies parent
    ensures forall v | 0 <= v < parent.Length :: parent[v] == if old(parent[v]) < -1 then -1 else old(parent[v])
  {
    var n := 0;
    while n < parent.Length
      invariant n <= parent.Length
      invariant forall v | 0 <= v < parent.Length ::
        parent[v] == if v < n && old(parent[v]) < -1 then -1 else old(parent[v])
    {
      if parent[n] < -1 {
        parent[n] := -1;
      }
      n := n + 1;
    }
  }

  /** What holds between phases: the queue window lists level d, and the stale bits are harmless. */
  ghost predicate Between(g: Graph, s: nat, level: seq<int>, d: nat, parent: seq<int>, front: seq<bool>,
                          window: seq<nat>)
  {
    && Levels(g, s, level, d) && TreeInv(g, s, level, parent)
    && FrontOk(g, level, d, front) && Lists(g, level, d, window)
  }

  method TDPhase(g: Graph, ghost s: nat, parent: array<int>, queue: SlidingQueue, ghost front: seq<bool>,
                 ghost level: seq<int>, ghost d: nat) returns (scout: int, ghost level': seq<int>)
    requires g.Valid() && parent.Length == g.N() && queue.Valid() && queue.Pending() == []
    requires Between(g, s, level, d, parent[..], front, queue.Window())
    requires |queue.shared| + Unvisited(parent[..]) <= queue.maxSize
    modifies parent, queue
    ensures queue.Valid() && queue.Pending() == []
    ensures Between(g, s, level', d + 1, parent[..], front, queue.Window())
    ensures |queue.shared| + Unvisited(parent[..]) <= queue.maxSize
    ensures |queue.Window()| + Unvisited(parent[..]) == old(Unvisited(parent[..]))
  {
    ghost var p := parent[..];
    scout := TDStep(g, parent, queue, level, d);
    level' := NextLevels(g, level, d);
    LevelsAdvance(g, s, level, d);
    TreeAdvance(g, s, level, d, p, parent[..]);
    FrontAdvance(g, level, d, front);
    PendingListsLevel(g, s, level, d, p, parent[..], queue.Pending());
    queue.SlideWindow();
  }

  /** The window is added to the bitmap, next to whatever stale bits are there, and left behind. */
  method EnterBottomUp(g: Graph, ghost s: nat, queue: SlidingQueue, front: array<bool>, ghost level: seq<int>,
                       ghost d: nat, ghost p: seq<int>) returns (size: nat)
    requires queue.Valid() && queue.Pending() == [] && front.Length == g.N()
    requires Between(g, s, level, d, p, front[..], queue.Window())
    modifies queue, front
    ensures Searching(g, s, level, d, p, front[..]) && size == |old(queue.Window())|
    ensures queue.Valid() && queue.Pending() == [] && queue.shared == old(queue.shared)
  {
    ghost var before := front[..];
    QueueToBitmap(queue, front);
    WindowFitsFront(g, level, d, queue.Window(), before, front[..]);
    size := |queue.Window()|;
    queue.SlideWindow();
  }

  method LeaveBottomUp(g: Graph, ghost s: nat, front: array<bool>, queue: SlidingQueue, ghost level: seq<int>,
                       ghost d: nat, ghost p: seq<int>)
    requires queue.Valid() && queue.Pending() == [] && |queue.shared| + SetBits(front[..]) <= queue.maxSize
    requires Searching(g, s, level, d, p, front[..]) && Marks(g, level, d, front[..])
    modifies queue
    ensures queue.Valid() && queue.Pending() == [] && Between(g, s, level, d, p, front[..], queue.Window())
    ensures |queue.Window()| == SetBits(front[..]) && |queue.shared| == |old(queue.shared)| + SetBits(front[..])
  {
    BitmapToQueue(front, queue);
    ListsLevel(g, level, d, front[..], queue.Window());
  }

  method BUPhase(g: Graph, ghost s: nat, parent: array<int>, queue: SlidingQueue, front0: array<bool>,
                 curr0: array<bool>, beta: nat, ghost level: seq<int>, ghost d: nat)
    returns (front: array<bool>, curr: array<bool>, ghost level': seq<int>, ghost d': nat)
    requires g.Valid() && beta > 0 && queue.Valid() && queue.Pending() == [] && |queue.Window()| > 0
    requires parent.Length == front0.Length == curr0.Length == g.N() && front0 != curr0
    requires Between(g, s, level, d, parent[..], front0[..], queue.Window())
    requires |queue.shared| + Unvisited(parent[..]) <= queue.maxSize
    modifies parent, queue, front0, curr0
    ensures (front == front0 && curr == curr0) || (front == curr0 && curr == front0)
    ensures queue.Valid() && queue.Pending() == []
    ensures Between(g, s, level', d', parent[..], front[..], queue.Window())
    ensures |queue.shared| + Unvisited(parent[..]) <= queue.maxSize
    ensures |queue.Window()| + Unvisited(parent[..]) <= old(Unvisited(parent[..]))
  {
    var size := EnterBottomUp(g, s, queue, front0, level, d, parent[..]);
    front, curr, level', d' := BottomUp(g, s, parent, front0, curr0, size, beta, level, d);
    LeaveBottomUp(g, s, front, queue, level', d', parent[..]);
  }

  lemma WindowEmptyLevel(g: Graph, level: seq<int>, d: nat, window: seq<nat>)
    requires Lists(g, level, d, window) && window == []
    ensures forall u | 0 <= u < g.N() :: level[u] != d
  {
  }

  /** The initial tree and queue: the source alone, on level 0. */
  method StartSearch(g: Graph, source: nat, ghost front: seq<bool>)
    returns (parent: array<int>, queue: SlidingQueue, ghost level: seq<int>)
    requires g.Valid() && source < g.N()
    requires |front| == g.N() && forall v | 0 <= v < g.N() :: !front[v]
    ensures fresh(parent) && fresh(queue) && parent.Length == g.N() && queue.Valid() && queue.Pending() == []
    ensures Between(g, source, level, 0, parent[..], front, queue.Window())
    ensures |queue.shared| + Unvisited(parent[..]) <= queue.maxSize
  {
    parent := InitParent(g);
    parent[source] := source;
    queue := new SlidingQueue(g.N());
    queue.PushBack(source);
    queue.SlideWindow();
    level := seq(g.N(), v => if v == source then 0 else -1);
    LevelsStart(g, source, level);
    StartCount(parent[..], source);
  }

  /** An empty window means the tree is complete. */
  method FinishSearch(g: Graph, ghost source: nat, parent: array<int>, ghost front: seq<bool>,
                      ghost level: seq<int>, ghost d: nat) returns (tree: seq<int>)
    requires g.Valid() && Between(g, source, level, d, parent[..], front, [])
    modifies parent
    ensures ShortestPathTree(g, source, tree)
  {
    WindowEmptyLevel(g, level, d, []);
    ghost var p := parent[..];
    Finalize(parent);
    FinishedTree(g, source, level, d, p, parent[..]);
    tree := parent[..];
  }

  /** DOBFS: whatever mix of top-down and bottom-up phases the heuristics choose, it terminates with
      a shortest-path tree, and its queue stays within a buffer of one slot per vertex. */
  method DOBFS(g: Graph, source: nat, alpha: nat, beta: nat, forceTopDown: bool) returns (tree: seq<int>)
    requires g.Valid() && source < g.N() && alpha > 0 && beta > 0
    ensures ShortestPathTree(g, source, tree)
  {
    var curr := new bool[g.N()](_ => false);
    var front := new bool[g.N()](_ => false);
    var edgesToCheck := DirectedEdges(g);
    var scoutCount := |g.out[source]|;
    ghost var d := 0;
    var parent, queue;
    ghost var level;
    parent, queue, level := StartSearch(g, source, front[..]);
    while |queue.Window()| > 0
      invariant parent.Length == front.Length == curr.Length == g.N() && front != curr
      invariant fresh(parent) && fresh(front) && fresh(curr) && fresh(queue)
      invariant queue.Valid() && queue.Pending() == []
      invariant Between(g, source, level, d, parent[..], front[..], queue.Window())
      invariant |queue.shared| + Unvisited(parent[..]) <= queue.maxSize
      decreases Unvisited(parent[..]), |queue.Window()| > 0
    {
      var threshold := TruncDiv(edgesToCheck, alpha);
      if !forceTopDown && scoutCount > threshold {
        front, curr, level, d := BUPhase(g, source, parent, queue, front, curr, beta, level, d);
        scoutCount := 1;
      } else {
        edgesToCheck := edgesToCheck - scoutCount;
        scoutCount, level := TDPhase(g, source, parent, queue, front[..], level, d);
        d := d + 1;
      }
    }
    tree := FinishSearch(g, source, parent, front[..], level, d);
  }

  method DirectedEdges(g: Graph) returns (total: int)
  {
    total := 0;
    var u := 0;
    while u < g.N() {
      total := total + |g.out[u]|;
      u := u + 1;
    }
  }

  lemma StartCount(p: seq<int>, s: nat)
    requires s < |p| && p[s] >= 0
    ensures Unvisited(p) + 1 <= |p|
  {
    UnvisitedBound(p[s := -1]);
    VisitOne(p[s := -1], s, p[s]);
    assert p[s := -1][s := p[s]] == p;
  }
}
