/** One row of Hawkeye's sampler: eight tagged entries with LRU ranks, as an exact LRU stack. */
module Sampler {
  import Common

  const WAYS: int := 8

  datatype Entry = Entry(valid: bool, prefetch: bool, tag: nat, lru: nat, lastTime: nat, signature: nat)

  type Row = seq<Entry>

  // ---- The specification: tags in order of last use ----

  function Without(l: seq<nat>, t: nat): seq<nat> {
    if l == [] then [] else if l[0] == t then l[1..] else [l[0]] + Without(l[1..], t)
  }

  function ToFront(m: seq<nat>, t: nat): seq<nat> { [t] + Without(m, t) }

  /** The distinct tags of a history, most recently used first. */
  function Mru(h: seq<nat>): seq<nat> {
    if h == [] then [] else ToFront(Mru(h[..|h|-1]), h[|h|-1])
  }

  function Take(l: seq<nat>): seq<nat> { if |l| <= WAYS then l else l[..WAYS] }

  lemma {:induction false} WithoutAt(l: seq<nat>, t: nat, r: nat)
    requires r < |l| && l[r] == t && forall i | 0 <= i < r :: l[i] != t
    ensures Without(l, t) == l[..r] + l[r+1..]
  {
    if r > 0 {
      WithoutAt(l[1..], t, r - 1);
      assert l[..r] == [l[0]] + l[1..][..r-1];
    }
  }

  lemma {:induction false} WithoutAbsent(l: seq<nat>, t: nat)
    requires t !in l
    ensures Without(l, t) == l
  {
    if l != [] {
      WithoutAbsent(l[1..], t);
      assert l == [l[0]] + l[1..];
    }
  }

  function Elements(l: seq<nat>): set<nat> { set t | t in l }

  lemma ElementsAppend(l: seq<nat>, t: nat)
    ensures Elements(l + [t]) == Elements(l) + {t}
  {
  }

  lemma IsElement(l: seq<nat>, t: nat)
    ensures t in Elements(l) <==> t in l
  {
  }

  lemma ToFrontShape(m: seq<nat>, t: nat) returns (r: nat)
    requires Common.Distinct(m)
    ensures r <= |m| && t !in m[..r] && (r < |m| ==> m[r] == t)
    ensures ToFront(m, t) == [t] + m[..r] + if r < |m| then m[r+1..] else []
  {
    if t in m {
      r :| 0 <= r < |m| && m[r] == t;
      WithoutAt(m, t, r);
    } else {
      r := |m|;
      WithoutAbsent(m, t);
    }
  }

  lemma ToFrontDistinct(m: seq<nat>, t: nat)
    requires Common.Distinct(m)
    ensures Common.Distinct(ToFront(m, t)) && Elements(ToFront(m, t)) == Elements(m) + {t}
  {
    var r := ToFrontShape(m, t);
    assert m == m[..r] + m[r..];
    if r < |m| {
      assert m[r..] == [t] + m[r+1..];
    }
  }

  lemma ToFrontPosition(m: seq<nat>, t: nat, i: nat) returns (j: nat)
    requires Common.Distinct(m) && 0 < i < |ToFront(m, t)|
    ensures j < |m| && m[j] == ToFront(m, t)[i] && m[j] != t
    ensures Elements(ToFront(m, t)[..i]) == Elements(m[..j]) + {t}
  {
    var r := ToFrontShape(m, t);
    var l := ToFront(m, t);
    if i <= r {
      j := i - 1;
      assert l[..i] == [t] + m[..j];
    } else {
      j := i;
      assert l[..i] == [t] + m[..r] + m[r+1..j];
      assert m[..j] == m[..r] + [t] + m[r+1..j];
    }
  }

  lemma {:induction false} MruDistinct(h: seq<nat>)
    ensures Common.Distinct(Mru(h)) && Elements(Mru(h)) == Elements(h)
  {
    if h != [] {
      var p, t := h[..|h|-1], h[|h|-1];
      assert h == p + [t];
      MruDistinct(p);
      ToFrontDistinct(Mru(p), t);
    }
  }

  function Last(h: seq<nat>, t: nat): (k: nat)
    requires t in h
    ensures k < |h| && h[k] == t && forall j | k < j < |h| :: h[j] != t
  {
    if h[|h|-1] == t then |h| - 1
    else
      assert h == h[..|h|-1] + [h[|h|-1]];
      Last(h[..|h|-1], t)
  }

  lemma LastSkips(p: seq<nat>, t: nat, m: nat)
    requires m in p && m != t
    ensures m in p + [t] && Last(p + [t], m) == Last(p, m)
  {
    var h := p + [t];
    assert h[..|h|-1] == p && h[Last(p, m)] == m;
  }

  lemma DropAppend(p: seq<nat>, t: nat, k: nat)
    requires k <= |p|
    ensures (p + [t])[k..] == p[k..] + [t]
  {
  }

  lemma DroppedElements(p: seq<nat>, t: nat, k: nat)
    requires k <= |p|
    ensures Elements((p + [t])[k..]) == Elements(p[k..]) + {t}
  {
    DropAppend(p, t, k);
    ElementsAppend(p[k..], t);
  }

  /** A use of another tag adds that tag to those used since. */
  lemma LastUseKept(p: seq<nat>, t: nat, m: nat)
    requires m in p && m != t
    ensures m in p + [t]
    ensures Elements((p + [t])[Last(p + [t], m) + 1..]) == Elements(p[Last(p, m) + 1..]) + {t}
  {
    LastSkips(p, t, m);
    var k := Last(p, m) + 1;
    DroppedElements(p, t, k);
  }

  /** The tags in front of a tag are exactly those used since its last use. */
  lemma {:induction false} MruPosition(h: seq<nat>, i: nat)
    requires i < |Mru(h)|
    ensures Mru(h)[i] in h
    ensures Elements(Mru(h)[..i]) == Elements(h[Last(h, Mru(h)[i]) + 1..])
    decreases |h|
  {
    var p, t := h[..|h|-1], h[|h|-1];
    assert h == p + [t];
    if i > 0 {
      MruDistinct(p);
      var j := ToFrontPosition(Mru(p), t, i);
      MruPosition(p, j);
      LastUseKept(p, t, Mru(p)[j]);
    }
  }

  lemma DistinctSize(l: seq<nat>)
    requires Common.Distinct(l)
    ensures |Elements(l)| == |l|
    decreases |l|
  {
    if l != [] {
      var p, t := l[..|l|-1], l[|l|-1];
      DistinctSize(p);
      assert l == p + [t];
      ElementsAppend(p, t);
    }
  }

  lemma MruIndex(h: seq<nat>, t: nat) returns (i: nat)
    requires t in h
    ensures i < |Mru(h)| && Mru(h)[i] == t
  {
    MruDistinct(h);
    IsElement(h, t);
    IsElement(Mru(h), t);
    i :| 0 <= i < |Mru(h)| && Mru(h)[i] == t;
  }

  lemma TakenAt(m: seq<nat>, i: nat)
    requires Common.Distinct(m) && i < |m|
    ensures m[i] in Take(m) <==> i < WAYS
  {
    if i < WAYS {
      assert Take(m)[i] == m[i];
    }
  }

  /** A tag is among the eight kept ones iff fewer than eight distinct tags came after its last use. */
  lemma KeptIffRecent(h: seq<nat>, t: nat)
    ensures t in Take(Mru(h)) <==> t in h && |Elements(h[Last(h, t) + 1..])| < WAYS
  {
    MruDistinct(h);
    if t in h {
      var i := MruIndex(h, t);
      MruPosition(h, i);
      DistinctSize(Mru(h)[..i]);
      TakenAt(Mru(h), i);
    } else {
      IsElement(h, t);
      IsElement(Mru(h), t);
    }
  }

  // ---- The row: valid entries come first and their ranks are a permutation ----

  /** order lists the valid ways by rank, so order and the lru fields are inverse permutations. */
  ghost predicate RowInv(row: Row, order: seq<nat>) {
    && |row| == WAYS && |order| <= WAYS
    && (forall w | 0 <= w < WAYS :: row[w].valid <==> w < |order|)
    && (forall i | 0 <= i < |order| :: order[i] < |order| && row[order[i]].lru == i)
    && (forall w | 0 <= w < |order| :: row[w].lru < |order| && order[row[w].lru] == w)
  }

  function Tags(row: Row, order: seq<nat>): (l: seq<nat>)
    requires forall i | 0 <= i < |order| :: order[i] < |row|
    ensures |l| == |order| && forall i | 0 <= i < |order| :: l[i] == row[order[i]].tag
  {
    seq(|order|, i requires 0 <= i < |order| => row[order[i]].tag)
  }

  /** The row is the LRU stack of its history. */
  ghost predicate Refines(row: Row, order: seq<nat>, h: seq<nat>) {
    RowInv(row, order) && Tags(row, order) == Take(Mru(h))
  }

  /** ageHistory: entries ranked below the threshold get one step older. */
  function AgedEntry(e: Entry, touched: bool, threshold: nat): Entry {
    if e.valid && !touched && e.lru < threshold && e.lru < WAYS - 1 then e.(lru := e.lru + 1) else e
  }

  function Aged(row: Row, touched: nat, threshold: nat): (a: Row)
    ensures |a| == |row| && forall w | 0 <= w < |row| :: a[w] == AgedEntry(row[w], w == touched, threshold)
  {
    seq(|row|, w requires 0 <= w < |row| => AgedEntry(row[w], w == touched, threshold))
  }

  /** The ways by rank once the way at rank r has been moved to the front. */
  function Promote(order: seq<nat>, r: nat): (o: seq<nat>)
    requires r < |order|
    ensures |o| == |order|
    ensures forall i | 0 <= i < |o| :: o[i] == if i == 0 then order[r] else if i <= r then order[i-1] else order[i]
  {
    [order[r]] + order[..r] + order[r+1..]
  }

  /** How promotion changes ranks: the promoted way gets 0, those in front of it one more. */
  lemma PromotedRank(row: Row, order: seq<nat>, w: nat, threshold: nat, v: nat)
    requires RowInv(row, order) && w < |order| && v < |order| && v != w
    requires threshold == row[w].lru || (row[w].lru == WAYS - 1 && threshold == WAYS)
    ensures Aged(row, w, threshold)[v].lru == if row[v].lru < row[w].lru then row[v].lru + 1 else row[v].lru
    ensures row[v].lru != row[w].lru
  {
    assert order[row[v].lru] == v && order[row[w].lru] == w;
  }

  /** The new order names way v at its new rank. */
  lemma PromotedPlace(row: Row, order: seq<nat>, w: nat, threshold: nat, e: Entry, v: nat)
    requires RowInv(row, order) && w < |order| && v < |order| && e.lru == 0
    requires threshold == row[w].lru || (row[w].lru == WAYS - 1 && threshold == WAYS)
    ensures var rank := Aged(row, w, threshold)[w := e][v].lru;
      rank < |order| && Promote(order, row[w].lru)[rank] == v
  {
    assert order[row[v].lru] == v;
    if v != w {
      PromotedRank(row, order, w, threshold, v);
    }
  }

  /** Rewriting the way at rank r, ageing those above it, promotes it. */
  lemma PromoteRow(row: Row, order: seq<nat>, w: nat, threshold: nat, e: Entry)
    requires RowInv(row, order) && w < |order| && e.valid && e.lru == 0
    requires threshold == row[w].lru || (row[w].lru == WAYS - 1 && threshold == WAYS)
    ensures RowInv(Aged(row, w, threshold)[w := e], Promote(order, row[w].lru))
  {
    var row', o := Aged(row, w, threshold)[w := e], Promote(order, row[w].lru);
    forall v | 0 <= v < |o| ensures row'[v].lru < |o| && o[row'[v].lru] == v {
      PromotedPlace(row, order, w, threshold, e, v);
    }
    PromotedOrder(row, order, w, threshold, e);
  }

  lemma PromotedOrder(row: Row, order: seq<nat>, w: nat, threshold: nat, e: Entry)
    requires RowInv(row, order) && w < |order| && e.lru == 0
    requires threshold == row[w].lru || (row[w].lru == WAYS - 1 && threshold == WAYS)
    ensures forall i | 0 <= i < |order| ::
      var o := Promote(order, row[w].lru); o[i] < |order| && Aged(row, w, threshold)[w := e][o[i]].lru == i
  {
    var r := row[w].lru;
    var o := Promote(order, r);
    forall i | 0 <= i < |order| ensures o[i] < |order| && Aged(row, w, threshold)[w := e][o[i]].lru == i {
      if i > 0 {
        var j := if i <= r then i - 1 else i;
        assert row[order[j]].lru == j && row[order[r]].lru == r;
        PromotedRank(row, order, w, threshold, order[j]);
      }
    }
  }

  /** Filling the first invalid way puts it in front of all others. */
  lemma InsertRow(row: Row, order: seq<nat>, e: Entry)
    requires RowInv(row, order) && |order| < WAYS && e.valid && e.lru == 0
    ensures RowInv(Aged(row, |order|, WAYS)[|order| := e], [|order|] + order)
  {
    var w, row' := |order|, Aged(row, |order|, WAYS)[|order| := e];
    forall v | 0 <= v < w ensures row'[v].lru == row[v].lru + 1 {
      assert row[v].lru < |order|;
    }
  }

  lemma AgedTag(row: Row, w: nat, threshold: nat, e: Entry, v: nat)
    requires w < |row| && v < |row|
    ensures Aged(row, w, threshold)[w := e][v].tag == if v == w then e.tag else row[v].tag
  {
  }

  lemma MovedToFront(l: seq<nat>, x: nat, r: nat, i: nat)
    requires r < |l| && i < |l|
    ensures ([x] + l[..r] + l[r+1..])[i] == if i == 0 then x else if i <= r then l[i-1] else l[i]
  {
  }

  lemma PromotedTag(row: Row, order: seq<nat>, w: nat, e: Entry, i: nat)
    requires RowInv(row, order) && w < |order| && i < |order|
    ensures var r, l, v := row[w].lru, Tags(row, order), Promote(order, row[w].lru)[i];
      && v < WAYS
      && Aged(row, w, r)[w := e][v].tag == if i == 0 then e.tag else if i <= r then l[i-1] else l[i]
  {
    var r, v := row[w].lru, Promote(order, row[w].lru)[i];
    if i > 0 {
      var j := if i <= r then i - 1 else i;
      assert row[order[j]].lru == j && v == order[j];
    }
    AgedTag(row, w, r, e, v);
  }

  lemma PromotedTags(row: Row, order: seq<nat>, w: nat, e: Entry)
    requires RowInv(row, order) && w < |order|
    requires forall i | 0 <= i < |order| :: Promote(order, row[w].lru)[i] < WAYS
    ensures var r, l := row[w].lru, Tags(row, order);
      Tags(Aged(row, w, r)[w := e], Promote(order, r)) == [e.tag] + l[..r] + l[r+1..]
  {
    var r, l := row[w].lru, Tags(row, order);
    var tags := Tags(Aged(row, w, r)[w := e], Promote(order, r));
    forall i | 0 <= i < |order| ensures tags[i] == ([e.tag] + l[..r] + l[r+1..])[i] {
      PromotedTag(row, order, w, e, i);
      MovedToFront(l, e.tag, r, i);
    }
  }

  lemma MruHit(h: seq<nat>, t: nat, r: nat)
    requires r < |Mru(h)| && Mru(h)[r] == t
    ensures Mru(h + [t]) == [t] + (Mru(h)[..r] + Mru(h)[r+1..])
  {
    MruDistinct(h);
    WithoutAt(Mru(h), t, r);
    assert (h + [t])[..|h|] == h;
  }

  lemma TakePromoted(m: seq<nat>, t: nat, r: nat)
    requires r < |Take(m)|
    ensures Take([t] + (m[..r] + m[r+1..])) == [t] + Take(m)[..r] + Take(m)[r+1..]
  {
  }

  /** A hit at rank r. */
  lemma HitRefines(row: Row, order: seq<nat>, h: seq<nat>, w: nat, e: Entry)
    requires Refines(row, order, h) && w < |order| && e.valid && e.lru == 0 && e.tag == row[w].tag
    ensures Refines(Aged(row, w, row[w].lru)[w := e], Promote(order, row[w].lru), h + [e.tag])
  {
    var r := row[w].lru;
    PromoteRow(row, order, w, r, e);
    PromotedTags(row, order, w, e);
    assert Take(Mru(h))[r] == Tags(row, order)[r] == e.tag;
    MruHit(h, e.tag, r);
    TakePromoted(Mru(h), e.tag, r);
  }

  lemma TakeHas(l: seq<nat>, r: nat)
    requires r < |l| && r < WAYS
    ensures l[r] in Take(l)
  {
    assert Take(l)[r] == l[r];
  }

  lemma MissTake(h: seq<nat>, t: nat)
    requires t !in Take(Mru(h))
    ensures Take(Mru(h + [t])) == Take([t] + Take(Mru(h)))
  {
    assert (h + [t])[..|h|] == h;
    MruDistinct(h);
    var m := Mru(h);
    if t in m {
      var r :| 0 <= r < |m| && m[r] == t;
      if r < WAYS {
        TakeHas(m, r);
        assert false;
      }
      WithoutAt(m, t, r);
    } else {
      WithoutAbsent(m, t);
    }
  }

  lemma InsertedTags(row: Row, order: seq<nat>, e: Entry)
    requires RowInv(row, order) && |order| < WAYS
    requires var o := [|order|] + order; forall i | 0 <= i < |o| :: o[i] < WAYS
    ensures Tags(Aged(row, |order|, WAYS)[|order| := e], [|order|] + order) == [e.tag] + Tags(row, order)
  {
    var o := [|order|] + order;
    forall i | 0 <= i < |o|
      ensures Aged(row, |order|, WAYS)[|order| := e][o[i]].tag == ([e.tag] + Tags(row, order))[i]
    {
      AgedTag(row, |order|, WAYS, e, o[i]);
    }
  }

  lemma TakeAll(t: nat, l: seq<nat>)
    requires |l| < WAYS
    ensures Take([t] + l) == [t] + l
  {
  }

  lemma InsertRefines(row: Row, order: seq<nat>, h: seq<nat>, e: Entry)
    requires Refines(row, order, h) && |order| < WAYS && e.valid && e.lru == 0 && e.tag !in Tags(row, order)
    ensures Refines(Aged(row, |order|, WAYS)[|order| := e], [|order|] + order, h + [e.tag])
  {
    InsertRow(row, order, e);
    InsertedTags(row, order, e);
    MissTake(h, e.tag);
    TakeAll(e.tag, Tags(row, order));
  }

  lemma EvictedTags(row: Row, order: seq<nat>, w: nat, e: Entry)
    requires RowInv(row, order) && |order| == WAYS && w < WAYS && row[w].lru == WAYS - 1
    requires var o := Promote(order, WAYS - 1); forall i | 0 <= i < |o| :: o[i] < WAYS
    ensures Tags(Aged(row, w, WAYS)[w := e], Promote(order, WAYS - 1)) == [e.tag] + Tags(row, order)[..WAYS-1]
  {
    var o := Promote(order, WAYS - 1);
    forall i | 0 <= i < WAYS
      ensures Aged(row, w, WAYS)[w := e][o[i]].tag == ([e.tag] + Tags(row, order)[..WAYS-1])[i]
    {
      AgedTag(row, w, WAYS, e, o[i]);
      if i > 0 {
        assert o[i] == order[i-1] && row[order[i-1]].lru == i - 1;
      }
    }
  }

  lemma TakeFirst(t: nat, l: seq<nat>)
    requires |l| == WAYS
    ensures Take([t] + l) == [t] + l[..WAYS-1]
  {
  }

  lemma EvictRefines(row: Row, order: seq<nat>, h: seq<nat>, w: nat, e: Entry)
    requires Refines(row, order, h) && |order| == WAYS && w < WAYS && row[w].lru == WAYS - 1
    requires e.valid && e.lru == 0 && e.tag !in Tags(row, order)
    ensures Refines(Aged(row, w, WAYS)[w := e], Promote(order, WAYS - 1), h + [e.tag])
  {
    PromoteRow(row, order, w, WAYS, e);
    EvictedTags(row, order, w, e);
    MissTake(h, e.tag);
    TakeFirst(e.tag, Tags(row, order));
  }
}
