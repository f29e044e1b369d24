/** Reuse epochs: quantizing the position of a reference, and reading the distance back. */
module Epochs {
  import opened Arithmetic

  /** currentEpoch: the position of vertex u in a sweep of n vertices, in ne steps. */
  function CurrentEpoch(u: nat, n: nat, ne: nat): nat {
    if n > 0 then u * ne / n else 0
  }

  /** quantizedFutureEpoch, including its conversion to uint16_t. */
  function QuantizedFutureEpoch(reader: nat, current: nat, n: nat, ne: nat, wrapped: bool): nat {
    if n == 0 || ne < 2 then 0
    else
      var raw := reader * ne / n;
      var epoch := if raw >= ne then ne - 1 else raw;
      var currentEpoch := CurrentEpoch(current, n, ne);
      var e := if wrapped && epoch == currentEpoch then (if currentEpoch == 0 then ne - 1 else currentEpoch - 1)
        else epoch;
      e % UINT16_LIMIT
  }

  /** epochDistance: how many epochs ahead of the current one a delivered epoch lies. */
  function EpochDistance(epoch: nat, current: nat, ne: nat): nat {
    if ne < 2 then 0
    else
      var e := if epoch >= ne then ne - 1 else epoch;
      (e + ne - current % ne) % ne
  }

  /** reuseAdmissionRRPV: the distance scaled to 0..rrpvMax, rounding up. */
  function ReuseAdmissionRRPV(first: nat, current: nat, ne: nat, rrpvMax: nat): nat {
    if ne < 2 || rrpvMax == 0 then 0
    else
      var scaled := CeilDiv(EpochDistance(first, current, ne) * rrpvMax, ne - 1);
      if scaled < rrpvMax then scaled else rrpvMax
  }

  // ---- Arithmetic ----

  lemma EpochMonotone(x: nat, y: nat, n: nat, ne: nat)
    requires n > 0 && x <= y
    ensures CurrentEpoch(x, n, ne) <= CurrentEpoch(y, n, ne)
  {
    assert x * ne <= y * ne;
    DivMonotone(x * ne, y * ne, n);
  }

  lemma EpochBelow(x: nat, n: nat, ne: nat)
    requires x < n && ne > 0
    ensures CurrentEpoch(x, n, ne) < ne
  {
    assert x * ne < n * ne;
    DivBelow(x * ne, n, ne);
  }

  /** The epoch e of a vertex is the one with e * n <= u * ne < (e + 1) * n. */
  lemma CurrentEpochIs(u: nat, n: nat, ne: nat, e: nat)
    requires n > 0
    ensures CurrentEpoch(u, n, ne) == e <==> n * e <= u * ne < n * e + n
  {
    DivBounds(u * ne, n);
    if n * e <= u * ne < n * e + n {
      DivAtLeast(u * ne, n, e);
      DivBelow(u * ne, n, e + 1);
    }
  }

  /** Going the distance from the current epoch leads, round the sweep, to the stored epoch, or to the
      last epoch if the stored one is out of range. */
  lemma EpochDistanceIs(epoch: nat, current: nat, ne: nat, d: nat)
    requires ne >= 2
    ensures EpochDistance(epoch, current, ne) == d <==>
      d < ne && (current % ne + d) % ne == if epoch < ne then epoch else ne - 1
  {
    var e, c := if epoch < ne then epoch else ne - 1, current % ne;
    RemainderOnce(e + ne - c, ne);
    if d < ne {
      RemainderOnce(c + d, ne);
    }
  }

  // ---- References by true distance ----

  /** The epoch delivered for the reference d steps after src in the circular sweep. */
  function EpochAt(src: nat, d: nat, n: nat, ne: nat): nat
    requires n > 0
  {
    QuantizedFutureEpoch((src + d) % n, src, n, ne, src + d >= n)
  }

  /** The distance read back while src's epoch is current. */
  function DeliveredDistance(src: nat, d: nat, n: nat, ne: nat): nat
    requires n > 0
  {
    EpochDistance(EpochAt(src, d, n, ne), CurrentEpoch(src, n, ne), ne)
  }

  lemma DistanceAhead(e: nat, here: nat, ne: nat)
    requires here <= e < ne && ne >= 2
    ensures EpochDistance(e, here, ne) == e - here
  {
    RemainderOnce(here, ne);
    RemainderOnce(e + ne - here, ne);
  }

  lemma DistanceWrapped(e: nat, here: nat, ne: nat)
    requires e < here < ne && ne >= 2
    ensures EpochDistance(e, here, ne) == e + ne - here
  {
    RemainderOnce(here, ne);
    RemainderOnce(e + ne - here, ne);
  }

  /** A wrapped reference into the current epoch is delivered as the epoch just before it. */
  lemma WrappedSame(here: nat, ne: nat)
    requires here < ne && ne >= 2
    ensures EpochDistance(if here == 0 then ne - 1 else here - 1, here, ne) == ne - 1
  {
    if here == 0 {
      DistanceAhead(ne - 1, 0, ne);
    } else {
      DistanceWrapped(here - 1, here, ne);
    }
  }

  /** The epoch stored for a reader is its own, or the last one past the end of the sweep, except that a
      wrapped reference into the current epoch is stored as the epoch before it. */
  lemma QuantizedIs(reader: nat, src: nat, n: nat, ne: nat, wrapped: bool)
    requires src < n && 2 <= ne <= UINT16_LIMIT
    ensures var here, e := CurrentEpoch(src, n, ne), if reader < n then CurrentEpoch(reader, n, ne) else ne - 1;
      QuantizedFutureEpoch(reader, src, n, ne, wrapped) ==
        if wrapped && e == here then (if here == 0 then ne - 1 else here - 1) else e
  {
    if reader < n {
      EpochBelow(reader, n, ne);
    } else {
      TimesMonotone(ne, n, reader);
      DivAtLeast(reader * ne, n, ne);
    }
    EpochBelow(src, n, ne);
  }

  /** What survives quantization: whole epochs ahead; a wrapped reference into the current epoch
      counts as the farthest one. */
  lemma DeliveredDistanceIs(src: nat, d: nat, n: nat, ne: nat)
    requires src < n && 1 <= d <= n && 2 <= ne <= UINT16_LIMIT
    ensures DeliveredDistance(src, d, n, ne) ==
      var here := CurrentEpoch(src, n, ne);
      if src + d < n then CurrentEpoch(src + d, n, ne) - here
      else if CurrentEpoch(src + d - n, n, ne) == here then ne - 1
      else CurrentEpoch(src + d - n, n, ne) + ne - here
  {
    var r := if src + d < n then src + d else src + d - n;
    var here, e := CurrentEpoch(src, n, ne), CurrentEpoch(r, n, ne);
    RemainderOnce(src + d, n);
    QuantizedIs(r, src, n, ne, src + d >= n);
    EpochBelow(r, n, ne);
    EpochBelow(src, n, ne);
    if src + d < n {
      EpochMonotone(src, r, n, ne);
      DistanceAhead(e, here, ne);
    } else {
      EpochMonotone(r, src, n, ne);
      if e == here {
        WrappedSame(here, ne);
      } else {
        DistanceWrapped(e, here, ne);
      }
    }
  }

  /** Main property: a later reference is never delivered as a nearer one. */
  lemma DeliveredDistanceMonotone(src: nat, d1: nat, d2: nat, n: nat, ne: nat)
    requires src < n && 1 <= d1 <= d2 <= n && 2 <= ne <= UINT16_LIMIT
    ensures DeliveredDistance(src, d1, n, ne) <= DeliveredDistance(src, d2, n, ne) < ne
  {
    DeliveredDistanceIs(src, d1, n, ne);
    DeliveredDistanceIs(src, d2, n, ne);
    EpochBelow(src, n, ne);
    if src + d2 < n {
      EpochMonotone(src + d1, src + d2, n, ne);
      EpochBelow(src + d2, n, ne);
    } else {
      EpochMonotone(src + d2 - n, src, n, ne);
      if src + d1 < n {
        EpochBelow(src + d1, n, ne);
      } else {
        EpochMonotone(src + d1 - n, src + d2 - n, n, ne);
      }
    }
  }

  // ---- Admission priority ----

  lemma ScaledMonotone(a: nat, b: nat, m: nat, den: nat)
    requires den > 0 && a <= b
    ensures (a * m + den - 1) / den <= (b * m + den - 1) / den
  {
    assert a * m <= b * m;
    DivMonotone(a * m + den - 1, b * m + den - 1, den);
  }

  /** The scaled priority keeps the order of distances and hits both end points exactly. */
  lemma AdmissionOrder(e1: nat, e2: nat, current: nat, ne: nat, rrpvMax: nat)
    requires 2 <= ne && EpochDistance(e1, current, ne) <= EpochDistance(e2, current, ne)
    ensures ReuseAdmissionRRPV(e1, current, ne, rrpvMax) <= ReuseAdmissionRRPV(e2, current, ne, rrpvMax) <= rrpvMax
  {
    ScaledMonotone(EpochDistance(e1, current, ne), EpochDistance(e2, current, ne), rrpvMax, ne - 1);
  }

  lemma AdmissionEndPoints(e: nat, current: nat, ne: nat, rrpvMax: nat)
    requires 2 <= ne && rrpvMax > 0
    ensures ReuseAdmissionRRPV(e, current, ne, rrpvMax) == 0 <==> EpochDistance(e, current, ne) == 0
    ensures EpochDistance(e, current, ne) == ne - 1 ==> ReuseAdmissionRRPV(e, current, ne, rrpvMax) == rrpvMax
  {
    var d, den := EpochDistance(e, current, ne), ne - 1;
    var x := d * rrpvMax + den - 1;
    DivBounds(x, den);
    if d == 0 {
      DivBelow(x, den, 1);
    } else {
      assert d * rrpvMax >= 1;
      DivMonotone(den, x, den);
      assert den / den == 1;
    }
    if d == den {
      DivMonotone(den * rrpvMax, x, den);
      ExactQuotient(den, rrpvMax);
    }
  }

  /** The priority is the distance's share of the greatest one, in steps of rrpvMax, rounded up. */
  lemma AdmissionIs(first: nat, current: nat, ne: nat, rrpvMax: nat)
    requires ne >= 2
    ensures var d, k := EpochDistance(first, current, ne), ReuseAdmissionRRPV(first, current, ne, rrpvMax);
      && d * rrpvMax <= k * (ne - 1) && (k > 0 ==> (k - 1) * (ne - 1) < d * rrpvMax)
  {
    var d := EpochDistance(first, current, ne);
    RoundedUp(d * rrpvMax, ne - 1);
    ShareAtMost(d, ne - 1, rrpvMax, CeilDiv(d * rrpvMax, ne - 1));
  }

  lemma ShareAtMost(d: nat, den: nat, m: nat, k: nat)
    requires d <= den && (k > 0 ==> (k - 1) * den < d * m)
    ensures k <= m
  {
    TimesMonotone(m, d, den);
    if k > m {
      TimesMonotone(den, m, k - 1);
      assert false;
    }
  }

  lemma RoundedUp(a: nat, n: nat)
    requires n > 0
    ensures a <= CeilDiv(a, n) * n && (CeilDiv(a, n) > 0 ==> (CeilDiv(a, n) - 1) * n < a)
  {
    DivBounds(a + n - 1, n);
    var k := CeilDiv(a, n);
    assert n * k <= a + n - 1 < n * k + n && (k - 1) * n == k * n - n;
  }

  /** Encoding, delivery and admission together: later references never get a lower RRPV. */
  lemma AdmissionMonotone(src: nat, d1: nat, d2: nat, n: nat, ne: nat, rrpvMax: nat)
    requires src < n && 1 <= d1 <= d2 <= n && 2 <= ne <= UINT16_LIMIT
    ensures var here := CurrentEpoch(src, n, ne);
      ReuseAdmissionRRPV(EpochAt(src, d1, n, ne), here, ne, rrpvMax)
        <= ReuseAdmissionRRPV(EpochAt(src, d2, n, ne), here, ne, rrpvMax)
  {
    DeliveredDistanceMonotone(src, d1, d2, n, ne);
    AdmissionOrder(EpochAt(src, d1, n, ne), EpochAt(src, d2, n, ne), CurrentEpoch(src, n, ne), ne, rrpvMax);
  }

  /** A reference a whole cycle away always comes back as the farthest epoch. */
  lemma FullCycleIsFarthest(src: nat, n: nat, ne: nat)
    requires src < n && 2 <= ne <= UINT16_LIMIT
    ensures DeliveredDistance(src, n, n, ne) == ne - 1
  {
    DeliveredDistanceIs(src, n, n, ne);
  }

  // ---- The nearer of two references ----

  function ReusePlanDistance(first: nat, second: nat, count: nat, current: nat, ne: nat): nat {
    var distance := EpochDistance(first, current, ne);
    var secondDistance := EpochDistance(second, current, ne);
    if count > 1 && secondDistance < distance then secondDistance else distance
  }

  /** With two references the nearer one counts, with one the first. */
  lemma NearerCounts(first: nat, second: nat, count: nat, current: nat, ne: nat)
    ensures var a, b := EpochDistance(first, current, ne), EpochDistance(second, current, ne);
      var d := ReusePlanDistance(first, second, count, current, ne);
      if count > 1 then d <= a && d <= b && (d == a || d == b) else d == a
  {
  }

  /** While src's epoch is current the second of two references in order never overrides the first, so
      looking at both changes nothing until the epoch moves on. */
  lemma FirstRulesAtDelivery(src: nat, d1: nat, d2: nat, count: nat, n: nat, ne: nat)
    requires src < n && 1 <= d1 <= d2 <= n && 2 <= ne <= UINT16_LIMIT
    ensures ReusePlanDistance(EpochAt(src, d1, n, ne), EpochAt(src, d2, n, ne), count, CurrentEpoch(src, n, ne), ne)
      == DeliveredDistance(src, d1, n, ne)
  {
    DeliveredDistanceMonotone(src, d1, d2, n, ne);
  }
}
