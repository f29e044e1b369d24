/** Eviction: ageing to the first candidate, and the first way that is best in the variant's order. */
module VictimPolicy {

  /** One cache way. A smaller recency is older. */
  datatype Way = Way(prop: bool, rrpv: nat, recency: nat, dbg: nat, dist: nat, stamped: bool)

  /** RripFirst also stands for every number that is none of the other variants. */
  datatype Variant = GraspOnly | EpochFirst | RripFirst | EpochOnly | ShortCircuit | DegreeFirst | LruOnly

  /** The scans count an unstamped line as distance 0. */
  function EffDist(w: Way): nat { if w.stamped then w.dist else 0 }

  // ---- The orders ----

  predicate Ages(variant: Variant) { variant.GraspOnly? || variant.DegreeFirst? || variant.RripFirst? }

  predicate Eligible(variant: Variant, w: Way, rrpvMax: nat) { Ages(variant) ==> w.rrpv >= rrpvMax }

  /** The group a way belongs to; lower groups go first. Records precede property lines, and where the
      epoch rules a property line without a stamp is the last resort. */
  function Group(variant: Variant, w: Way): nat {
    match variant
    case GraspOnly | LruOnly => 0
    case EpochFirst | EpochOnly => if !w.prop then 0 else if w.stamped then 1 else 2
    case _ => if w.prop then 1 else 0
  }

  /** a is needed farther ahead than b. An unstamped line is never the farther one, and a stamped line
      is farther than an unstamped one unless it is needed right now. */
  predicate Farther(a: Way, b: Way) { a.stamped && a.dist > 0 && (b.stamped ==> a.dist > b.dist) }

  /** Within a group, the variant's lexicographic order; first come, first served where it is silent. */
  predicate Before(variant: Variant, a: Way, b: Way) {
    match variant
    case GraspOnly => false
    case LruOnly => a.recency < b.recency
    case ShortCircuit => a.prop && (Farther(a, b) || (!Farther(b, a) && a.dbg > b.dbg))
    case EpochFirst | EpochOnly => if a.prop && a.stamped then a.dist > b.dist else a.recency < b.recency
    case DegreeFirst =>
      if !a.prop then a.recency < b.recency
      else a.dbg > b.dbg || (a.dbg == b.dbg && (Farther(a, b) || (!Farther(b, a) && a.recency < b.recency)))
    case RripFirst => if !a.prop then a.recency < b.recency else Farther(a, b)
  }

  predicate Better(variant: Variant, a: Way, b: Way) {
    Group(variant, a) < Group(variant, b) || (Group(variant, a) == Group(variant, b) && Before(variant, a, b))
  }

  /** The first of the best candidates. */
  ghost predicate IsVictim(variant: Variant, ways: seq<Way>, rrpvMax: nat, v: nat) {
    && v < |ways| && Eligible(variant, ways[v], rrpvMax)
    && (forall j | 0 <= j < |ways| && Eligible(variant, ways[j], rrpvMax) :: !Better(variant, ways[j], ways[v]))
    && forall j | 0 <= j < v && Eligible(variant, ways[j], rrpvMax) :: Better(variant, ways[v], ways[j])
  }

  lemma VictimUnique(variant: Variant, ways: seq<Way>, rrpvMax: nat, v: nat, w: nat)
    requires IsVictim(variant, ways, rrpvMax, v) && IsVictim(variant, ways, rrpvMax, w)
    ensures v == w
  {
  }

  /** The victim in terms of the lines alone: a property line goes only where no record can, and then no
      line that could go has a greater distance; a line without a stamp stays while a stamped one that is
      not needed right now can go. The degree variant says so of the coldest tier it can choose from. */
  lemma VictimFields(variant: Variant, ways: seq<Way>, rrpvMax: nat, v: nat, j: nat)
    requires variant.RripFirst? || variant.ShortCircuit? || variant.DegreeFirst?
    requires IsVictim(variant, ways, rrpvMax, v) && ways[v].prop
    requires j < |ways| && (variant.ShortCircuit? || ways[j].rrpv >= rrpvMax)
    ensures ways[j].prop
    ensures variant.DegreeFirst? ==> ways[v].dbg >= ways[j].dbg
    ensures (variant.DegreeFirst? ==> ways[j].dbg == ways[v].dbg) && ways[j].stamped && ways[j].dist > 0 ==>
      ways[v].stamped && ways[v].dist >= ways[j].dist
  {
    assert Eligible(variant, ways[j], rrpvMax) && !Better(variant, ways[j], ways[v]);
  }

  // ---- Ageing ----

  function MaxAge(ways: seq<Way>): nat {
    if ways == [] then 0 else
      var rest := MaxAge(ways[..|ways|-1]);
      if ways[|ways|-1].rrpv > rest then ways[|ways|-1].rrpv else rest
  }

  lemma {:induction false} MaxAgeIsMax(ways: seq<Way>)
    ensures forall i | 0 <= i < |ways| :: ways[i].rrpv <= MaxAge(ways)
    ensures ways != [] ==> exists i :: 0 <= i < |ways| && ways[i].rrpv == MaxAge(ways)
  {
    if ways != [] {
      var n := |ways| - 1;
      MaxAgeIsMax(ways[..n]);
      if ways[n].rrpv > MaxAge(ways[..n]) || n == 0 {
        assert ways[n].rrpv == MaxAge(ways);
      } else {
        var i :| 0 <= i < n && ways[..n][i].rrpv == MaxAge(ways[..n]);
        assert ways[i].rrpv == MaxAge(ways);
      }
    }
  }

  /** How far every way ages: just enough for the oldest to reach the maximum. */
  function AgeBy(variant: Variant, ways: seq<Way>, rrpvMax: nat): nat {
    if Ages(variant) && MaxAge(ways) < rrpvMax then rrpvMax - MaxAge(ways) else 0
  }

  function Aged(ways: seq<Way>, d: nat): (aged: seq<Way>)
    ensures |aged| == |ways|
  {
    seq(|ways|, i requires 0 <= i < |ways| => ways[i].(rrpv := ways[i].rrpv + d))
  }

  /** After ageing, the candidates of an ageing variant are the ways that were oldest to begin with,
      or those already at the maximum if there were any. */
  lemma CandidatesAreOldest(variant: Variant, ways: seq<Way>, rrpvMax: nat, i: nat)
    requires Ages(variant) && i < |ways|
    ensures var d := AgeBy(variant, ways, rrpvMax);
      && (MaxAge(ways) < rrpvMax ==> (Eligible(variant, Aged(ways, d)[i], rrpvMax) <==> ways[i].rrpv == MaxAge(ways)))
      && (MaxAge(ways) >= rrpvMax ==> (Eligible(variant, Aged(ways, d)[i], rrpvMax) <==> ways[i].rrpv >= rrpvMax))
  {
    MaxAgeIsMax(ways);
  }

  method AgeAll(ways: array<Way>, rrpvMax: nat, ghost was: seq<Way>, ghost d: nat)
    requires ways[..] == Aged(was, d) && MaxAge(was) + d < rrpvMax
    modifies ways
    ensures ways[..] == Aged(was, d + 1)
  {
    MaxAgeIsMax(was);
    assert forall j | 0 <= j < ways.Length :: ways[j] == ways[..][j];
    var i := 0;
    while i < ways.Length
      invariant i <= ways.Length
      invariant forall j | 0 <= j < ways.Length :: ways[j] == if j < i then Aged(was, d + 1)[j] else Aged(was, d)[j]
    {
      if ways[i].rrpv < rrpvMax {
        ways[i] := ways[i].(rrpv := ways[i].rrpv + 1);
      }
      i := i + 1;
    }
  }

  // ---- Scanning for the best way of one group ----

  predicate InGroup(variant: Variant, w: Way, rrpvMax: nat, group: nat) {
    Eligible(variant, w, rrpvMax) && Group(variant, w) == group
  }

  /** v is the first best way of the group among the first k, or |ways| if there is none. */
  ghost predicate Picked(variant: Variant, ways: seq<Way>, rrpvMax: nat, group: nat, k: nat, v: nat) {
    && k <= |ways| && (v < k || v == |ways|)
    && (v == |ways| ==> forall j | 0 <= j < k :: !InGroup(variant, ways[j], rrpvMax, group))
    && (v < |ways| ==>
      && InGroup(variant, ways[v], rrpvMax, group)
      && (forall j | 0 <= j < k && InGroup(variant, ways[j], rrpvMax, group) :: !Before(variant, ways[j], ways[v]))
      && forall j | 0 <= j < v && InGroup(variant, ways[j], rrpvMax, group) :: Before(variant, ways[v], ways[j]))
  }

  /** The orders are strict and what is not before one way is not before a way that precedes it. */
  lemma BeforeOrder(variant: Variant, a: Way, b: Way, c: Way)
    requires Group(variant, a) == Group(variant, b) == Group(variant, c)
    ensures !Before(variant, a, a)
    ensures Before(variant, a, b) && !Before(variant, c, b) ==> Before(variant, a, c)
  {
  }

  /** Looking at one more way. */
  lemma PickOne(variant: Variant, ways: seq<Way>, rrpvMax: nat, group: nat, k: nat, v: nat)
    requires Picked(variant, ways, rrpvMax, group, k, v) && k < |ways|
    ensures Picked(variant, ways, rrpvMax, group, k + 1,
      if InGroup(variant, ways[k], rrpvMax, group) && (v == |ways| || Before(variant, ways[k], ways[v])) then k else v)
  {
    if InGroup(variant, ways[k], rrpvMax, group) {
      BeforeOrder(variant, ways[k], ways[k], ways[k]);
      if v < |ways| && Before(variant, ways[k], ways[v]) {
        forall j | 0 <= j < k && InGroup(variant, ways[j], rrpvMax, group)
          ensures Before(variant, ways[k], ways[j]) && !Before(variant, ways[j], ways[k])
        {
          BeforeOrder(variant, ways[k], ways[v], ways[j]);
          BeforeOrder(variant, ways[j], ways[k], ways[j]);
        }
      }
    }
  }

  /** The pick of the lowest non-empty group is the victim. */
  lemma LowestGroupWins(variant: Variant, ways: seq<Way>, rrpvMax: nat, group: nat, v: nat)
    requires Picked(variant, ways, rrpvMax, group, |ways|, v) && v < |ways|
    requires forall j | 0 <= j < |ways| && Eligible(variant, ways[j], rrpvMax) :: Group(variant, ways[j]) >= group
    ensures IsVictim(variant, ways, rrpvMax, v)
  {
    forall j | 0 <= j < |ways| && Eligible(variant, ways[j], rrpvMax)
      ensures !Better(variant, ways[j], ways[v]) && (j < v ==> Better(variant, ways[v], ways[j]))
    {
      assert Group(variant, ways[j]) == group ==> InGroup(variant, ways[j], rrpvMax, group);
    }
  }

  ghost predicate NoCandidate(variant: Variant, ways: seq<Way>, rrpvMax: nat) {
    forall j | 0 <= j < |ways| :: !Eligible(variant, ways[j], rrpvMax)
  }

  /** What a scan over the ways reports: the victim, or the number of ways if there is no candidate. */
  ghost predicate ScanResult(variant: Variant, ways: seq<Way>, rrpvMax: nat, v: nat) {
    if NoCandidate(variant, ways, rrpvMax) then v == |ways| else IsVictim(variant, ways, rrpvMax, v)
  }

  // ---- The scans ----

  method ScanGrasp(ways: seq<Way>, rrpvMax: nat) returns (v: nat)
    ensures ScanResult(GraspOnly, ways, rrpvMax, v)
  {
    v := 0;
    while v < |ways|
      invariant v <= |ways| && forall j | 0 <= j < v :: ways[j].rrpv < rrpvMax
    {
      if ways[v].rrpv >= rrpvMax {
        return;
      }
      v := v + 1;
    }
  }

  method ScanLru(ways: seq<Way>, rrpvMax: nat) returns (v: nat)
    requires |ways| > 0
    ensures IsVictim(LruOnly, ways, rrpvMax, v)
  {
    v := 0;
    var i := 1;
    while i < |ways|
      invariant 1 <= i <= |ways| && Picked(LruOnly, ways, rrpvMax, 0, i, v) && v < i
    {
      PickOne(LruOnly, ways, rrpvMax, 0, i, v);
      if ways[i].recency < ways[v].recency {
        v := i;
      }
      i := i + 1;
    }
    LowestGroupWins(LruOnly, ways, rrpvMax, 0, v);
  }

  method ScanShortCircuit(ways: seq<Way>, rrpvMax: nat) returns (v: nat)
    requires |ways| > 0
    ensures IsVictim(ShortCircuit, ways, rrpvMax, v)
  {
    v := 0;
    while v < |ways|
      invariant v <= |ways| && forall j | 0 <= j < v :: ways[j].prop
    {
      if !ways[v].prop {
        return;
      }
      v := v + 1;
    }
    v := 0;
    var i, farthest, hottest := 0, 0, 0;
    while i < |ways|
      invariant i <= |ways| && v < |ways| && (i == 0 ==> v == 0 && farthest == 0 && hottest == 0)
      invariant i > 0 ==> Picked(ShortCircuit, ways, rrpvMax, 1, i, v) && v < i
      invariant i > 0 ==> farthest == EffDist(ways[v]) && hottest == ways[v].dbg
    {
      if i > 0 {
        PickOne(ShortCircuit, ways, rrpvMax, 1, i, v);
      }
      var d := EffDist(ways[i]);
      if d > farthest || (d == farthest && ways[i].dbg > hottest) {
        v, farthest, hottest := i, d, ways[i].dbg;
      }
      i := i + 1;
    }
    LowestGroupWins(ShortCircuit, ways, rrpvMax, 1, v);
  }

  method ScanEpoch(variant: Variant, ways: seq<Way>, rrpvMax: nat) returns (v: nat)
    requires |ways| > 0 && (variant == EpochFirst || variant == EpochOnly)
    ensures IsVictim(variant, ways, rrpvMax, v)
  {
    var i := 0;
    v := |ways|;
    while i < |ways|
      invariant i <= |ways| && Picked(variant, ways, rrpvMax, 0, i, v)
    {
      PickOne(variant, ways, rrpvMax, 0, i, v);
      if !ways[i].prop && (v == |ways| || ways[i].recency < ways[v].recency) {
        v := i;
      }
      i := i + 1;
    }
    if v != |ways| {
      LowestGroupWins(variant, ways, rrpvMax, 0, v);
      return;
    }
    assert forall j | 0 <= j < |ways| :: !InGroup(variant, ways[j], rrpvMax, 0);
    v := FarthestStamped(variant, ways, rrpvMax);
    if v != |ways| {
      LowestGroupWins(variant, ways, rrpvMax, 1, v);
      return;
    }
    assert forall j | 0 <= j < |ways| :: !InGroup(variant, ways[j], rrpvMax, 1);
    v := 0;
    i := 1;
    while i < |ways|
      invariant 1 <= i <= |ways| && Picked(variant, ways, rrpvMax, 2, i, v) && v < i
    {
      PickOne(variant, ways, rrpvMax, 2, i, v);
      if ways[i].recency < ways[v].recency {
        v := i;
      }
      i := i + 1;
    }
    LowestGroupWins(variant, ways, rrpvMax, 2, v);
  }

  method FarthestStamped(variant: Variant, ways: seq<Way>, rrpvMax: nat) returns (v: nat)
    requires (variant == EpochFirst || variant == EpochOnly) && forall j | 0 <= j < |ways| :: ways[j].prop
    ensures Picked(variant, ways, rrpvMax, 1, |ways|, v)
  {
    var i := 0;
    v := |ways|;
    while i < |ways|
      invariant i <= |ways| && Picked(variant, ways, rrpvMax, 1, i, v)
    {
      PickOne(variant, ways, rrpvMax, 1, i, v);
      if ways[i].stamped && (v == |ways| || ways[i].dist > ways[v].dist) {
        v := i;
      }
      i := i + 1;
    }
  }

  method ScanDegree(ways: seq<Way>, rrpvMax: nat) returns (v: nat)
    ensures ScanResult(DegreeFirst, ways, rrpvMax, v)
  {
    var n: nat := |ways|;
    var rec: nat, prop: nat, i := n, n, 0;
    while i < n
      invariant i <= n
      invariant Picked(DegreeFirst, ways, rrpvMax, 0, i, rec) && Picked(DegreeFirst, ways, rrpvMax, 1, i, prop)
    {
      PickOne(DegreeFirst, ways, rrpvMax, 0, i, rec);
      PickOne(DegreeFirst, ways, rrpvMax, 1, i, prop);
      var w := ways[i];
      if w.rrpv >= rrpvMax {
        if !w.prop {
          if rec == n || w.recency < ways[rec].recency {
            rec := i;
          }
        } else {
          var d := EffDist(w);
          if prop == n || w.dbg > ways[prop].dbg
            || (w.dbg == ways[prop].dbg && d > EffDist(ways[prop]))
            || (w.dbg == ways[prop].dbg && d == EffDist(ways[prop]) && w.recency < ways[prop].recency)
          {
            prop := i;
          }
        }
      }
      i := i + 1;
    }
    v := RecordElseProperty(DegreeFirst, ways, rrpvMax, rec, prop);
  }

  method ScanRrip(ways: seq<Way>, rrpvMax: nat) returns (v: nat)
    ensures ScanResult(RripFirst, ways, rrpvMax, v)
  {
    var n: nat := |ways|;
    var rec: nat, prop: nat, i := n, n, 0;
    while i < n
      invariant i <= n
      invariant Picked(RripFirst, ways, rrpvMax, 0, i, rec) && Picked(RripFirst, ways, rrpvMax, 1, i, prop)
    {
      PickOne(RripFirst, ways, rrpvMax, 0, i, rec);
      PickOne(RripFirst, ways, rrpvMax, 1, i, prop);
      var w := ways[i];
      if w.rrpv >= rrpvMax {
        if !w.prop {
          if rec == n || w.recency < ways[rec].recency {
            rec := i;
          }
        } else {
          if prop == n || EffDist(w) > EffDist(ways[prop]) {
            prop := i;
          }
        }
      }
      i := i + 1;
    }
    v := RecordElseProperty(RripFirst, ways, rrpvMax, rec, prop);
  }

  method RecordElseProperty(variant: Variant, ways: seq<Way>, rrpvMax: nat, rec: nat, prop: nat) returns (v: nat)
    requires variant == DegreeFirst || variant == RripFirst
    requires Picked(variant, ways, rrpvMax, 0, |ways|, rec) && Picked(variant, ways, rrpvMax, 1, |ways|, prop)
    ensures ScanResult(variant, ways, rrpvMax, v)
  {
    v := if rec != |ways| then rec else prop;
    forall j | 0 <= j < |ways| && Eligible(variant, ways[j], rrpvMax)
      ensures InGroup(variant, ways[j], rrpvMax, 0) || InGroup(variant, ways[j], rrpvMax, 1)
    {
    }
    if v != |ways| {
      LowestGroupWins(variant, ways, rrpvMax, if rec != |ways| then 0 else 1, v);
    }
  }

  // ---- Selecting a victim ----

  lemma AgedByZero(ways: seq<Way>)
    ensures Aged(ways, 0) == ways
  {
  }

  /** Without a candidate every way is below the maximum, and with one no more ageing is due. */
  lemma CandidateWhenAged(variant: Variant, ways: seq<Way>, rrpvMax: nat, d: nat)
    requires Ages(variant) && |ways| > 0 && d <= AgeBy(variant, ways, rrpvMax)
    ensures NoCandidate(variant, Aged(ways, d), rrpvMax) <==> MaxAge(ways) + d < rrpvMax
  {
    MaxAgeIsMax(ways);
    var i :| 0 <= i < |ways| && ways[i].rrpv == MaxAge(ways);
    assert Aged(ways, d)[i].rrpv == MaxAge(ways) + d;
  }

  method AgeAndScan(ways: array<Way>, variant: Variant, rrpvMax: nat) returns (v: nat)
    requires ways.Length > 0 && Ages(variant)
    modifies ways
    ensures ways[..] == Aged(old(ways[..]), AgeBy(variant, old(ways[..]), rrpvMax))
    ensures IsVictim(variant, ways[..], rrpvMax, v)
  {
    ghost var was := ways[..];
    ghost var d := 0;
    AgedByZero(was);
    while true
      invariant ways[..] == Aged(was, d) && d <= AgeBy(variant, was, rrpvMax)
      decreases AgeBy(variant, was, rrpvMax) - d
    {
      CandidateWhenAged(variant, was, rrpvMax, d);
      if variant.GraspOnly? {
        v := ScanGrasp(ways[..], rrpvMax);
      } else if variant.DegreeFirst? {
        v := ScanDegree(ways[..], rrpvMax);
      } else {
        v := ScanRrip(ways[..], rrpvMax);
      }
      if v != ways.Length {
        return;
      }
      AgeAll(ways, rrpvMax, was, d);
      d := d + 1;
    }
  }

  /** selectVictim: every way ages by the amount that makes the oldest a candidate, and no more, and
      the victim is the first way that is best among the candidates in the variant's order. */
  method SelectVictim(ways: array<Way>, variant: Variant, rrpvMax: nat) returns (v: nat)
    requires ways.Length > 0
    modifies ways
    ensures ways[..] == Aged(old(ways[..]), AgeBy(variant, old(ways[..]), rrpvMax))
    ensures IsVictim(variant, ways[..], rrpvMax, v)
  {
    AgedByZero(ways[..]);
    match variant
    case LruOnly => v := ScanLru(ways[..], rrpvMax);
    case ShortCircuit => v := ScanShortCircuit(ways[..], rrpvMax);
    case EpochFirst => v := ScanEpoch(variant, ways[..], rrpvMax);
    case EpochOnly => v := ScanEpoch(variant, ways[..], rrpvMax);
    case _ => v := AgeAndScan(ways, variant, rrpvMax);
  }
}
