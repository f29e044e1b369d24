/** std::sort, std::stable_sort and std::upper_bound, as far as their callers rely on them. */
module Sorting {
  import Common

  ghost predicate TotalOrder(leq: (nat, nat) -> bool) {
    && (forall a, b :: leq(a, b) || leq(b, a))
    && forall a, b, c | leq(a, b) && leq(b, c) :: leq(a, c)
  }

  ghost predicate SortedBy(leq: (nat, nat) -> bool, s: seq<nat>) {
    forall i, j | 0 <= i <= j < |s| :: leq(s[i], s[j])
  }

  function Insert(leq: (nat, nat) -> bool, x: nat, s: seq<nat>): seq<nat> {
    if s == [] || leq(x, s[0]) then [x] + s else [s[0]] + Insert(leq, x, s[1..])
  }

  function Sort(leq: (nat, nat) -> bool, s: seq<nat>): seq<nat> {
    if s == [] then [] else Insert(leq, s[0], Sort(leq, s[1..]))
  }

  lemma {:induction false} InsertSize(leq: (nat, nat) -> bool, x: nat, s: seq<nat>)
    ensures |Insert(leq, x, s)| == |s| + 1
  {
    if s != [] && !leq(x, s[0]) {
      InsertSize(leq, x, s[1..]);
    }
  }

  lemma {:induction false} SortSize(leq: (nat, nat) -> bool, s: seq<nat>)
    ensures |Sort(leq, s)| == |s|
  {
    if s != [] {
      SortSize(leq, s[1..]);
      InsertSize(leq, s[0], Sort(leq, s[1..]));
    }
  }

  lemma {:induction false} InsertElements(leq: (nat, nat) -> bool, x: nat, s: seq<nat>)
    ensures multiset(Insert(leq, x, s)) == multiset(s) + multiset{x}
  {
    if s != [] && !leq(x, s[0]) {
      InsertElements(leq, x, s[1..]);
      assert s == [s[0]] + s[1..];
    }
  }

  lemma {:induction false} InsertSorts(leq: (nat, nat) -> bool, x: nat, s: seq<nat>)
    requires TotalOrder(leq) && SortedBy(leq, s)
    ensures SortedBy(leq, Insert(leq, x, s))
  {
    if s != [] && !leq(x, s[0]) {
      var r := Insert(leq, x, s[1..]);
      InsertSorts(leq, x, s[1..]);
      InsertElements(leq, x, s[1..]);
      forall i | 0 <= i < |r| ensures leq(s[0], r[i]) {
        assert r[i] in multiset(r);
        assert r[i] == x || r[i] in s[1..];
      }
    } else if s != [] {
      forall i | 0 <= i < |s| ensures leq(x, s[i]) {
        assert leq(s[0], s[i]);
      }
    }
  }

  lemma {:induction false} SortSorts(leq: (nat, nat) -> bool, s: seq<nat>)
    requires TotalOrder(leq)
    ensures SortedBy(leq, Sort(leq, s)) && multiset(Sort(leq, s)) == multiset(s) && |Sort(leq, s)| == |s|
  {
    if s != [] {
      SortSorts(leq, s[1..]);
      InsertSorts(leq, s[0], Sort(leq, s[1..]));
      InsertElements(leq, s[0], Sort(leq, s[1..]));
      assert s == [s[0]] + s[1..];
    }
    SortSize(leq, s);
  }

  /** std::upper_bound: a place where the list passes x; on an ascending list, the only one. */
  method UpperBound(rs: seq<nat>, x: nat) returns (i: nat)
    ensures i <= |rs| && (i > 0 ==> rs[i-1] <= x) && (i < |rs| ==> rs[i] > x)
    ensures Common.NonDescending(rs) ==> forall k | 0 <= k < i :: rs[k] <= x
    ensures Common.NonDescending(rs) ==> forall k | i <= k < |rs| :: rs[k] > x
  {
    var lo, hi := 0, |rs|;
    while lo < hi
      invariant lo <= hi <= |rs| && (lo > 0 ==> rs[lo-1] <= x) && (hi < |rs| ==> rs[hi] > x)
    {
      var mid := lo + (hi - lo) / 2;
      if rs[mid] <= x {
        lo := mid + 1;
      } else {
        hi := mid;
      }
    }
    i := lo;
  }
}
