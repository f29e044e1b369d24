/** Notions that several components share. */
module Common {

  datatype Option<T> = None | Some(value: T)

  function Max(a: nat, b: nat): nat { if a > b then a else b }

  predicate Distinct(l: seq<nat>) {
    forall i, j | 0 <= i < j < |l| :: l[i] != l[j]
  }

  predicate NonDescending(s: seq<nat>) {
    forall i, j | 0 <= i <= j < |s| :: s[i] <= s[j]
  }

  /** Where each row starts when rows are stored end to end. */
  ghost predicate RowOffsets<T>(rows: seq<seq<T>>, off: seq<nat>) {
    && |off| == |rows| + 1 && off[0] == 0
    && (forall u | 0 <= u < |rows| :: off[u+1] == off[u] + |rows[u]|)
    && forall u, v | 0 <= u <= v <= |rows| :: off[u] <= off[v]
  }
}
