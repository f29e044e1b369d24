/** The parallel compress loop: iteration n shortcuts its own link until it points at a root,
    while every other iteration does the same to its own. */
module ConcurrentCompress {
  import opened Forests

  // comp[n] is stored by iteration n only, so its two loads in one expression agree and are one step.
  datatype Pc =
    | ReadParent    // load comp[n] for the loop test
    | ReadGrand     // load comp[comp[n]] and test
    | Reload        // load comp[n] for the assignment
    | ReloadGrand   // load comp[comp[n]] for the assignment
    | Write         // comp[n] = the value loaded
    | Done

  datatype Cell = Cell(pc: Pc, parent: nat, grand: nat)

  /** cells[n] is the iteration for vertex n. */
  datatype State = State(comp: seq<nat>, cells: seq<Cell>)

  function Start(c: seq<nat>): State {
    State(c, seq(|c|, _ => Cell(ReadParent, 0, 0)))
  }

  ghost predicate InRange(s: State) {
    && |s.cells| == |s.comp|
    && forall n | 0 <= n < |s.cells| :: s.cells[n].parent < |s.comp| && s.cells[n].grand < |s.comp|
  }

  function Advance(c: seq<nat>, n: nat, k: Cell): Cell
    requires n < |c| && k.parent < |c|
  {
    match k.pc
    case ReadParent => k.(parent := c[n], pc := ReadGrand)
    case ReadGrand => if k.parent == c[k.parent] then k.(pc := Done) else k.(pc := Reload)
    case Reload => k.(parent := c[n], pc := ReloadGrand)
    case ReloadGrand => k.(grand := c[k.parent], pc := Write)
    case Write => k.(pc := ReadParent)
    case Done => k
  }

  function Store(c: seq<nat>, n: nat, k: Cell): seq<nat>
    requires n < |c|
  {
    if k.pc == Write then c[n := k.grand] else c
  }

  function Step(s: State, n: nat): State
    requires InRange(s)
  {
    if n < |s.cells| then
      State(Store(s.comp, n, s.cells[n]), s.cells[n := Advance(s.comp, n, s.cells[n])])
    else s
  }

  // ---- The invariant: r is the labelling by roots, which no step changes ----

  ghost predicate CellInv(c: seq<nat>, r: seq<nat>, n: nat, k: Cell)
    requires Labels(c, r) && n < |c|
  {
    && k.parent < |c| && k.grand < |c|
    && match k.pc
       case ReadParent => true
       case ReadGrand => k.parent == c[n]
       case Reload => c[c[n]] < c[n]
       case ReloadGrand => k.parent == c[n] && c[c[n]] < c[n]
       case Write => c[c[n]] < c[n] && k.grand < c[n] && r[k.grand] == r[n]
       case Done => c[c[n]] == c[n]
  }

  ghost predicate CellOk(c: seq<nat>, r: seq<nat>, n: nat, k: Cell)
  {
    Labels(c, r) && n < |c| && CellInv(c, r, n, k)
  }

  ghost predicate Inv(s: State, r: seq<nat>) {
    && |s.cells| == |s.comp| && Forest(s.comp) && Roots(s.comp) == r
    && forall n | 0 <= n < |s.cells| :: CellOk(s.comp, r, n, s.cells[n])
  }

  /** n's link is shortened to a smaller vertex of the same tree; n was not a root. */
  ghost predicate Shortcut(c: seq<nat>, r: seq<nat>, n: nat, a: nat) {
    n < |c| && Labels(c, r) && a < c[n] && c[n] < n && r[a] == r[n]
  }

  lemma ShortcutLabels(c: seq<nat>, r: seq<nat>, n: nat, a: nat)
    requires Shortcut(c, r, n, a)
    ensures Labels(c[n := a], r)
  {
    var d := c[n := a];
    forall x | 0 <= x < |c| ensures d[x] <= x && r[d[x]] == r[x] && (d[x] == x ==> r[x] == x) {
      assert c[x] <= x;
    }
  }

  lemma OthersKeepInv(c: seq<nat>, r: seq<nat>, n: nat, a: nat, m: nat, k: Cell)
    requires Shortcut(c, r, n, a) && m != n && CellOk(c, r, m, k)
    ensures CellOk(c[n := a], r, m, k)
  {
    ShortcutLabels(c, r, n, a);
    assert c[m] <= m && c[c[m]] <= c[m];
  }

  lemma WriteIsShortcut(c: seq<nat>, r: seq<nat>, n: nat, k: Cell)
    requires CellOk(c, r, n, k) && k.pc == Write
    ensures Shortcut(c, r, n, k.grand)
  {
    assert c[n] <= n;
  }

  lemma MoverKeepsInv(c: seq<nat>, r: seq<nat>, n: nat, k: Cell)
    requires CellOk(c, r, n, k)
    ensures CellOk(Store(c, n, k), r, n, Advance(c, n, k))
  {
    if k.pc == Write {
      WriteIsShortcut(c, r, n, k);
      ShortcutLabels(c, r, n, k.grand);
    } else {
      assert c[k.parent] <= k.parent;
      assert c[n] <= n;
    }
  }

  lemma ShortcutRoots(c: seq<nat>, n: nat, a: nat)
    requires Forest(c) && Shortcut(c, Roots(c), n, a)
    ensures Forest(c[n := a]) && Roots(c[n := a]) == Roots(c)
  {
    forall x: nat | x < |c| ensures c[n := a][x] <= x && Forest(c[n := a]) && Root(c[n := a], x) == Root(c, x) {
      RedirectRoot(c, n, a, x);
    }
  }

  /** No step of any iteration changes any root. */
  lemma StepKeepsInv(s: State, n: nat, r: seq<nat>)
    requires Inv(s, r)
    ensures InRange(s) && Inv(Step(s, n), r)
  {
    if n < |s.cells| {
      var c, k, t := s.comp, s.cells[n], Step(s, n);
      assert CellOk(c, r, n, k);
      MoverKeepsInv(c, r, n, k);
      if k.pc == Write {
        WriteIsShortcut(c, r, n, k);
        ShortcutRoots(c, n, k.grand);
        forall m | 0 <= m < |s.cells| && m != n ensures CellOk(t.comp, r, m, t.cells[m]) {
          OthersKeepInv(c, r, n, k.grand, m, s.cells[m]);
        }
      }
    }
  }

  lemma StartInv(c: seq<nat>)
    requires Forest(c)
    ensures Inv(Start(c), Roots(c))
  {
    RootsLabel(c);
  }

  ghost function Run(s: State, r: seq<nat>, schedule: seq<nat>): (t: State)
    requires Inv(s, r)
    ensures Inv(t, r) && |t.comp| == |s.comp|
    decreases |schedule|
  {
    if schedule == [] then s
    else
      StepKeepsInv(s, schedule[0], r);
      Run(Step(s, schedule[0]), r, schedule[1..])
  }

  ghost predicate AllDone(s: State) {
    forall n | 0 <= n < |s.cells| :: s.cells[n].pc.Done?
  }

  /** Compression ends with every vertex pointing straight at the root it started under. */
  lemma CompressFlattens(c: seq<nat>, schedule: seq<nat>, n: nat)
    requires Forest(c) && n < |c| && Inv(Start(c), Roots(c))
    requires AllDone(Run(Start(c), Roots(c), schedule))
    ensures Run(Start(c), Roots(c), schedule).comp[n] == Root(c, n)
  {
    var t := Run(Start(c), Roots(c), schedule);
    assert CellOk(t.comp, Roots(c), n, t.cells[n]);
    assert Root(t.comp, n) == Roots(c)[n];
  }

  // ---- Wait-freedom ----

  ghost function Fuel(c: seq<nat>, n: nat, k: Cell): int
    requires n < |c|
  {
    var top: int := 5 * c[n];
    match k.pc
    case ReadParent => top + 2
    case ReadGrand => top + 1
    case Reload => top
    case ReloadGrand => top - 1
    case Write => top - 2
    case Done => 0
  }

  lemma FuelFalls(c: seq<nat>, r: seq<nat>, n: nat, k: Cell)
    requires CellOk(c, r, n, k) && !k.pc.Done?
    ensures 0 <= Fuel(Store(c, n, k), n, Advance(c, n, k)) < Fuel(c, n, k)
  {
  }

  lemma FuelStep(s: State, r: seq<nat>, j: nat, n: nat)
    requires Inv(s, r) && n < |s.cells|
    ensures var t := Step(s, j);
      && |t.cells| == |s.cells| && n < |t.comp|
      && (s.cells[n].pc.Done? ==> t.cells[n].pc.Done?)
      && (t.cells[n].pc.Done?
          || Fuel(t.comp, n, t.cells[n]) + (if j == n then 1 else 0) <= Fuel(s.comp, n, s.cells[n]))
  {
    assert CellOk(s.comp, r, n, s.cells[n]);
    if j == n && !s.cells[n].pc.Done? {
      FuelFalls(s.comp, r, n, s.cells[n]);
    }
  }

  lemma CountFirst(schedule: seq<nat>, n: nat)
    requires schedule != []
    ensures multiset(schedule)[n] == (if schedule[0] == n then 1 else 0) + multiset(schedule[1..])[n]
  {
    assert schedule == [schedule[0]] + schedule[1..];
  }

  lemma {:induction false} FuelAccount(s: State, r: seq<nat>, schedule: seq<nat>, n: nat)
    requires Inv(s, r) && n < |s.cells|
    ensures var t := Run(s, r, schedule);
      t.cells[n].pc.Done? || Fuel(t.comp, n, t.cells[n]) + multiset(schedule)[n] <= Fuel(s.comp, n, s.cells[n])
    ensures s.cells[n].pc.Done? ==> Run(s, r, schedule).cells[n].pc.Done?
    decreases |schedule|
  {
    if schedule != [] {
      var j, rest := schedule[0], schedule[1..];
      CountFirst(schedule, n);
      StepKeepsInv(s, j, r);
      FuelStep(s, r, j, n);
      FuelAccount(Step(s, j), r, rest, n);
    }
  }

  /** Iteration n finishes within 5 * comp[n] + 2 of its own steps, whatever the others do. */
  lemma WaitFree(c: seq<nat>, schedule: seq<nat>, n: nat)
    requires Forest(c) && n < |c| && Inv(Start(c), Roots(c))
    requires multiset(schedule)[n] >= 5 * c[n] + 2
    ensures Run(Start(c), Roots(c), schedule).cells[n].pc.Done?
  {
    FuelAccount(Start(c), Roots(c), schedule, n);
    var t := Run(Start(c), Roots(c), schedule);
    assert CellOk(t.comp, Roots(c), n, t.cells[n]);
  }
}
