/**
 * The parallel loops of Afforest as a step system: any number of workers share comp, each atomic
 * load and each compare-and-swap is one step, and a schedule says who steps next.
 */
module ConcurrentLink {
  import opened Common
  import Graphs
  import opened Forests

  datatype Pc =
    | Check          // about to read comp[u] for the skip test
    | Next           // between two links
    | First          // about to do the first of the two initial loads
    | Second         // about to do the other one
    | Test           // p1 and p2 are set; about to evaluate p1 != p2
    | ReadHigh       // about to load comp[high]
    | Swap           // saw a root; about to compare-and-swap it
    | ReadParent     // about to load comp[high] again
    | ReadGrand      // about to load comp[comp[high]]
    | ReadLow        // about to load comp[low]
    | Done(skipped: bool)

  /** One loop iteration for vertex u: link u with dests[0], dests[1], ... in order.
      `guard` is the label whose vertices are skipped; `loaded` selects LinkLoaded, whose caller
      loads comp[v] before comp[u]. `done` links are finished; `iters` counts loop turns. */
  datatype Worker = Worker(u: nat, dests: seq<nat>, guard: Option<nat>, loaded: bool,
                           pc: Pc, done: nat, p1: nat, p2: nat, high: nat, low: nat,
                           seen: nat, iters: nat)

  datatype State = State(comp: seq<nat>, workers: seq<Worker>)

  function Start(u: nat, dests: seq<nat>, guard: Option<nat>, loaded: bool): Worker {
    Worker(u, dests, guard, loaded, Check, 0, 0, 0, 0, 0, 0, 0)
  }

  /** Everything a worker's program text keeps in range, whatever other workers do. */
  ghost predicate InRange(w: Worker, n: nat) {
    && w.u < n && (forall j | 0 <= j < |w.dests| :: w.dests[j] < n)
    && w.done <= |w.dests|
    && (w.pc in {First, Second, Test, ReadHigh, Swap, ReadParent, ReadGrand, ReadLow} ==> w.done < |w.dests|)
    && w.p1 < n && w.p2 < n && w.high < n && w.low < n && w.seen < n
  }

  function Finish(w: Worker): Worker
  {
    w.(pc := Next, done := w.done + 1)
  }

  /** The worker's own half of a step, as a function of the shared array. */
  function Advance(c: seq<nat>, w: Worker): Worker
    requires InRange(w, |c|)
  {
    match w.pc
    case Check =>
      if w.guard == Some(c[w.u]) then w.(pc := Done(true)) else w.(pc := Next)
    case Next =>
      if w.done == |w.dests| then w.(pc := Done(false)) else w.(pc := First, iters := 0)
    case First =>
      if w.loaded then w.(p2 := c[w.dests[w.done]], pc := Second) else w.(p1 := c[w.u], pc := Second)
    case Second =>
      if w.loaded then w.(p1 := c[w.u], pc := Test) else w.(p2 := c[w.dests[w.done]], pc := Test)
    case Test =>
      if w.p1 == w.p2 then Finish(w)
      else
        var high := if w.p1 > w.p2 then w.p1 else w.p2;
        w.(high := high, low := w.p1 + w.p2 - high, iters := w.iters + 1, pc := ReadHigh)
    case ReadHigh =>
      if c[w.high] == w.low then Finish(w)
      else if c[w.high] == w.high then w.(pc := Swap)
      else w.(pc := ReadParent)
    case Swap =>
      if c[w.high] == w.high then Finish(w) else w.(pc := ReadParent)
    case ReadParent => w.(seen := c[w.high], pc := ReadGrand)
    case ReadGrand => w.(p1 := c[w.seen], pc := ReadLow)
    case ReadLow => w.(p2 := c[w.low], pc := Test)
    case Done(_) => w
  }

  /** The only store of the link phase: a successful compare-and-swap. */
  function Store(c: seq<nat>, w: Worker): seq<nat>
    requires InRange(w, |c|)
  {
    if w.pc == Swap && c[w.high] == w.high then c[w.high := w.low] else c
  }

  ghost predicate AllInRange(s: State) {
    forall i | 0 <= i < |s.workers| :: InRange(s.workers[i], |s.comp|)
  }

  function Step(s: State, i: nat): State
    requires AllInRange(s)
  {
    if i < |s.workers| then
      State(Store(s.comp, s.workers[i]), s.workers[i := Advance(s.comp, s.workers[i])])
    else s
  }

  // ---- The invariant ----

  /** What a link in progress knows, by program point. */
  ghost predicate LinkInv(c: seq<nat>, r: seq<nat>, w: Worker, v: nat)
    requires Labels(c, r) && InRange(w, |c|) && v < |c|
  {
    match w.pc
    case First => w.iters == 0
    case Second =>
      w.iters == 0 && if w.loaded then r[w.p2] == r[v] && w.p2 <= v else r[w.p1] == r[w.u] && w.p1 <= w.u
    case Test => Matched(r, w.u, v, w.p1, w.p2) && w.iters + Max(w.p1, w.p2) <= Max(w.u, v)
    case ReadHigh => HighLowInv(c, r, w, v)
    case Swap => HighLowInv(c, r, w, v)
    case ReadParent => HighLowInv(c, r, w, v) && c[w.high] < w.high
    case ReadGrand => HighLowInv(c, r, w, v) && w.seen < w.high && r[w.seen] == r[w.high]
    case ReadLow => HighLowInv(c, r, w, v) && w.p1 < w.high && r[w.p1] == r[w.high]
    case _ => true
  }

  ghost predicate HighLowInv(c: seq<nat>, r: seq<nat>, w: Worker, v: nat)
    requires Labels(c, r) && InRange(w, |c|) && v < |c|
  {
    && Matched(r, w.u, v, w.high, w.low) && w.low < w.high
    && w.iters + w.high <= Max(w.u, v) + 1
  }

  ghost predicate WorkerInv(c: seq<nat>, r: seq<nat>, w: Worker)
    requires Labels(c, r)
  {
    && InRange(w, |c|)
    && (forall j | 0 <= j < w.done :: r[w.u] == r[w.dests[j]])
    && (w.pc == Done(false) ==> w.done == |w.dests|)
    && (w.pc == Done(true) ==> w.guard.Some? && w.guard.value < |c| && r[w.u] == r[w.guard.value])
    && (w.done < |w.dests| ==> LinkInv(c, r, w, w.dests[w.done]))
  }

  ghost predicate DestsSubmitted(w: Worker, E: set<(nat, nat)>) {
    forall j | 0 <= j < |w.dests| :: Graphs.Adjacent(E, w.u, w.dests[j])
  }

  ghost predicate Submitted(s: State, E: set<(nat, nat)>) {
    forall i | 0 <= i < |s.workers| :: DestsSubmitted(s.workers[i], E)
  }

  ghost predicate Inv(s: State, E: set<(nat, nat)>) {
    && Sound(s.comp, E) && Submitted(s, E) && Labels(s.comp, Roots(s.comp))
    && forall i | 0 <= i < |s.workers| :: WorkerOk(s.comp, s.workers[i])
  }

  ghost predicate WorkerOk(c: seq<nat>, w: Worker)
    requires Forest(c)
  {
    Labels(c, Roots(c)) && WorkerInv(c, Roots(c), w)
  }

  /** Trees only ever merge, and a vertex that has a parent keeps it. */
  ghost predicate Grows(c: seq<nat>, r: seq<nat>, d: seq<nat>, q: seq<nat>) {
    && Labels(c, r) && Labels(d, q) && |c| == |d|
    && (forall x | 0 <= x < |c| && c[x] < x :: d[x] == c[x])
    && (forall x, y | 0 <= x < |c| && 0 <= y < |c| && r[x] == r[y] :: q[x] == q[y])
  }

  lemma SetupKeepsInv(c: seq<nat>, r: seq<nat>, w: Worker)
    requires Labels(c, r) && WorkerInv(c, r, w)
    requires w.pc in {Check, Next, First, Second}
    ensures WorkerInv(c, r, Advance(c, w))
  {
  }

  lemma TestKeepsInv(c: seq<nat>, r: seq<nat>, w: Worker)
    requires Labels(c, r) && WorkerInv(c, r, w) && w.pc == Test
    ensures WorkerInv(c, r, Advance(c, w))
  {
  }

  lemma CompareKeepsInv(c: seq<nat>, r: seq<nat>, w: Worker)
    requires Labels(c, r) && WorkerInv(c, r, w)
    requires w.pc == ReadHigh || (w.pc == Swap && c[w.high] != w.high)
    ensures WorkerInv(c, r, Advance(c, w))
  {
  }

  lemma ReloadKeepsInv(c: seq<nat>, r: seq<nat>, w: Worker)
    requires Labels(c, r) && WorkerInv(c, r, w)
    requires w.pc in {ReadParent, ReadGrand, ReadLow}
    ensures WorkerInv(c, r, Advance(c, w))
  {
  }

  /** A step that does not store: the new local values still stand for u and v. */
  lemma LoadKeepsInv(c: seq<nat>, r: seq<nat>, w: Worker)
    requires Labels(c, r) && WorkerInv(c, r, w)
    requires !(w.pc == Swap && c[w.high] == w.high)
    ensures WorkerInv(c, r, Advance(c, w))
  {
    if w.pc in {Check, Next, First, Second} {
      SetupKeepsInv(c, r, w);
    } else if w.pc in {ReadParent, ReadGrand, ReadLow} {
      ReloadKeepsInv(c, r, w);
    } else if w.pc == Test {
      TestKeepsInv(c, r, w);
    } else if !w.pc.Done? {
      CompareKeepsInv(c, r, w);
    }
  }

  lemma SwapGrows(c: seq<nat>, r: seq<nat>, h: nat, l: nat)
    requires Labels(c, r) && l < h < |c| && c[h] == h
    ensures Grows(c, r, c[h := l], Merge(r, h, l))
  {
    var d, q := c[h := l], Merge(r, h, l);
    assert c[l] <= l;
    forall x | 0 <= x < |c| ensures d[x] <= x && q[x] <= x && q[d[x]] == q[x] && (d[x] == x ==> q[x] == x) {
      assert c[x] <= x;
    }
  }

  /** A successful compare-and-swap joins the two trees and finishes the link. */
  lemma SwapKeepsInv(c: seq<nat>, r: seq<nat>, w: Worker)
    requires Labels(c, r) && WorkerInv(c, r, w)
    requires w.pc == Swap && c[w.high] == w.high
    ensures Grows(c, r, c[w.high := w.low], Merge(r, w.high, w.low))
    ensures WorkerInv(c[w.high := w.low], Merge(r, w.high, w.low), Finish(w))
  {
    SwapGrows(c, r, w.high, w.low);
    assert c[w.high] <= w.high;
  }

  lemma OthersKeepInv(c: seq<nat>, r: seq<nat>, d: seq<nat>, q: seq<nat>, w: Worker)
    requires Grows(c, r, d, q) && WorkerInv(c, r, w)
    ensures WorkerInv(d, q, w)
  {
  }

  lemma StoreIsSound(c: seq<nat>, w: Worker, E: set<(nat, nat)>)
    requires Sound(c, E) && Labels(c, Roots(c)) && WorkerInv(c, Roots(c), w) && DestsSubmitted(w, E)
    requires w.pc == Swap && w.done < |w.dests|
    ensures Graphs.Connected(E, w.high, w.low)
  {
    var u, v := w.u, w.dests[w.done];
    Graphs.ConnectedEdge(E, u, v);
    Graphs.ConnectedEdge(E, v, u);
    var a, b := if SameTree(c, u, w.high) then u else v, if SameTree(c, u, w.high) then v else u;
    SameTreeConnected(c, E, w.high, a);
    SameTreeConnected(c, E, b, w.low);
    Graphs.ConnectedTrans(E, w.high, a, b);
    Graphs.ConnectedTrans(E, w.high, b, w.low);
  }

  ghost predicate StepGrows(s: State, t: State)
    requires Forest(s.comp) && Forest(t.comp)
  {
    Grows(s.comp, Roots(s.comp), t.comp, Roots(t.comp))
  }

  lemma SwapMove(c: seq<nat>, w: Worker, E: set<(nat, nat)>)
    requires Sound(c, E) && WorkerOk(c, w) && DestsSubmitted(w, E)
    requires w.pc == Swap && c[w.high] == w.high
    ensures var d := c[w.high := w.low];
      Sound(d, E) && Grows(c, Roots(c), d, Roots(d)) && WorkerOk(d, Finish(w))
  {
    SwapKeepsInv(c, Roots(c), w);
    HookRoots(c, w.high, w.low);
    StoreIsSound(c, w, E);
  }

  lemma AdvanceKeepsTask(c: seq<nat>, w: Worker)
    requires InRange(w, |c|)
    ensures var a := Advance(c, w); a.u == w.u && a.dests == w.dests && a.guard == w.guard
  {
  }

  /** The worker that moves: its own invariant, and the change to the shared trees. */
  lemma MoverKeepsInv(c: seq<nat>, w: Worker, E: set<(nat, nat)>)
    requires Sound(c, E) && WorkerOk(c, w) && DestsSubmitted(w, E)
    ensures var d := Store(c, w);
      Sound(d, E) && Grows(c, Roots(c), d, Roots(d)) && WorkerOk(d, Advance(c, w))
    ensures DestsSubmitted(Advance(c, w), E)
  {
    AdvanceKeepsTask(c, w);
    if w.pc == Swap && c[w.high] == w.high {
      SwapMove(c, w, E);
    } else {
      LoadKeepsInv(c, Roots(c), w);
    }
  }

  lemma OtherKeepsInv(c: seq<nat>, d: seq<nat>, w: Worker)
    requires Forest(c) && Forest(d) && Grows(c, Roots(c), d, Roots(d)) && WorkerOk(c, w)
    ensures WorkerOk(d, w)
  {
    OthersKeepInv(c, Roots(c), d, Roots(d), w);
  }

  /** The invariant of a state in which one worker changed and the trees grew. */
  lemma ReplaceWorker(s: State, i: nat, w: Worker, d: seq<nat>, E: set<(nat, nat)>)
    requires Inv(s, E) && i < |s.workers| && Forest(d) && WorkerOk(d, w) && Sound(d, E)
    requires Grows(s.comp, Roots(s.comp), d, Roots(d))
    requires DestsSubmitted(w, E)
    ensures Inv(State(d, s.workers[i := w]), E)
  {
    forall j | 0 <= j < |s.workers| && j != i ensures WorkerOk(d, s.workers[j]) {
      OtherKeepsInv(s.comp, d, s.workers[j]);
    }
  }

  /** One step of any worker keeps the invariant, merges only connected trees and splits none. */
  lemma StepKeepsInv(s: State, i: nat, E: set<(nat, nat)>)
    requires Inv(s, E)
    ensures Inv(Step(s, i), E) && StepGrows(s, Step(s, i))
  {
    if i < |s.workers| {
      var w := s.workers[i];
      assert WorkerOk(s.comp, w) && DestsSubmitted(w, E);
      MoverKeepsInv(s.comp, w, E);
      ReplaceWorker(s, i, Advance(s.comp, w), Store(s.comp, w), E);
    }
  }

  // ---- Whole runs ----

  /** The state after a schedule; every schedule is an interleaving and vice versa. */
  ghost function Run(s: State, E: set<(nat, nat)>, schedule: seq<nat>): (t: State)
    requires Inv(s, E)
    ensures Inv(t, E) && |t.comp| == |s.comp| && |t.workers| == |s.workers|
    decreases |schedule|
  {
    if schedule == [] then s
    else
      StepKeepsInv(s, schedule[0], E);
      Run(Step(s, schedule[0]), E, schedule[1..])
  }

  lemma InitialInv(s: State, E: set<(nat, nat)>)
    requires Sound(s.comp, E) && Submitted(s, E)
    requires forall i | 0 <= i < |s.workers| ::
      var w := s.workers[i]; InRange(w, |s.comp|) && w == Start(w.u, w.dests, w.guard, w.loaded)
    ensures Inv(s, E)
  {
    RootsLabel(s.comp);
    forall i | 0 <= i < |s.workers| ensures WorkerOk(s.comp, s.workers[i]) {
    }
  }

  lemma GrowsTrans(a: seq<nat>, b: seq<nat>, c: seq<nat>)
    requires Forest(a) && Forest(b) && Forest(c)
    requires Grows(a, Roots(a), b, Roots(b)) && Grows(b, Roots(b), c, Roots(c))
    ensures Grows(a, Roots(a), c, Roots(c))
  {
    var r, q, p := Roots(a), Roots(b), Roots(c);
    forall x, y | 0 <= x < |a| && 0 <= y < |a| && r[x] == r[y] ensures p[x] == p[y] {
      assert q[x] == q[y];
    }
  }

  /** Merges are permanent: whatever happens later, vertices in one tree stay in one tree. */
  lemma {:induction false} RunGrows(s: State, E: set<(nat, nat)>, schedule: seq<nat>)
    requires Inv(s, E)
    ensures StepGrows(s, Run(s, E, schedule))
    decreases |schedule|
  {
    if schedule != [] {
      StepKeepsInv(s, schedule[0], E);
      RunGrows(Step(s, schedule[0]), E, schedule[1..]);
      GrowsTrans(s.comp, Step(s, schedule[0]).comp, Run(s, E, schedule).comp);
    }
  }

  // ---- Wait-freedom ----

  /** Steps a worker still needs once `done` links are finished. */
  ghost function Rest(u: nat, dests: seq<nat>, done: nat): nat
    requires done <= |dests|
    decreases |dests| - done
  {
    if done == |dests| then 1 else 6 * Max(u, dests[done]) + 4 + Rest(u, dests, done + 1)
  }

  /** A bound on the steps a worker still takes; it depends on the worker's own locals only. */
  ghost function Fuel(w: Worker): int
    requires w.done <= |w.dests|
  {
    if w.pc.Done? then 0
    else if w.pc == Check then Rest(w.u, w.dests, w.done) + 1
    else if w.pc == Next || w.done == |w.dests| then Rest(w.u, w.dests, w.done)
    else
      var left := 6 * (Max(w.u, w.dests[w.done]) - w.iters) + Rest(w.u, w.dests, w.done + 1);
      match w.pc
      case First => left + 3
      case Second => left + 2
      case Test => left + 1
      case ReadHigh => left + 6
      case Swap => left + 5
      case ReadParent => left + 4
      case ReadGrand => left + 3
      case _ => left + 2
  }

  lemma FuelFallsOutside(c: seq<nat>, r: seq<nat>, w: Worker)
    requires Labels(c, r) && WorkerInv(c, r, w) && w.pc in {Check, Next, First, Second}
    ensures 0 <= Fuel(Advance(c, w)) < Fuel(w)
  {
  }

  lemma FuelFallsTest(c: seq<nat>, r: seq<nat>, w: Worker)
    requires Labels(c, r) && WorkerInv(c, r, w) && w.pc == Test
    ensures 0 <= Fuel(Advance(c, w)) < Fuel(w)
  {
  }

  lemma FuelFallsInside(c: seq<nat>, r: seq<nat>, w: Worker)
    requires Labels(c, r) && WorkerInv(c, r, w) && w.pc in {ReadHigh, Swap, ReadParent, ReadGrand, ReadLow}
    ensures 0 <= Fuel(Advance(c, w)) < Fuel(w)
  {
  }

  lemma FuelFalls(c: seq<nat>, r: seq<nat>, w: Worker)
    requires Labels(c, r) && WorkerInv(c, r, w) && !w.pc.Done?
    ensures 0 <= Fuel(Advance(c, w)) < Fuel(w)
  {
    if w.pc in {Check, Next, First, Second} {
      FuelFallsOutside(c, r, w);
    } else if w.pc == Test {
      FuelFallsTest(c, r, w);
    } else {
      FuelFallsInside(c, r, w);
    }
  }

  lemma FuelPositive(c: seq<nat>, r: seq<nat>, w: Worker)
    requires Labels(c, r) && WorkerInv(c, r, w)
    ensures if w.pc.Done? then Fuel(w) == 0 else Fuel(w) > 0
  {
  }

  /** Every step a worker takes uses fuel, and no step of another worker costs it any. */
  lemma {:induction false} FuelAccount(s: State, E: set<(nat, nat)>, schedule: seq<nat>, i: nat)
    requires Inv(s, E) && i < |s.workers|
    ensures var w := Run(s, E, schedule).workers[i];
      w.pc.Done? || Fuel(w) + multiset(schedule)[i] <= Fuel(s.workers[i])
    decreases |schedule|
  {
    if schedule != [] {
      var j, rest := schedule[0], schedule[1..];
      assert schedule == [j] + rest;
      StepKeepsInv(s, j, E);
      FuelAccount(Step(s, j), E, rest, i);
      assert WorkerOk(s.comp, s.workers[i]);
      if j == i && !s.workers[i].pc.Done? {
        FuelFalls(s.comp, Roots(s.comp), s.workers[i]);
      }
      DoneStays(Step(s, j), E, rest, i);
    }
  }

  lemma StepKeepsTask(s: State, j: nat, i: nat)
    requires AllInRange(s) && i < |s.workers|
    ensures var w, a := s.workers[i], Step(s, j).workers[i];
      a.u == w.u && a.dests == w.dests && a.guard == w.guard && (w.pc.Done? ==> a == w)
  {
    if j == i {
      AdvanceKeepsTask(s.comp, s.workers[i]);
    }
  }

  lemma InvInRange(s: State, E: set<(nat, nat)>)
    requires Inv(s, E)
    ensures AllInRange(s)
  {
    forall i | 0 <= i < |s.workers| ensures InRange(s.workers[i], |s.comp|) {
      assert WorkerOk(s.comp, s.workers[i]);
    }
  }

  lemma {:induction false} DoneStays(s: State, E: set<(nat, nat)>, schedule: seq<nat>, i: nat)
    requires Inv(s, E) && i < |s.workers|
    ensures s.workers[i].pc.Done? ==> Run(s, E, schedule).workers[i] == s.workers[i]
    ensures var w := Run(s, E, schedule).workers[i];
      w.u == s.workers[i].u && w.dests == s.workers[i].dests && w.guard == s.workers[i].guard
    decreases |schedule|
  {
    if schedule != [] {
      InvInRange(s, E);
      StepKeepsInv(s, schedule[0], E);
      StepKeepsTask(s, schedule[0], i);
      DoneStays(Step(s, schedule[0]), E, schedule[1..], i);
    }
  }

  /** Wait-freedom: scheduled Fuel times, a worker has finished all its links, whatever the others do. */
  lemma WaitFree(s: State, E: set<(nat, nat)>, schedule: seq<nat>, i: nat)
    requires Inv(s, E) && i < |s.workers|
    requires multiset(schedule)[i] >= Fuel(s.workers[i])
    ensures Run(s, E, schedule).workers[i].pc.Done?
  {
    FuelAccount(s, E, schedule, i);
    var t := Run(s, E, schedule);
    assert WorkerOk(t.comp, t.workers[i]);
    FuelPositive(t.comp, Roots(t.comp), t.workers[i]);
  }

  /** Each link evaluates its loop test at most max(u, v) + 1 times. */
  lemma IterationBound(s: State, E: set<(nat, nat)>, schedule: seq<nat>, i: nat)
    requires Inv(s, E) && i < |s.workers|
    ensures var w := Run(s, E, schedule).workers[i];
      w.done < |w.dests| && w.pc in {Test, ReadHigh, Swap, ReadParent, ReadGrand, ReadLow} ==>
        w.iters <= Max(w.u, w.dests[w.done])
  {
    var t := Run(s, E, schedule);
    assert WorkerOk(t.comp, t.workers[i]);
  }

  // ---- What finished links mean ----

  ghost predicate AllDone(s: State) {
    forall i | 0 <= i < |s.workers| :: s.workers[i].pc.Done?
  }

  /** At every point of every run: finished links have joined their ends, for good, and nothing
      was joined that the submitted edges do not connect. */
  lemma LinksJoin(s: State, E: set<(nat, nat)>, before: seq<nat>, after: seq<nat>, i: nat, j: nat)
    requires Inv(s, E) && i < |s.workers|
    requires j < Run(s, E, before).workers[i].done
    ensures var t, w := Run(Run(s, E, before), E, after), s.workers[i];
      && j < |w.dests| && SameTree(t.comp, w.u, w.dests[j])
      && forall x, y | SameTree(t.comp, x, y) :: Graphs.Connected(E, x, y)
  {
    var m := Run(s, E, before);
    var t := Run(m, E, after);
    DoneStays(s, E, before, i);
    RunGrows(m, E, after);
    assert WorkerOk(m.comp, m.workers[i]);
    forall x, y | SameTree(t.comp, x, y) ensures Graphs.Connected(E, x, y) {
      SameTreeConnected(t.comp, E, x, y);
    }
  }

  lemma DoneWorker(s: State, E: set<(nat, nat)>, i: nat)
    requires Inv(s, E) && i < |s.workers| && s.workers[i].pc.Done?
    ensures var w := s.workers[i];
      if w.pc.skipped then w.guard.Some? && SameTree(s.comp, w.u, w.guard.value)
      else forall j | 0 <= j < |w.dests| :: SameTree(s.comp, w.u, w.dests[j])
  {
    assert WorkerOk(s.comp, s.workers[i]);
  }
}
