/** The lock-free set-dueling selector: any number of concurrent miss reports over shared atomic counters. */
module Dueling {

  const ARMS: nat := 5
  const WINDOW: nat := 1024
  const DUEL_RRIP: nat := 0

  /** Five of every 64 sets are leaders, one per arm; ARMS stands for "not a leader". */
  function LeaderArm(set_index: nat): (arm: nat)
    ensures arm <= ARMS
  {
    if set_index % 64 < ARMS then set_index % 64 else ARMS
  }

  /** What one call reports about itself. */
  datatype Event = Event(leaderSample: bool, completedWindow: bool, winnerChanged: bool, before: nat, after: nat)

  // ---- Choosing the arm with the fewest misses ----

  /** The incumbent if no arm has fewer misses, and otherwise the first arm with the fewest. */
  ghost predicate IsChosen(window: seq<nat>, incumbent: nat, best: nat) {
    && incumbent < |window| && best < |window|
    && (forall a | 0 <= a < |window| :: window[best] <= window[a])
    && (best != incumbent ==> window[best] < window[incumbent] && forall a | 0 <= a < best :: window[best] < window[a])
  }

  /** The comparison loop, from arm on. */
  function Choose(window: seq<nat>, best: nat, arm: nat): nat
    requires best < |window| && arm <= |window|
    decreases |window| - arm
  {
    if arm == |window| then best
    else Choose(window, if window[arm] < window[best] then arm else best, arm + 1)
  }

  lemma {:induction false} ChooseIsBest(window: seq<nat>, incumbent: nat, best: nat, arm: nat)
    requires incumbent < |window| && best < |window| && arm <= |window|
    requires forall a | 0 <= a < arm :: window[best] <= window[a]
    requires best != incumbent ==>
      window[best] < window[incumbent] && forall a | 0 <= a < best :: window[best] < window[a]
    ensures IsChosen(window, incumbent, Choose(window, best, arm))
    decreases |window| - arm
  {
    if arm < |window| {
      ChooseIsBest(window, incumbent, if window[arm] < window[best] then arm else best, arm + 1);
    }
  }

  // ---- The steps of one call ----

  /** Where a call stands; each atomic operation takes it to the next constructor. */
  datatype Call =
    | Begun(set_index: nat)
    | Counting(leader: nat, seen: nat)
    | Sampling(leader: nat, seen: nat)
    | Draining(leader: nat, total: nat, window: seq<nat>)
    | Installing(leader: nat, total: nat, window: seq<nat>, incumbent: nat, best: nat)
    | Ignored(event: Event)
    | Sampled(leader: nat, total: nat, event: Event)
    | Completed(leader: nat, total: nat, window: seq<nat>, incumbent: nat, event: Event)
  {
    predicate Returned() { Ignored? || Sampled? || Completed? }

    predicate HasTotal() { Draining? || Installing? || Sampled? || Completed? }
  }

  /** The atomics, every call ever begun with its set, and the orders in which the calls sampled and
      installed. */
  datatype State = State(misses: seq<nat>, sampled: nat, winner: nat, calls: seq<Call>, sets: seq<nat>,
                         samples: seq<nat>, installs: seq<nat>, winners: seq<nat>)

  datatype Action = Begin(set_index: nat) | Advance(id: nat)

  ghost predicate Shape(s: State) {
    && |s.misses| == ARMS && s.winner < ARMS
    && forall i | 0 <= i < |s.calls| :: CallOk(s.calls[i])
  }

  ghost predicate CallOk(c: Call) {
    match c
    case Begun(_) => true
    case Counting(leader, seen) => leader < ARMS && seen < ARMS
    case Sampling(leader, seen) => leader < ARMS && seen < ARMS
    case Draining(leader, total, window) => leader < ARMS && AtBoundary(total) && |window| <= ARMS
    case Installing(leader, total, window, incumbent, best) =>
      leader < ARMS && AtBoundary(total) && |window| == ARMS && IsChosen(window, incumbent, best)
    case Ignored(e) => !e.leaderSample && !e.completedWindow && !e.winnerChanged && e.before == e.after < ARMS
    case Sampled(leader, total, e) =>
      && leader < ARMS && total > 0 && !AtBoundary(total)
      && e.leaderSample && !e.completedWindow && !e.winnerChanged && e.before == e.after < ARMS
    case Completed(leader, total, window, incumbent, e) =>
      && leader < ARMS && AtBoundary(total) && |window| == ARMS && IsChosen(window, incumbent, e.after)
      && e.leaderSample && e.completedWindow && e.before < ARMS && e.after < ARMS
      && (e.winnerChanged <==> e.before != e.after)
  }

  predicate AtBoundary(total: nat) { total > 0 && total % WINDOW == 0 }

  function Put(s: State, i: nat, c: Call): State
    requires i < |s.calls|
  {
    s.(calls := s.calls[i := c])
  }

  function LoadWinner(s: State, i: nat): State
    requires i < |s.calls| && s.calls[i].Begun?
  {
    var arm := LeaderArm(s.calls[i].set_index);
    Put(s, i, if arm == ARMS then Ignored(Event(false, false, false, s.winner, s.winner)) else Counting(arm, s.winner))
  }

  function CountMiss(s: State, i: nat): State
    requires i < |s.calls| && s.calls[i].Counting? && Shape(s)
  {
    var leader := s.calls[i].leader;
    Put(s, i, Sampling(leader, s.calls[i].seen)).(misses := s.misses[leader := s.misses[leader] + 1])
  }

  function CountSample(s: State, i: nat): State
    requires i < |s.calls| && s.calls[i].Sampling?
  {
    var leader, seen, total := s.calls[i].leader, s.calls[i].seen, s.sampled + 1;
    var c := if AtBoundary(total) then Draining(leader, total, [])
             else Sampled(leader, total, Event(true, false, false, seen, seen));
    Put(s, i, c).(sampled := total, samples := s.samples + [i])
  }

  function DrainArm(s: State, i: nat): State
    requires i < |s.calls| && s.calls[i].Draining? && |s.calls[i].window| < ARMS && Shape(s)
  {
    var c := s.calls[i];
    var arm := |c.window|;
    Put(s, i, Draining(c.leader, c.total, c.window + [s.misses[arm]])).(misses := s.misses[arm := 0])
  }

  function LoadAndChoose(s: State, i: nat): State
    requires i < |s.calls| && s.calls[i].Draining? && |s.calls[i].window| == ARMS && Shape(s)
  {
    var c := s.calls[i];
    Put(s, i, Installing(c.leader, c.total, c.window, s.winner, Choose(c.window, s.winner, 0)))
  }

  function Install(s: State, i: nat): State
    requires i < |s.calls| && s.calls[i].Installing?
  {
    var c := s.calls[i];
    var e := Event(true, true, c.best != s.winner, s.winner, c.best);
    Put(s, i, Completed(c.leader, c.total, c.window, c.incumbent, e))
      .(winner := c.best, installs := s.installs + [i], winners := s.winners + [c.best])
  }

  /** One atomic operation of call i; a returned call does nothing. */
  function AdvanceCall(s: State, i: nat): State
    requires i < |s.calls| && Shape(s)
  {
    match s.calls[i]
    case Begun(_) => LoadWinner(s, i)
    case Counting(_, _) => CountMiss(s, i)
    case Sampling(_, _) => CountSample(s, i)
    case Draining(_, _, window) => if |window| < ARMS then DrainArm(s, i) else LoadAndChoose(s, i)
    case Installing(_, _, _, _, _) => Install(s, i)
    case _ => s
  }

  function Step(s: State, a: Action): State
    requires Shape(s)
  {
    match a
    case Begin(set_index) => s.(calls := s.calls + [Begun(set_index)], sets := s.sets + [set_index])
    case Advance(i) => if i < |s.calls| then AdvanceCall(s, i) else s
  }

  const INITIAL: State := State([0, 0, 0, 0, 0], 0, DUEL_RRIP, [], [], [], [], [DUEL_RRIP])

  // ---- The invariant: every sample has its own number ----

  /** samples lists, in the order of the counter, exactly the calls that have a total. */
  ghost predicate Numbered(s: State) { s.sampled == |s.samples| && OneToOne(s.calls, s.samples) }

  ghost predicate OneToOne(calls: seq<Call>, samples: seq<nat>) {
    && (forall t | 0 <= t < |samples| :: HoldsTotal(calls, samples[t], t + 1))
    && forall i | 0 <= i < |calls| && calls[i].HasTotal() ::
         1 <= calls[i].total <= |samples| && samples[calls[i].total - 1] == i
  }

  ghost predicate HoldsTotal(calls: seq<Call>, i: nat, total: nat) {
    i < |calls| && calls[i].HasTotal() && calls[i].total == total
  }

  // ---- The invariant: installed winners form a chain ----

  ghost predicate Chained(s: State) {
    && |s.winners| == |s.installs| + 1 && s.winners[0] == DUEL_RRIP && s.winners[|s.installs|] == s.winner
    && (forall k | 0 <= k < |s.installs| :: Replaced(s.calls, s.installs[k], s.winners[k], s.winners[k+1]))
    && (forall i | 0 <= i < |s.calls| && s.calls[i].Completed? :: i in s.installs)
    && (forall j, k | 0 <= j < k < |s.installs| :: s.installs[j] != s.installs[k])
  }

  ghost predicate Replaced(calls: seq<Call>, i: nat, before: nat, after: nat) {
    i < |calls| && calls[i].Completed? && calls[i].event.before == before && calls[i].event.after == after
  }

  // ---- The invariant: a call works for the arm its set leads ----

  /** Among every 64 sets the first five lead one arm each, in order, and the others lead none. */
  ghost predicate Leads(set_index: nat, c: Call) {
    match c
    case Begun(s) => s == set_index
    case Ignored(_) => set_index % 64 >= 5
    case _ => set_index % 64 == c.leader < 5
  }

  ghost predicate Led(s: State) {
    |s.sets| == |s.calls| && forall i | 0 <= i < |s.calls| :: Leads(s.sets[i], s.calls[i])
  }

  lemma LedKept(s: State, a: Action)
    requires Shape(s) && Led(s)
    ensures Led(Step(s, a))
  {
    var t := Step(s, a);
    forall i | 0 <= i < |t.calls| ensures Leads(t.sets[i], t.calls[i]) {
      if i < |s.calls| {
        assert Leads(s.sets[i], s.calls[i]);
      }
    }
  }

  // ---- The invariant: counts over all calls ----

  datatype Measure = Missed(arm: nat) | Drained(arm: nat) | Boundaries | Installed

  function Weigh(m: Measure, c: Call): nat {
    match m
    case Missed(arm) => if !c.Begun? && !c.Counting? && !c.Ignored? && c.leader == arm then 1 else 0
    case Drained(arm) =>
      if (c.Draining? || c.Installing? || c.Completed?) && arm < |c.window| then c.window[arm] else 0
    case Boundaries => if c.HasTotal() && AtBoundary(c.total) then 1 else 0
    case Installed => if c.Completed? then 1 else 0
  }

  function Sum(m: Measure, calls: seq<Call>): nat {
    if calls == [] then 0 else Sum(m, calls[..|calls|-1]) + Weigh(m, calls[|calls|-1])
  }

  lemma {:induction false} SumUpdate(m: Measure, calls: seq<Call>, i: nat, c: Call)
    requires i < |calls|
    ensures Sum(m, calls[i := c]) + Weigh(m, calls[i]) == Sum(m, calls) + Weigh(m, c)
  {
    var n := |calls| - 1;
    if i == n {
      assert calls[i := c][..n] == calls[..n];
    } else {
      assert calls[i := c][..n] == calls[..n][i := c];
      SumUpdate(m, calls[..n], i, c);
    }
  }

  lemma SumAppend(m: Measure, calls: seq<Call>, c: Call)
    ensures Sum(m, calls + [c]) == Sum(m, calls) + Weigh(m, c)
  {
    assert (calls + [c])[..|calls|] == calls;
  }

  /** Leader misses are either in the live counters or in some call's drained window. */
  ghost predicate Conserved(s: State) {
    |s.misses| == ARMS && forall arm | 0 <= arm < ARMS :: ArmConserved(s, arm)
  }

  ghost predicate ArmConserved(s: State, arm: nat)
    requires arm < |s.misses|
  {
    Sum(Missed(arm), s.calls) == s.misses[arm] + Sum(Drained(arm), s.calls)
  }

  ghost predicate Tallied(s: State) {
    Sum(Boundaries, s.calls) == s.sampled / WINDOW && Sum(Installed, s.calls) == |s.installs|
  }

  ghost predicate Inv(s: State) {
    Shape(s) && Numbered(s) && Chained(s) && Led(s) && Conserved(s) && Tallied(s)
  }

  // ---- Every step keeps each part ----

  lemma ShapeKept(s: State, a: Action)
    requires Shape(s)
    ensures Shape(Step(s, a))
  {
    if a.Advance? && a.id < |s.calls| {
      var c := s.calls[a.id];
      assert CallOk(c);
      if c.Draining? && |c.window| == ARMS {
        ChooseIsBest(c.window, s.winner, s.winner, 0);
      }
    }
  }

  /** A call that keeps its total, or still has none, keeps the numbering. */
  lemma SameNumber(calls: seq<Call>, samples: seq<nat>, i: nat, c: Call)
    requires OneToOne(calls, samples) && i < |calls| && c.HasTotal() == calls[i].HasTotal()
    requires c.HasTotal() ==> c.total == calls[i].total
    ensures OneToOne(calls[i := c], samples)
  {
    forall t | 0 <= t < |samples| ensures HoldsTotal(calls[i := c], samples[t], t + 1) {
      assert HoldsTotal(calls, samples[t], t + 1);
    }
  }

  /** A call that takes the next number. */
  lemma NextNumber(calls: seq<Call>, samples: seq<nat>, i: nat, c: Call)
    requires OneToOne(calls, samples) && i < |calls| && !calls[i].HasTotal()
    requires c.HasTotal() && c.total == |samples| + 1
    ensures OneToOne(calls[i := c], samples + [i])
  {
    forall t | 0 <= t < |samples| + 1 ensures HoldsTotal(calls[i := c], (samples + [i])[t], t + 1) {
      if t < |samples| {
        assert HoldsTotal(calls, samples[t], t + 1);
      }
    }
  }

  lemma NewCall(calls: seq<Call>, samples: seq<nat>, c: Call)
    requires OneToOne(calls, samples) && !c.HasTotal()
    ensures OneToOne(calls + [c], samples)
  {
    forall t | 0 <= t < |samples| ensures HoldsTotal(calls + [c], samples[t], t + 1) {
      assert HoldsTotal(calls, samples[t], t + 1);
    }
  }

  lemma NumberedKept(s: State, a: Action)
    requires Shape(s) && Numbered(s)
    ensures Numbered(Step(s, a))
  {
    if a.Begin? {
      NewCall(s.calls, s.samples, Begun(a.set_index));
    } else if a.id < |s.calls| {
      var c := Step(s, a).calls[a.id];
      if s.calls[a.id].Sampling? {
        NextNumber(s.calls, s.samples, a.id, c);
      } else {
        SameNumber(s.calls, s.samples, a.id, c);
      }
    }
  }

  /** A call that has not exchanged the winner yet is not the one an old exchange belongs to. */
  lemma NotYetInstalled(s: State, i: nat, k: nat)
    requires Shape(s) && Chained(s) && i < |s.calls| && s.calls[i].Installing? && k < |s.installs|
    ensures s.installs[k] != i
  {
    assert Replaced(s.calls, s.installs[k], s.winners[k], s.winners[k+1]);
  }

  lemma LinkKept(s: State, a: Action, k: nat)
    requires Shape(s) && Chained(s) && k < |s.installs|
    ensures var t := Step(s, a);
      k < |t.installs| && k + 1 < |t.winners| && Replaced(t.calls, t.installs[k], t.winners[k], t.winners[k+1])
  {
    assert Replaced(s.calls, s.installs[k], s.winners[k], s.winners[k+1]);
    if a.Advance? && a.id < |s.calls| && s.calls[a.id].Installing? {
      NotYetInstalled(s, a.id, k);
    }
  }

  lemma ChainedKept(s: State, a: Action)
    requires Shape(s) && Chained(s)
    ensures Chained(Step(s, a))
  {
    var t := Step(s, a);
    forall k | 0 <= k < |t.installs| ensures Replaced(t.calls, t.installs[k], t.winners[k], t.winners[k+1]) {
      if k < |s.installs| {
        LinkKept(s, a, k);
      }
    }
    if a.Advance? && a.id < |s.calls| && s.calls[a.id].Installing? {
      forall k | 0 <= k < |s.installs| ensures s.installs[k] != a.id {
        NotYetInstalled(s, a.id, k);
      }
    }
  }

  /** How one step of call i changes a sum. */
  lemma SumStep(m: Measure, s: State, i: nat)
    requires i < |s.calls| && Shape(s)
    ensures var t := AdvanceCall(s, i);
      |t.calls| == |s.calls| && Sum(m, t.calls) + Weigh(m, s.calls[i]) == Sum(m, s.calls) + Weigh(m, t.calls[i])
  {
    var t := AdvanceCall(s, i);
    assert t.calls == s.calls[i := t.calls[i]];
    SumUpdate(m, s.calls, i, t.calls[i]);
  }

  lemma ArmKept(s: State, i: nat, arm: nat)
    requires i < |s.calls| && Shape(s) && arm < ARMS && ArmConserved(s, arm)
    ensures |AdvanceCall(s, i).misses| == ARMS && ArmConserved(AdvanceCall(s, i), arm)
  {
    SumStep(Missed(arm), s, i);
    SumStep(Drained(arm), s, i);
    assert CallOk(s.calls[i]);
  }

  lemma ConservedKept(s: State, a: Action)
    requires Shape(s) && Conserved(s)
    ensures Conserved(Step(s, a))
  {
    var t := Step(s, a);
    if a.Advance? && a.id < |s.calls| {
      forall arm | 0 <= arm < ARMS ensures |t.misses| == ARMS && ArmConserved(t, arm) {
        assert ArmConserved(s, arm);
        ArmKept(s, a.id, arm);
      }
    } else if a.Begin? {
      forall arm | 0 <= arm < ARMS ensures ArmConserved(t, arm) {
        assert ArmConserved(s, arm);
        SumAppend(Missed(arm), s.calls, Begun(a.set_index));
        SumAppend(Drained(arm), s.calls, Begun(a.set_index));
      }
    }
  }

  lemma NextWindow(n: nat)
    ensures (n + 1) / WINDOW == n / WINDOW + if AtBoundary(n + 1) then 1 else 0
  {
  }

  lemma BoundaryWeight(s: State, i: nat)
    requires i < |s.calls| && Shape(s)
    ensures var c, t := s.calls[i], AdvanceCall(s, i);
      && i < |t.calls| && t.sampled == (if c.Sampling? then s.sampled + 1 else s.sampled)
      && Weigh(Boundaries, t.calls[i])
           == Weigh(Boundaries, c) + if c.Sampling? && AtBoundary(s.sampled + 1) then 1 else 0
  {
    assert CallOk(s.calls[i]);
  }

  lemma InstalledWeight(s: State, i: nat)
    requires i < |s.calls| && Shape(s)
    ensures var c, t := s.calls[i], AdvanceCall(s, i);
      && i < |t.calls| && |t.installs| == |s.installs| + (if c.Installing? then 1 else 0)
      && Weigh(Installed, t.calls[i]) == Weigh(Installed, c) + if c.Installing? then 1 else 0
  {
  }

  lemma AdvanceTallied(s: State, i: nat)
    requires i < |s.calls| && Shape(s) && Tallied(s)
    ensures Tallied(AdvanceCall(s, i))
  {
    BoundaryWeight(s, i);
    InstalledWeight(s, i);
    SumStep(Boundaries, s, i);
    SumStep(Installed, s, i);
    NextWindow(s.sampled);
  }

  lemma TalliedKept(s: State, a: Action)
    requires Shape(s) && Tallied(s)
    ensures Tallied(Step(s, a))
  {
    if a.Advance? && a.id < |s.calls| {
      AdvanceTallied(s, a.id);
    } else if a.Begin? {
      SumAppend(Boundaries, s.calls, Begun(a.set_index));
      SumAppend(Installed, s.calls, Begun(a.set_index));
    }
  }

  lemma StepKeepsInv(s: State, a: Action)
    requires Inv(s)
    ensures Inv(Step(s, a))
  {
    ShapeKept(s, a);
    NumberedKept(s, a);
    ChainedKept(s, a);
    LedKept(s, a);
    ConservedKept(s, a);
    TalliedKept(s, a);
  }

  // ---- Whole runs ----

  /** The state after any sequence of calls begun and operations performed, in any interleaving. */
  ghost function Execute(actions: seq<Action>): (s: State)
    ensures Shape(s)
  {
    if actions == [] then INITIAL else
      var before := Execute(actions[..|actions|-1]);
      ShapeKept(before, actions[|actions|-1]);
      Step(before, actions[|actions|-1])
  }

  lemma InitialInv()
    ensures Inv(INITIAL)
  {
    forall arm | 0 <= arm < ARMS ensures ArmConserved(INITIAL, arm) {
    }
  }

  lemma {:induction false} ExecuteInv(actions: seq<Action>)
    ensures Inv(Execute(actions))
  {
    if actions == [] {
      InitialInv();
    } else {
      ExecuteInv(actions[..|actions|-1]);
      StepKeepsInv(Execute(actions[..|actions|-1]), actions[|actions|-1]);
    }
  }

  /** Call i took the given sample, no other call did, and once returned it reports the window. */
  ghost predicate OnlyReporter(calls: seq<Call>, i: nat, total: nat) {
    && HoldsTotal(calls, i, total) && (calls[i].Returned() ==> calls[i].event.completedWindow)
    && forall j | 0 <= j < |calls| && j != i :: !HoldsTotal(calls, j, total)
  }

  lemma ReporterExists(s: State, total: nat)
    requires Inv(s) && AtBoundary(total) && total <= s.sampled
    ensures OnlyReporter(s.calls, s.samples[total - 1], total)
  {
    var i := s.samples[total - 1];
    assert HoldsTotal(s.calls, i, total);
    assert CallOk(s.calls[i]);
  }

  /** Each 1024th sample was taken by exactly one call, and that call alone reports its window. */
  lemma EachBoundaryReportedOnce(actions: seq<Action>, total: nat)
    requires total > 0 && total % 1024 == 0 && total <= Execute(actions).sampled
    ensures exists i: nat :: OnlyReporter(Execute(actions).calls, i, total)
  {
    ExecuteInv(actions);
    ReporterExists(Execute(actions), total);
  }

  /** A call reports a completed window only for a boundary that has been reached. */
  lemma ReportsAreBoundaries(actions: seq<Action>, i: nat)
    requires var calls := Execute(actions).calls; i < |calls| && calls[i].Returned() && calls[i].event.completedWindow
    ensures var s := Execute(actions);
      s.calls[i].Completed? && s.calls[i].total % 1024 == 0 && 0 < s.calls[i].total <= s.sampled
  {
    ExecuteInv(actions);
    assert CallOk(Execute(actions).calls[i]);
  }

  lemma {:induction false} SumsAgree(calls: seq<Call>)
    requires forall i | 0 <= i < |calls| :: calls[i].Returned() && CallOk(calls[i])
    ensures Sum(Boundaries, calls) == Sum(Installed, calls)
  {
    if calls != [] {
      SumsAgree(calls[..|calls|-1]);
      assert CallOk(calls[|calls|-1]);
    }
  }

  /** When no call is under way, completedWindows() is the number of calls that reported one. */
  lemma WindowsCounted(actions: seq<Action>)
    requires forall i | 0 <= i < |Execute(actions).calls| :: Execute(actions).calls[i].Returned()
    ensures var s := Execute(actions); s.sampled / 1024 == |s.installs| == Sum(Installed, s.calls)
  {
    ExecuteInv(actions);
    SumsAgree(Execute(actions).calls);
  }

  // ---- What each call read and chose ----

  /** Step k of the run is call i's load of the winner at its start. */
  ghost predicate StartsAt(actions: seq<Action>, i: nat, k: nat) {
    && k < |actions| && actions[k] == Advance(i)
    && i < |Execute(actions[..k]).calls| && Execute(actions[..k]).calls[i].Begun?
  }

  /** Step k of the run is call i's load of the winner with the whole window drained. */
  ghost predicate ChoosesAt(actions: seq<Action>, i: nat, k: nat) {
    && k < |actions| && actions[k] == Advance(i)
    && i < |Execute(actions[..k]).calls| && Execute(actions[..k]).calls[i].Draining?
    && |Execute(actions[..k]).calls[i].window| == 5
  }

  /** The winner a call has seen at its start, for the calls that still remember or report it. */
  ghost predicate Saw(c: Call, winner: nat) {
    match c
    case Counting(_, seen) => seen == winner
    case Sampling(_, seen) => seen == winner
    case Ignored(e) => e == Event(false, false, false, winner, winner)
    case Sampled(_, _, e) => e == Event(true, false, false, winner, winner)
    case _ => true
  }

  ghost predicate SawAt(actions: seq<Action>, i: nat, k: nat) {
    && StartsAt(actions, i, k) && i < |Execute(actions).calls|
    && Saw(Execute(actions).calls[i], Execute(actions[..k]).winner)
  }

  ghost predicate Chose(c: Call, window: seq<nat>, incumbent: nat) {
    (c.Installing? || c.Completed?) && c.window == window && c.incumbent == incumbent
  }

  ghost predicate ChoseAt(actions: seq<Action>, i: nat, k: nat) {
    && ChoosesAt(actions, i, k) && i < |Execute(actions).calls|
    && Chose(Execute(actions).calls[i], Execute(actions[..k]).calls[i].window, Execute(actions[..k]).winner)
  }

  lemma PrefixOfPrefix(actions: seq<Action>, k: nat)
    requires k < |actions|
    ensures actions[..|actions|-1][..k] == actions[..k]
  {
  }

  lemma ExecuteNext(actions: seq<Action>)
    requires actions != []
    ensures Execute(actions) == Step(Execute(actions[..|actions|-1]), actions[|actions|-1])
  {
  }

  /** A call's start is the step that sees the winner, and later steps do not forget or change it. */
  lemma SeeingStep(s: State, a: Action, i: nat, winner: nat)
    requires Shape(s) && i < |Step(s, a).calls| && !Step(s, a).calls[i].Begun?
    ensures i < |s.calls|
    ensures if s.calls[i].Begun? then a == Advance(i) && Saw(Step(s, a).calls[i], s.winner)
            else Saw(s.calls[i], winner) ==> Saw(Step(s, a).calls[i], winner)
  {
  }

  lemma ChoosingStep(s: State, a: Action, i: nat, window: seq<nat>, incumbent: nat)
    requires Shape(s) && i < |Step(s, a).calls| && (Step(s, a).calls[i].Installing? || Step(s, a).calls[i].Completed?)
    ensures i < |s.calls|
    ensures if s.calls[i].Draining?
            then a == Advance(i) && |s.calls[i].window| == 5 && Chose(Step(s, a).calls[i], s.calls[i].window, s.winner)
            else (s.calls[i].Installing? || s.calls[i].Completed?)
                 && (Chose(s.calls[i], window, incumbent) ==> Chose(Step(s, a).calls[i], window, incumbent))
  {
  }

  /** Every call past its start has seen, and unless it drains a window reports, the winner at its start. */
  lemma {:induction false} CallSawWinner(actions: seq<Action>, i: nat) returns (k: nat)
    requires i < |Execute(actions).calls| && !Execute(actions).calls[i].Begun?
    ensures SawAt(actions, i, k)
    decreases |actions|
  {
    k := |actions| - 1;
    var before := actions[..k];
    ExecuteNext(actions);
    SeeingStep(Execute(before), actions[k], i, 0);
    if !Execute(before).calls[i].Begun? {
      k := CallSawWinner(before, i);
      PrefixOfPrefix(actions, k);
      SeeingStep(Execute(before), actions[|actions|-1], i, Execute(before[..k]).winner);
    }
  }

  lemma {:induction false} CallChose(actions: seq<Action>, i: nat) returns (k: nat)
    requires i < |Execute(actions).calls|
    requires Execute(actions).calls[i].Installing? || Execute(actions).calls[i].Completed?
    ensures ChoseAt(actions, i, k)
    decreases |actions|
  {
    k := |actions| - 1;
    var before := actions[..k];
    ExecuteNext(actions);
    ChoosingStep(Execute(before), actions[k], i, [], 0);
    if !Execute(before).calls[i].Draining? {
      k := CallChose(before, i);
      PrefixOfPrefix(actions, k);
      ChoosingStep(Execute(before), actions[|actions|-1], i, Execute(before[..k]).calls[i].window,
        Execute(before[..k]).winner);
    }
  }

  /** Every reported window installed an arm with the fewest misses of what the call drained: the winner
      the call found at step k, whenever that has as few, and otherwise the first such arm. */
  lemma WindowsInstallFewest(actions: seq<Action>, i: nat) returns (k: nat)
    requires i < |Execute(actions).calls| && Execute(actions).calls[i].Completed?
    ensures ChoosesAt(actions, i, k)
    ensures var c, w := Execute(actions).calls[i], Execute(actions[..k]).winner;
      && c.window == Execute(actions[..k]).calls[i].window && c.event.after < 5 && w < 5
      && (forall a | 0 <= a < 5 :: c.window[c.event.after] <= c.window[a])
      && (c.window[w] == c.window[c.event.after] ==> c.event.after == w)
      && (c.event.after != w ==> forall a | 0 <= a < c.event.after :: c.window[c.event.after] < c.window[a])
  {
    k := CallChose(actions, i);
    assert CallOk(Execute(actions).calls[i]);
  }

  /** In every run a call works for the arm whose number is its set's place among 64, if that is below five. */
  lemma CallsLead(actions: seq<Action>, i: nat)
    requires i < |Execute(actions).calls|
    ensures var s := Execute(actions); |s.sets| == |s.calls| && Leads(s.sets[i], s.calls[i])
  {
    ExecuteInv(actions);
  }

  /** In the order of their exchanges, the reports of the windows form one unbroken chain of winners from
      DUEL_RRIP to the current winner, one report per link; every winner is a legal arm. */
  lemma WinnersChain(actions: seq<Action>)
    ensures var s := Execute(actions);
      Chained(s) && s.winner < ARMS && forall k | 0 <= k < |s.winners| :: s.winners[k] < ARMS
  {
    ExecuteInv(actions);
    var s := Execute(actions);
    forall k | 0 <= k < |s.winners| ensures s.winners[k] < ARMS {
      if k < |s.installs| {
        assert Replaced(s.calls, s.installs[k], s.winners[k], s.winners[k+1]) && CallOk(s.calls[s.installs[k]]);
      }
    }
  }

  /** No miss is lost or counted twice: per arm, the misses reported by calls equal the live counter
      plus everything drained into windows. */
  lemma MissesConserved(actions: seq<Action>, arm: nat)
    requires arm < ARMS
    ensures var s := Execute(actions);
      |s.misses| == ARMS && Sum(Missed(arm), s.calls) == s.misses[arm] + Sum(Drained(arm), s.calls)
  {
    ExecuteInv(actions);
    assert ArmConserved(Execute(actions), arm);
  }

  // ---- Every call returns ----

  /** How many more operations a call takes. */
  function OperationsLeft(c: Call): nat {
    match c
    case Begun(_) => 10
    case Counting(_, _) => 9
    case Sampling(_, _) => 8
    case Draining(_, _, window) => if |window| < ARMS then 7 - |window| else 2
    case Installing(_, _, _, _, _) => 1
    case _ => 0
  }

  /** An operation of a call takes it on, and nothing else happens to the call. */
  lemma StepAccount(s: State, a: Action, i: nat)
    requires Shape(s) && i < |s.calls|
    ensures i < |Step(s, a).calls|
    ensures if a == Advance(i) && OperationsLeft(s.calls[i]) > 0
            then OperationsLeft(Step(s, a).calls[i]) < OperationsLeft(s.calls[i])
            else Step(s, a).calls[i] == s.calls[i]
  {
    assert CallOk(s.calls[i]);
  }

  /** How many of the actions are operations of call i. */
  function Own(actions: seq<Action>, i: nat): nat {
    if actions == [] then 0 else
      Own(actions[..|actions|-1], i) + if actions[|actions|-1] == Advance(i) then 1 else 0
  }

  /** The call has at most so many operations to go. */
  ghost predicate Within(s: State, i: nat, fuel: int) {
    i < |s.calls| && (OperationsLeft(s.calls[i]) == 0 || OperationsLeft(s.calls[i]) <= fuel)
  }

  lemma StepWithin(s: State, a: Action, i: nat, fuel: int)
    requires Shape(s) && Within(s, i, fuel)
    ensures Within(Step(s, a), i, if a == Advance(i) then fuel - 1 else fuel)
  {
    StepAccount(s, a, i);
  }

  lemma {:induction false} FuelAccount(before: seq<Action>, more: seq<Action>, i: nat)
    requires i < |Execute(before).calls|
    ensures Within(Execute(before + more), i, 10 - Own(more, i))
    decreases |more|
  {
    if more == [] {
      assert before + more == before;
    } else {
      var last := |more| - 1;
      FuelAccount(before, more[..last], i);
      LastAction(before, more);
      StepWithin(Execute(before + more[..last]), more[last], i, 10 - Own(more[..last], i));
    }
  }

  lemma LastAction(before: seq<Action>, more: seq<Action>)
    requires more != []
    ensures Execute(before + more) == Step(Execute(before + more[..|more|-1]), more[|more|-1])
  {
    assert (before + more)[..|before + more|-1] == before + more[..|more|-1];
    ExecuteNext(before + more);
  }

  /** Whatever the other calls do, a call has returned after ten operations of its own. */
  lemma WaitFree(before: seq<Action>, more: seq<Action>, i: nat)
    requires i < |Execute(before).calls| && Own(more, i) >= 10
    ensures i < |Execute(before + more).calls| && Execute(before + more).calls[i].Returned()
  {
    FuelAccount(before, more, i);
    assert CallOk(Execute(before + more).calls[i]);
  }

  // ---- One call alone ----

  /** What a call does that meets no other. */
  ghost predicate Recorded(set_index: nat, misses: seq<nat>, sampled: nat, winner: nat,
                           misses': seq<nat>, sampled': nat, winner': nat, event: Event)
    requires |misses| == ARMS
  {
    if set_index % 64 < 5 then Counted(set_index % 64, misses, sampled, winner, misses', sampled', winner', event)
    else misses' == misses && sampled' == sampled && winner' == winner
         && event == Event(false, false, false, winner, winner)
  }

  ghost predicate Counted(leader: nat, misses: seq<nat>, sampled: nat, winner: nat,
                          misses': seq<nat>, sampled': nat, winner': nat, event: Event)
    requires leader < |misses|
  {
    var window := misses[leader := misses[leader] + 1];
    sampled' == sampled + 1 &&
    if sampled' % 1024 == 0 then Closed(window, winner, misses', winner', event)
    else misses' == window && winner' == winner && event == Event(true, false, false, winner, winner)
  }

  ghost predicate Closed(window: seq<nat>, winner: nat, misses': seq<nat>, winner': nat, event: Event) {
    && IsChosen(window, winner, winner') && misses' == [0, 0, 0, 0, 0]
    && event == Event(true, true, winner' != winner, winner, winner')
  }

  ghost predicate Goes(s: State, i: nat, t: State) { Shape(s) && Shape(t) && t == Step(s, Advance(i)) }

  /** Operations of call i and nothing else. */
  ghost predicate Solo(run: seq<State>, i: nat) {
    run != [] && forall j | 0 <= j < |run| - 1 :: Goes(run[j], i, run[j+1])
  }

  lemma SoloNext(s: State, i: nat, run: seq<State>)
    requires Solo(run, i) && Goes(s, i, run[0])
    ensures Solo([s] + run, i)
  {
    var longer := [s] + run;
    forall j | 0 <= j < |longer| - 1 ensures Goes(longer[j], i, longer[j+1]) {
      if j > 0 {
        assert Goes(run[j-1], i, run[j]);
      }
    }
  }

  /** The counters, the winner and the one call that moves. */
  ghost predicate Stands(s: State, i: nat, misses: seq<nat>, sampled: nat, winner: nat, c: Call) {
    i < |s.calls| && s.misses == misses && s.sampled == sampled && s.winner == winner && s.calls[i] == c
  }

  /** The counters with the first a drained. */
  function Emptied(was: seq<nat>, a: nat): seq<nat> {
    seq(|was|, b requires 0 <= b < |was| => if b < a then 0 else was[b])
  }

  lemma FirstOperation(s: State, i: nat, set_index: nat) returns (t: State)
    requires Shape(s) && i < |s.calls| && s.calls[i] == Begun(set_index)
    ensures Goes(s, i, t)
    ensures Stands(t, i, s.misses, s.sampled, s.winner,
                   if set_index % 64 < 5 then Counting(set_index % 64, s.winner)
                   else Ignored(Event(false, false, false, s.winner, s.winner)))
  {
    ShapeKept(s, Advance(i));
    t := Step(s, Advance(i));
  }

  lemma SecondOperation(s: State, i: nat, leader: nat, seen: nat) returns (t: State)
    requires Shape(s) && i < |s.calls| && s.calls[i] == Counting(leader, seen) && leader < 5
    ensures Goes(s, i, t)
    ensures Stands(t, i, s.misses[leader := s.misses[leader] + 1], s.sampled, s.winner, Sampling(leader, seen))
  {
    ShapeKept(s, Advance(i));
    t := Step(s, Advance(i));
  }

  lemma ThirdOperation(s: State, i: nat, leader: nat, seen: nat) returns (t: State)
    requires Shape(s) && i < |s.calls| && s.calls[i] == Sampling(leader, seen)
    ensures Goes(s, i, t)
    ensures Stands(t, i, s.misses, s.sampled + 1, s.winner,
                   if (s.sampled + 1) % 1024 == 0 then Draining(leader, s.sampled + 1, [])
                   else Sampled(leader, s.sampled + 1, Event(true, false, false, seen, seen)))
  {
    ShapeKept(s, Advance(i));
    t := Step(s, Advance(i));
  }

  lemma DrainOperation(s: State, i: nat, was: seq<nat>, leader: nat, total: nat, a: nat) returns (t: State)
    requires Shape(s) && |was| == 5 && a < 5
    requires Stands(s, i, Emptied(was, a), s.sampled, s.winner, Draining(leader, total, was[..a]))
    ensures Goes(s, i, t)
    ensures Stands(t, i, Emptied(was, a + 1), s.sampled, s.winner, Draining(leader, total, was[..a+1]))
  {
    ShapeKept(s, Advance(i));
    t := Step(s, Advance(i));
    assert was[..a+1] == was[..a] + [was[a]];
  }

  lemma ChooseOperation(s: State, i: nat, was: seq<nat>, leader: nat, total: nat) returns (t: State, best: nat)
    requires Shape(s) && i < |s.calls| && s.calls[i] == Draining(leader, total, was) && |was| == 5
    ensures Goes(s, i, t) && IsChosen(was, s.winner, best)
    ensures Stands(t, i, s.misses, s.sampled, s.winner, Installing(leader, total, was, s.winner, best))
  {
    ShapeKept(s, Advance(i));
    t := Step(s, Advance(i));
    best := t.calls[i].best;
    assert CallOk(t.calls[i]);
  }

  lemma InstallOperation(s: State, i: nat, was: seq<nat>, leader: nat, total: nat, best: nat) returns (t: State)
    requires Shape(s) && i < |s.calls| && s.calls[i] == Installing(leader, total, was, s.winner, best)
    ensures Goes(s, i, t)
    ensures Stands(t, i, s.misses, s.sampled, best,
                   Completed(leader, total, was, s.winner, Event(true, true, best != s.winner, s.winner, best)))
  {
    ShapeKept(s, Advance(i));
    t := Step(s, Advance(i));
  }

  /** The run of a call from s ends in a state in which it has closed its window. */
  ghost predicate ClosesBy(run: seq<State>, i: nat, s: State, was: seq<nat>, sampled: nat, winner: nat) {
    Solo(run, i) && run[0] == s &&
    var t := run[|run|-1];
    i < |t.calls| && t.calls[i].Completed? && t.sampled == sampled
    && Closed(was, winner, t.misses, t.winner, t.calls[i].event)
  }

  lemma ClosesNext(s: State, i: nat, t: State, run: seq<State>, was: seq<nat>, sampled: nat, winner: nat)
    requires Goes(s, i, t) && ClosesBy(run, i, t, was, sampled, winner)
    ensures ClosesBy([s] + run, i, s, was, sampled, winner)
  {
    SoloNext(s, i, run);
  }

  lemma {:induction false} DrainsAlone(s: State, i: nat, was: seq<nat>, leader: nat, total: nat, a: nat)
    returns (run: seq<State>)
    requires Shape(s) && |was| == 5 && a <= 5
    requires Stands(s, i, Emptied(was, a), s.sampled, s.winner, Draining(leader, total, was[..a]))
    ensures ClosesBy(run, i, s, was, s.sampled, s.winner) && |run| == 8 - a
    decreases 5 - a
  {
    if a < 5 {
      var t := DrainOperation(s, i, was, leader, total, a);
      run := DrainsAlone(t, i, was, leader, total, a + 1);
      ClosesNext(s, i, t, run, was, s.sampled, s.winner);
      run := [s] + run;
    } else {
      assert was[..5] == was;
      run := InstallsAlone(s, i, was, leader, total);
    }
  }

  lemma InstallsAlone(s: State, i: nat, was: seq<nat>, leader: nat, total: nat) returns (run: seq<State>)
    requires Shape(s) && |was| == 5
    requires Stands(s, i, Emptied(was, 5), s.sampled, s.winner, Draining(leader, total, was))
    ensures ClosesBy(run, i, s, was, s.sampled, s.winner) && |run| == 3
  {
    var t, best := ChooseOperation(s, i, was, leader, total);
    var u := InstallOperation(t, i, was, leader, total, best);
    assert Emptied(was, 5) == [0, 0, 0, 0, 0];
    run := [s, t, u];
  }

  /** The run of a call from s ends in a state in which its sample has done what RecordMiss does. */
  ghost predicate CountsBy(run: seq<State>, i: nat, s: State, leader: nat, misses: seq<nat>, sampled: nat, winner: nat)
    requires leader < |misses|
  {
    Solo(run, i) && run[0] == s &&
    var t := run[|run|-1];
    i < |t.calls| && t.calls[i].Returned()
    && Counted(leader, misses, sampled, winner, t.misses, t.sampled, t.winner, t.calls[i].event)
  }

  lemma CountsNext(s: State, i: nat, t: State, run: seq<State>, leader: nat, misses: seq<nat>, sampled: nat,
                   winner: nat)
    requires leader < |misses| && Goes(s, i, t) && CountsBy(run, i, t, leader, misses, sampled, winner)
    ensures CountsBy([s] + run, i, s, leader, misses, sampled, winner)
  {
    SoloNext(s, i, run);
  }

  lemma WindowAlone(s: State, i: nat, leader: nat, misses: seq<nat>, total: nat, winner: nat) returns (run: seq<State>)
    requires Shape(s) && leader < |misses| == 5 && total > 0 && total % 1024 == 0
    requires Stands(s, i, misses[leader := misses[leader] + 1], total, winner, Draining(leader, total, []))
    ensures CountsBy(run, i, s, leader, misses, total - 1, winner) && |run| == 8
  {
    var window := misses[leader := misses[leader] + 1];
    assert Emptied(window, 0) == window && window[..0] == [];
    run := DrainsAlone(s, i, window, leader, total, 0);
  }

  lemma SampleAlone(s: State, i: nat, leader: nat, misses: seq<nat>, winner: nat) returns (run: seq<State>)
    requires Shape(s) && leader < |misses| == 5
    requires Stands(s, i, misses[leader := misses[leader] + 1], s.sampled, winner, Sampling(leader, winner))
    ensures CountsBy(run, i, s, leader, misses, s.sampled, winner) && |run| <= 9
  {
    var t := ThirdOperation(s, i, leader, winner);
    run := [t];
    if t.sampled % 1024 == 0 {
      run := WindowAlone(t, i, leader, misses, t.sampled, winner);
    }
    CountsNext(s, i, t, run, leader, misses, s.sampled, winner);
    run := [s] + run;
  }

  lemma MissAlone(s: State, i: nat, leader: nat, misses: seq<nat>, winner: nat) returns (run: seq<State>)
    requires Shape(s) && leader < |misses| == 5
    requires Stands(s, i, misses, s.sampled, winner, Counting(leader, winner))
    ensures CountsBy(run, i, s, leader, misses, s.sampled, winner) && |run| <= 10
  {
    var t := SecondOperation(s, i, leader, winner);
    run := SampleAlone(t, i, leader, misses, winner);
    CountsNext(s, i, t, run, leader, misses, s.sampled, winner);
    run := [s] + run;
  }

  /** A call that meets no other returns within ten operations, and has done what RecordMiss does. */
  lemma AloneRecords(s: State, i: nat, set_index: nat) returns (run: seq<State>)
    requires Shape(s) && i < |s.calls| && s.calls[i] == Begun(set_index)
    ensures Solo(run, i) && run[0] == s && |run| <= 11
    ensures var t := run[|run|-1];
      && i < |t.calls| && t.calls[i].Returned()
      && Recorded(set_index, s.misses, s.sampled, s.winner, t.misses, t.sampled, t.winner, t.calls[i].event)
  {
    var t := FirstOperation(s, i, set_index);
    if set_index % 64 < 5 {
      run := MissAlone(t, i, set_index % 64, s.misses, s.winner);
      CountsNext(s, i, t, run, set_index % 64, s.misses, s.sampled, s.winner);
      run := [s] + run;
    } else {
      run := [s, t];
    }
  }

  // ---- The calls themselves ----

  /** The comparison loop of a window's last call. */
  method ChooseArm(window: seq<nat>, winner: nat) returns (best: nat)
    requires |window| == ARMS && winner < ARMS
    ensures best == Choose(window, winner, 0) && IsChosen(window, winner, best)
  {
    ChooseIsBest(window, winner, winner, 0);
    best := winner;
    var arm := 0;
    while arm < ARMS
      invariant arm <= ARMS && best < ARMS && Choose(window, best, arm) == Choose(window, winner, 0)
    {
      if window[arm] < window[best] {
        best := arm;
      }
      arm := arm + 1;
    }
  }

  function Total(counts: seq<nat>): nat {
    if counts == [] then 0 else Total(counts[..|counts|-1]) + counts[|counts|-1]
  }

  lemma {:induction false} TotalUpdate(counts: seq<nat>, i: nat, x: nat)
    requires i < |counts|
    ensures Total(counts[i := x]) + counts[i] == Total(counts) + x
  {
    var n := |counts| - 1;
    if i == n {
      assert counts[i := x][..n] == counts[..n];
    } else {
      assert counts[i := x][..n] == counts[..n][i := x];
      TotalUpdate(counts[..n], i, x);
    }
  }

  lemma {:induction false} TotalZero(counts: seq<nat>)
    requires forall a | 0 <= a < |counts| :: counts[a] == 0
    ensures Total(counts) == 0
  {
    if counts != [] {
      TotalZero(counts[..|counts|-1]);
    }
  }

  /** The selector as one caller at a time sees it: a window then holds exactly 1024 misses. */
  class OnlineDuelingSelector {
    const misses: array<nat>
    var sampled: nat
    var winner: nat

    ghost predicate Valid()
      reads this, misses
    {
      misses.Length == ARMS && winner < ARMS && Total(misses[..]) == sampled % WINDOW
    }

    constructor ()
      ensures Valid() && fresh(misses) && sampled == 0 && winner == DUEL_RRIP
    {
      misses := new nat[ARMS](_ => 0);
      sampled, winner := 0, DUEL_RRIP;
      new;
      TotalZero(misses[..]);
    }

    method RecordMiss(set_index: nat) returns (event: Event)
      requires Valid()
      modifies this, misses
      ensures Valid()
      ensures Recorded(set_index, old(misses[..]), old(sampled), old(winner), misses[..], sampled, winner, event)
      ensures event.completedWindow ==>
        Total(old(misses[..])[set_index % 64 := old(misses[..])[set_index % 64] + 1]) == 1024
    {
      event := Event(false, false, false, winner, winner);
      var leader := LeaderArm(set_index);
      if leader == ARMS {
        return;
      }
      ghost var before := misses[..];
      TotalUpdate(before, leader, before[leader] + 1);
      misses[leader] := misses[leader] + 1;
      ghost var window := misses[..];
      assert window == before[leader := before[leader] + 1];
      sampled := sampled + 1;
      event := Event(true, false, false, winner, winner);
      if sampled % WINDOW != 0 {
        return;
      }
      var drained := Drain(window);
      var best := ChooseArm(drained, winner);
      event := Event(true, true, best != winner, winner, best);
      winner := best;
      TotalZero(misses[..]);
    }

    method Drain(ghost was: seq<nat>) returns (window: seq<nat>)
      requires misses.Length == ARMS && was == misses[..]
      modifies misses
      ensures window == was && forall a | 0 <= a < ARMS :: misses[a] == 0
    {
      window := [];
      while |window| < ARMS
        invariant |window| <= ARMS && window == was[..|window|]
        invariant forall a | 0 <= a < ARMS :: misses[a] == if a < |window| then 0 else was[a]
        decreases ARMS - |window|
      {
        var arm := |window|;
        window := window + [misses[arm]];
        misses[arm] := 0;
      }
    }
  }
}
