/** Whole runs of the Hawkeye policy: a new state driven by any sequence of accesses and evictions. */
module HawkeyeRuns {
  import Common
  import opened OptgenSpec
  import OptgenRefinement
  import Sampler
  import opened Hawkeye

  datatype Event =
    | Access(cacheSet: nat, line: nat, signature: nat, prefetch: bool)
    | Eviction(cacheSet: nat, signature: nat, prefetch: bool)

  /** What a run determines: the uses per sampler row, the offers per cache set and both tables. */
  datatype History = History(uses: seq<seq<Use>>, offers: seq<Offers>, demand: seq<nat>, prefetch: seq<nat>)

  ghost predicate Fits(state: State, h: History) {
    && |h.uses| == SAMPLER_SETS && |h.offers| == state.numSets
    && |h.demand| == |h.prefetch| == PREDICTOR_ENTRIES
  }

  ghost function Start(state: State): (h: History)
    ensures Fits(state, h)
  {
    History(seq(SAMPLER_SETS, _ => []), seq(state.numSets, _ => []), NewTable(), NewTable())
  }

  ghost predicate Sampled(state: State, e: Event) {
    e.cacheSet < state.numSets && state.SampledSet(e.cacheSet)
  }

  /** What one event does, in terms of histories alone. */
  ghost function After(state: State, h: History, e: Event): (h': History)
    requires Fits(state, h)
    ensures Fits(state, h')
  {
    if !Sampled(state, e) then h
    else match e
      case Access(s, line, signature, prefetch) =>
        var r, tag, now := state.RowIndex(line), state.Tag(line), |h.offers[s]|;
        var o := ReuseOffer(h.uses[r], tag, now);
        History(h.uses[r := h.uses[r] + [Use(tag, s, now, prefetch, signature)]],
                h.offers[s := h.offers[s] + [o]],
                state.TableAfter(false, h.uses[r], tag, o, h.offers[s], h.demand),
                state.TableAfter(true, h.uses[r], tag, o, h.offers[s], h.prefetch))
      case Eviction(_, signature, prefetch) =>
        var i := state.crc32(signature) % PREDICTOR_ENTRIES;
        if prefetch then h.(prefetch := TrainedTable(h.prefetch, i, false))
        else h.(demand := TrainedTable(h.demand, i, false))
  }

  ghost function Run(state: State, events: seq<Event>): (h: History)
    ensures Fits(state, h)
  {
    if events == [] then Start(state) else After(state, Run(state, events[..|events|-1]), events[|events|-1])
  }

  lemma RunNext(state: State, events: seq<Event>, k: nat)
    requires k < |events|
    ensures Run(state, events[..k+1]) == After(state, Run(state, events[..k]), events[k])
  {
    assert events[..k+1][..k] == events[..k];
  }

  // ---- Predictions ----

  ghost function TableOf(h: History, prefetch: bool): seq<nat> { if prefetch then h.prefetch else h.demand }

  function EntryIndex(state: State, signature: nat): nat { state.crc32(signature) % 2048 }

  /** The verdicts with which an event trains entry i of a predictor: one or none. A reuse trains the
      entry of the line's last use, an eviction speaks against the entry of the line evicted. */
  ghost function Verdict(state: State, h: History, e: Event, prefetch: bool, i: nat): seq<bool>
    requires Fits(state, h)
  {
    if !Sampled(state, e) then []
    else match e
      case Access(s, line, _, _) =>
        var h', tag := h.uses[state.RowIndex(line)], state.Tag(line);
        var o := ReuseOffer(h', tag, |h.offers[s]|);
        if o.Some? && LastUse(h', tag).prefetch == prefetch && EntryIndex(state, LastUse(h', tag).signature) == i
        then [OptgenRefinement.AcceptsOffer(h.offers[s], state.capacity, o)] else []
      case Eviction(_, signature, evicted) =>
        if evicted == prefetch && EntryIndex(state, signature) == i then [false] else []
  }

  /** All verdicts on an entry in a run from a new state. */
  ghost function Verdicts(state: State, events: seq<Event>, prefetch: bool, i: nat): seq<bool> {
    if events == [] then [] else
      var before := events[..|events|-1];
      Verdicts(state, before, prefetch, i) + Verdict(state, Run(state, before), events[|events|-1], prefetch, i)
  }

  /** The balance of a list of verdicts, kept from -4 to 3. */
  function Balance(verdicts: seq<bool>): (b: int)
    ensures -4 <= b <= 3
  {
    if verdicts == [] then 0 else
      var b := Balance(verdicts[..|verdicts|-1]);
      if verdicts[|verdicts|-1] then (if b == 3 then 3 else b + 1) else (if b == -4 then -4 else b - 1)
  }

  lemma {:induction false} BalanceAfterFor(n: nat)
    ensures Balance(seq(n, _ => true)) == if n < 3 then n else 3
  {
    if n > 0 {
      BalanceAfterFor(n - 1);
      assert seq(n, _ => true)[..n-1] == seq(n - 1, _ => true);
    }
  }

  /** After n accepted reuses and then m rejections or evictions, a new entry is still friendly exactly
      when m is at most n and at most 3. */
  lemma {:induction false} BalanceAfter(n: nat, m: nat)
    ensures var b := Balance(seq(n, _ => true) + seq(m, _ => false));
      (b >= 0 <==> m <= n && m <= 3) && (b > -4 ==> b == (if n < 3 then n else 3) - m) && (b == -4 ==> m >= 4)
    decreases m
  {
    var verdicts := seq(n, _ => true) + seq(m, _ => false);
    if m == 0 {
      BalanceAfterFor(n);
      assert verdicts == seq(n, _ => true);
    } else {
      BalanceAfter(n, m - 1);
      assert verdicts[..n+m-1] == seq(n, _ => true) + seq(m - 1, _ => false);
    }
  }

  /** Every counter is the balance of its verdicts, above 4. */
  lemma {:induction false} CounterIsBalance(state: State, events: seq<Event>, prefetch: bool, i: nat)
    requires i < 2048
    ensures TableOf(Run(state, events), prefetch)[i] == 4 + Balance(Verdicts(state, events, prefetch, i))
  {
    if events != [] {
      var before := events[..|events|-1];
      CounterIsBalance(state, before, prefetch, i);
      CounterStep(state, Run(state, before), events[|events|-1], prefetch, i, Verdicts(state, before, prefetch, i));
    }
  }

  /** One verdict moves a counter by one, between 0 and 7. */
  lemma TableStep(state: State, h: History, e: Event, prefetch: bool, i: nat)
    requires i < 2048 && Fits(state, h) && TableOf(h, prefetch)[i] <= 7
    ensures var v, c := Verdict(state, h, e, prefetch, i), TableOf(h, prefetch)[i];
      |v| <= 1 && TableOf(After(state, h, e), prefetch)[i] ==
        if v == [] then c else if v[0] then (if c == 7 then 7 else c + 1) else if c == 0 then 0 else c - 1
  {
  }

  lemma BalanceStep(verdicts: seq<bool>, v: bool)
    ensures var b := Balance(verdicts);
      Balance(verdicts + [v]) == if v then (if b == 3 then 3 else b + 1) else if b == -4 then -4 else b - 1
  {
    assert (verdicts + [v])[..|verdicts|] == verdicts;
  }

  lemma CounterStep(state: State, h: History, e: Event, prefetch: bool, i: nat, verdicts: seq<bool>)
    requires i < 2048 && Fits(state, h) && TableOf(h, prefetch)[i] == 4 + Balance(verdicts)
    ensures TableOf(After(state, h, e), prefetch)[i] == 4 + Balance(verdicts + Verdict(state, h, e, prefetch, i))
  {
    var v := Verdict(state, h, e, prefetch, i);
    TableStep(state, h, e, prefetch, i);
    if v == [] {
      assert verdicts + v == verdicts;
    } else {
      assert v == [v[0]];
      BalanceStep(verdicts, v[0]);
    }
  }

  /** The prediction for a signature at the end of a run: its entry has not been spoken against on balance. */
  ghost predicate Predicts(state: State, events: seq<Event>, signature: nat, prefetch: bool) {
    Balance(Verdicts(state, events, prefetch, EntryIndex(state, signature))) >= 0
  }

  ghost predicate AnsweredAt(state: State, events: seq<Event>, k: nat, answer: bool)
    requires k < |events|
  {
    events[k].Access? ==> (answer <==> Predicts(state, events[..k+1], events[k].signature, events[k].prefetch))
  }

  /** Every access so far was answered by the prediction for its own signature, made after its training. */
  ghost predicate Answered(state: State, events: seq<Event>, answers: seq<bool>)
    requires |answers| <= |events|
  {
    forall k | 0 <= k < |answers| :: AnsweredAt(state, events, k, answers[k])
  }

  lemma CounterPredicts(state: State, events: seq<Event>, signature: nat, prefetch: bool)
    ensures TableOf(Run(state, events), prefetch)[EntryIndex(state, signature)] >= 4
      <==> Predicts(state, events, signature, prefetch)
  {
    CounterIsBalance(state, events, prefetch, EntryIndex(state, signature));
  }

  lemma AnswerIs(state: State, events: seq<Event>, k: nat, answer: bool)
    requires k < |events|
    requires events[k].Access? ==>
      (answer <==> TableOf(Run(state, events[..k+1]), events[k].prefetch)[EntryIndex(state, events[k].signature)] >= 4)
    ensures AnsweredAt(state, events, k, answer)
  {
    if events[k].Access? {
      CounterPredicts(state, events[..k+1], events[k].signature, events[k].prefetch);
    }
  }

  lemma AnsweredNext(state: State, events: seq<Event>, answers: seq<bool>, answer: bool)
    requires |answers| < |events| && Answered(state, events, answers)
    requires AnsweredAt(state, events, |answers|, answer)
    ensures Answered(state, events, answers + [answer])
  {
    forall k | 0 <= k < |answers| ensures AnsweredAt(state, events, k, (answers + [answer])[k]) {
      assert AnsweredAt(state, events, k, answers[k]);
    }
  }

  /** A signature whose entry no event of the run has trained is friendly. */
  lemma UntrainedIsFriendly(state: State, events: seq<Event>, signature: nat, prefetch: bool)
    requires Verdicts(state, events, prefetch, EntryIndex(state, signature)) == []
    ensures Predicts(state, events, signature, prefetch)
  {
  }

  /** The prediction after any number of accepted reuses followed by any number of rejections or evictions. */
  lemma PredictionAfter(state: State, events: seq<Event>, signature: nat, prefetch: bool, n: nat, m: nat)
    requires Verdicts(state, events, prefetch, EntryIndex(state, signature)) == seq(n, _ => true) + seq(m, _ => false)
    ensures Predicts(state, events, signature, prefetch) <==> m <= n && m <= 3
  {
    BalanceAfter(n, m);
  }

  ghost function Now(state: State): History
    reads state, state.demandPredictor.counters, state.prefetchPredictor.counters
  {
    History(state.uses, state.offers, state.demandPredictor.counters[..], state.prefetchPredictor.counters[..])
  }

  /** The state has accepted as many reuses in each set as any cache of its capacity could have had. */
  ghost predicate HitsOptimal(state: State)
    requires state.Valid()
    reads state, set i | 0 <= i < |state.optgen| :: state.optgen[i].occupancy
  {
    forall s, kept | 0 <= s < state.numSets && Feasible(state.offers[s], state.capacity, kept) ::
      |kept| <= state.hits[s]
  }

  lemma ValidIsOptimal(state: State)
    requires state.Valid()
    ensures HitsOptimal(state)
  {
    forall s, kept | 0 <= s < state.numSets && Feasible(state.offers[s], state.capacity, kept)
      ensures |kept| <= state.hits[s]
    {
      HitsAreOptimal(state, s, kept);
    }
  }

  /** One access or eviction, and the answer to an access. */
  method Perform(state: State, e: Event) returns (answer: bool)
    requires state.Valid()
    modifies state, state.demandPredictor.counters, state.prefetchPredictor.counters,
             set i | 0 <= i < |state.optgen| :: state.optgen[i].occupancy
    ensures state.Valid() && Fits(state, old(Now(state))) && Now(state) == After(state, old(Now(state)), e)
    ensures e.Access? ==> (answer <==> TableOf(Now(state), e.prefetch)[EntryIndex(state, e.signature)] >= 4)
  {
    answer := false;
    match e
    case Access(s, line, signature, prefetch) =>
      answer := state.Access(s, line, signature, prefetch);
    case Eviction(s, signature, prefetch) =>
      state.Eviction(s, signature, prefetch);
  }

  /** Any run from a new state: the histories and predictor tables are those of the run, and every set's
      accepted reuses are as many as any cache of its capacity could have had on the intervals offered. */
  method Drive(numSets: nat, ways: nat, crc32: nat -> nat, events: seq<Event>)
    returns (state: State, answers: seq<bool>)
    ensures fresh(state) && state.Valid() && state.capacity == Capacity(ways) && state.crc32 == crc32
    ensures state.numSets == (if numSets < 1 then 1 else numSets)
    ensures Now(state) == Run(state, events) && HitsOptimal(state)
    ensures |answers| == |events| && Answered(state, events, answers)
  {
    state := new State(numSets, ways, crc32);
    answers := [];
    var k := 0;
    assert events[..0] == [];
    while k < |events|
      invariant k <= |events| && state.Valid() && Now(state) == Run(state, events[..k])
      invariant fresh(state.demandPredictor.counters) && fresh(state.prefetchPredictor.counters)
      invariant forall s | 0 <= s < |state.optgen| :: fresh(state.optgen[s].occupancy)
      invariant |answers| == k && Answered(state, events, answers)
    {
      var answer := Perform(state, events[k]);
      RunNext(state, events, k);
      AnswerIs(state, events, k, answer);
      AnsweredNext(state, events, answers, answer);
      answers := answers + [answer];
      k := k + 1;
    }
    assert events[..k] == events;
    ValidIsOptimal(state);
  }

  // ---- A run on which a line is taken for recent after 1025 ticks ----

  /** Before its second use, a row that holds one use of tick 0 offers the interval from tick 1024. */
  lemma LoneUseOffer(u: Use, offers: Offers, capacity: nat)
    requires u.tick == 0 && |offers| == TIMER_SIZE + 1 && capacity >= 1
    ensures ReuseOffer([u], u.tag, TIMER_SIZE + 1) == Common.Some(TIMER_SIZE)
    ensures OptgenRefinement.AcceptsOffer(offers, capacity, Common.Some(TIMER_SIZE))
      && !OptgenRefinement.Accepts(offers, capacity, u.tick)
  {
    var l := TagsOf([u]);
    assert l == [u.tag] && l[0] == u.tag;
    Sampler.KeptIffRecent(l, u.tag);
    assert Sampler.Elements(l[Sampler.Last(l, u.tag) + 1..]) == {};
    OptgenRefinement.SeenStartOf(TIMER_SIZE + 1, 0);
    OptgenRefinement.WrappedClockAliases(offers, capacity, 0);
  }

  /** Line 0, then 1024 times another line, then line 0 again. */
  function StaleEvents(other: nat): (events: seq<Event>)
    ensures |events| == TIMER_SIZE + 2
    ensures forall k | 0 <= k < |events| ::
      events[k] == Access(0, if 0 < k <= TIMER_SIZE then other else 0, 0, false)
  {
    seq(TIMER_SIZE + 2, k => Access(0, if 0 < k <= TIMER_SIZE then other else 0, 0, false))
  }

  /** What the events so far have left in the sampler row of line 0 and in set 0: one use, k ticks. */
  ghost predicate OneUse(state: State, h: History, k: nat) {
    Fits(state, h) && |h.offers| > 0 && |h.offers[0]| == k && h.uses[0] == [Use(state.Tag(0), 0, 0, false, 0)]
  }

  lemma FirstUse(state: State, other: nat)
    requires state.SampledSet(0)
    ensures OneUse(state, Run(state, StaleEvents(other)[..1]), 1)
  {
    var events := StaleEvents(other);
    assert events[..0] == [];
    RunNext(state, events, 0);
  }

  /** Uses of a line of another sampler row each take one tick of set 0 and leave row 0 alone. */
  lemma OtherUse(state: State, h: History, other: nat, k: nat)
    requires state.SampledSet(0) && other % SAMPLER_SETS != 0 && OneUse(state, h, k)
    ensures OneUse(state, After(state, h, Access(0, other, 0, false)), k + 1)
  {
  }

  lemma {:induction false} OtherUses(state: State, other: nat, k: nat)
    requires state.SampledSet(0) && other % SAMPLER_SETS != 0 && 0 < k <= TIMER_SIZE + 1
    ensures OneUse(state, Run(state, StaleEvents(other)[..k]), k)
    decreases k
  {
    if k == 1 {
      FirstUse(state, other);
    } else {
      OtherUses(state, other, k - 1);
      RunNext(state, StaleEvents(other), k - 1);
      OtherUse(state, Run(state, StaleEvents(other)[..k-1]), other, k - 1);
    }
  }

  /** The second use of line 0 offers the interval from tick 1024, which is accepted. */
  lemma SecondUse(state: State, h: History)
    requires state.SampledSet(0) && state.capacity >= 1 && OneUse(state, h, TIMER_SIZE + 1)
    ensures var h' := After(state, h, Access(0, 0, 0, false));
      && h'.uses[0] == h.uses[0] + [Use(state.Tag(0), 0, TIMER_SIZE + 1, false, 0)]
      && h'.offers[0] == h.offers[0] + [Common.Some(TIMER_SIZE)]
    ensures OptgenRefinement.AcceptsOffer(h.offers[0], state.capacity, Common.Some(TIMER_SIZE))
      && !OptgenRefinement.Accepts(h.offers[0], state.capacity, 0)
  {
    LoneUseOffer(h.uses[0][0], h.offers[0], state.capacity);
  }

  /** Line 0 was used at ticks 0 and 1025 only, and its second use was accepted on the interval from tick
      1024, though the interval from its last use is rejected. */
  ghost predicate StaleHit(state: State, h: History) {
    && |h.uses| > 0 && |h.offers| > 0
    && h.uses[0] == [Use(state.Tag(0), 0, 0, false, 0), Use(state.Tag(0), 0, TIMER_SIZE + 1, false, 0)]
    && |h.offers[0]| == TIMER_SIZE + 2
    && OptgenRefinement.AcceptsOffer(h.offers[0][..TIMER_SIZE + 1], state.capacity, h.offers[0][TIMER_SIZE + 1])
    && !OptgenRefinement.Accepts(h.offers[0][..TIMER_SIZE + 1], state.capacity, 0)
  }

  lemma StaleRun(state: State, other: nat)
    requires state.SampledSet(0) && state.capacity >= 1 && other % SAMPLER_SETS != 0
    ensures StaleHit(state, Run(state, StaleEvents(other)))
  {
    var events := StaleEvents(other);
    var before := Run(state, events[..TIMER_SIZE + 1]);
    OtherUses(state, other, TIMER_SIZE + 1);
    assert events[..TIMER_SIZE + 2] == events;
    RunNext(state, events, TIMER_SIZE + 1);
    SecondUse(state, before);
    assert Run(state, events).offers[0][..TIMER_SIZE + 1] == before.offers[0];
  }

  /** Every event names the set its line belongs to. */
  ghost predicate Addressed(events: seq<Event>, numSets: nat)
    requires numSets > 0
  {
    forall k | 0 <= k < |events| :: events[k].Access? && events[k].cacheSet == events[k].line % numSets
  }

  lemma StaleAddressed(other: nat, numSets: nat)
    requires numSets > 0 && other % numSets == 0
    ensures Addressed(StaleEvents(other), numSets)
  {
  }

  lemma FirstSetSampled(state: State)
    requires state.Valid()
    ensures state.SampledSet(0) && state.capacity >= 1
  {
  }

  /** Among the lines of set 0 there is one of another sampler row unless 350 divides the number of sets. */
  lemma OtherLineExists(numSets: nat)
    requires numSets > 0
    ensures (exists other: nat :: other % numSets == 0 && other % SAMPLER_SETS != 0) <==> numSets % SAMPLER_SETS != 0
  {
    if numSets % SAMPLER_SETS != 0 {
      assert numSets % numSets == 0;
    } else {
      forall other: nat | other % numSets == 0 ensures other % SAMPLER_SETS == 0 {
        var a, b := other / numSets, numSets / SAMPLER_SETS;
        assert other == numSets * a && numSets == SAMPLER_SETS * b;
        MultipleOfMultiple(a, b);
      }
    }
  }

  lemma MultipleOfMultiple(a: nat, b: nat)
    ensures SAMPLER_SETS * b * a % SAMPLER_SETS == 0
  {
    assert SAMPLER_SETS * b * a == SAMPLER_SETS * (b * a);
  }

  /** For every geometry, hash and line of another sampler row, a run of the policy with a stale hit. The set
      of a line is its remainder by the number of sets; a multiple of that number keeps to set 0. */
  method StaleReuse(numSets: nat, ways: nat, crc32: nat -> nat, other: nat) returns (state: State)
    requires other % SAMPLER_SETS != 0
    ensures fresh(state) && state.Valid() && state.capacity == Capacity(ways) && state.crc32 == crc32
    ensures state.numSets == (if numSets < 1 then 1 else numSets)
    ensures Now(state) == Run(state, StaleEvents(other)) && StaleHit(state, Now(state))
    ensures other % state.numSets == 0 ==> Addressed(StaleEvents(other), state.numSets)
  {
    var events := StaleEvents(other);
    var answers;
    state, answers := Drive(numSets, ways, crc32, events);
    FirstSetSampled(state);
    StaleRun(state, other);
    if other % state.numSets == 0 {
      StaleAddressed(other, state.numSets);
    }
  }
}
