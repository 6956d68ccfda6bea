/** The simulated-annealing search of the Tuner: nested loops over cooling steps and the attempts
    of each plateau, a cache of costs keyed by the solutions' string form, and the tracking of the
    current and best solutions. */
module Annealer {
  import opened Trace
  import opened Acceptance
  import opened Lookups
  import opened Schedule
  import Memo

  /** The counters a run reports: attempts (n), jumps (m), cache hits and misses. */
  datatype Stats = Stats(iterations: nat, jumps: nat, hits: nat, misses: nat)

  /** What the run's variables hold after the attempts of `trace`: the search state the last
      attempt left, counters that count the attempts, jumps, hits and misses, and a cache holding,
      under each candidate's key, that candidate's cost; the attempts followed the acceptance rule,
      the cache rule and the schedule. */
  ghost predicate Recorded<S>(t: Tuner, init: SearchState<S>, trace: seq<Attempt<S>>,
                              transition: (S, nat) -> S, accept: (nat, real, real) -> bool,
                              toKey: S -> string, evaluate: (S, nat) -> real,
                              st: SearchState<S>, counters: Stats, entries: map<string, real>)
  {
    && Final(init, trace) == st
    && Followed(init, trace, transition, accept)
    && Cached(trace, toKey, evaluate)
    && Paced(init, trace, t)
    && counters == Stats(|trace|, Jumps(trace), Hits(trace), Misses(trace))
    && entries.Keys == Keys(trace, toKey)
    && forall k | 0 <= k < |trace| ::
         toKey(trace[k].candidate) in entries && entries[toKey(trace[k].candidate)] == trace[k].candidateCost
  }

  /** The record of the run stays faithful to the variables after one more attempt that follows
      the acceptance rule and the cache rule and comes where the schedule lets it come. */
  lemma RecordedExtends<S>(t: Tuner, init: SearchState<S>, trace: seq<Attempt<S>>,
                           transition: (S, nat) -> S, accept: (nat, real, real) -> bool,
                           toKey: S -> string, evaluate: (S, nat) -> real,
                           st: SearchState<S>, counters: Stats, entries: map<string, real>,
                           a: Attempt<S>, counters': Stats, entries': map<string, real>)
    requires Recorded(t, init, trace, transition, accept, toKey, evaluate, st, counters, entries)
    requires Moves(st, a, |trace|, transition, accept)
    requires a.hit <==> toKey(a.candidate) in entries
    requires a.hit ==> a.candidateCost == entries[toKey(a.candidate)] && entries' == entries
    requires !a.hit ==> a.candidateCost == evaluate(a.candidate, 1 + counters.misses)
                        && entries' == entries[toKey(a.candidate) := a.candidateCost]
    requires Placed(init, trace, a, t)
    requires counters' == Stats(counters.iterations + 1, counters.jumps + (if a.move == Jumped then 1 else 0),
                                counters.hits + (if a.hit then 1 else 0), counters.misses + (if a.hit then 0 else 1))
    ensures Recorded(t, init, trace + [a], transition, accept, toKey, evaluate, a.after, counters', entries')
  {
    FollowedExtends(init, trace, a, transition, accept);
    CacheEntriesExtend(trace, toKey, evaluate, counters.misses, entries, a, entries');
    PacedExtends(init, trace, a, t);
    CountersExtend(trace, a);
  }

  /** How each count grows with one more attempt. */
  lemma CountersExtend<S>(trace: seq<Attempt<S>>, a: Attempt<S>)
    ensures Jumps(trace + [a]) == Jumps(trace) + (if a.move == Jumped then 1 else 0)
    ensures Hits(trace + [a]) == Hits(trace) + (if a.hit then 1 else 0)
    ensures Misses(trace + [a]) == Misses(trace) + (if a.hit then 0 else 1)
  {
    assert (trace + [a])[..|trace|] == trace;
  }

  /** The cache rule and the cache contents after one more lookup. */
  lemma CacheEntriesExtend<S>(trace: seq<Attempt<S>>, toKey: S -> string, evaluate: (S, nat) -> real,
                              misses: nat, entries: map<string, real>, a: Attempt<S>, entries': map<string, real>)
    requires Cached(trace, toKey, evaluate) && misses == Misses(trace)
    requires entries.Keys == Keys(trace, toKey)
    requires forall k | 0 <= k < |trace| ::
               toKey(trace[k].candidate) in entries && entries[toKey(trace[k].candidate)] == trace[k].candidateCost
    requires a.hit <==> toKey(a.candidate) in entries
    requires a.hit ==> a.candidateCost == entries[toKey(a.candidate)] && entries' == entries
    requires !a.hit ==> a.candidateCost == evaluate(a.candidate, 1 + misses)
                        && entries' == entries[toKey(a.candidate) := a.candidateCost]
    ensures Cached(trace + [a], toKey, evaluate)
    ensures entries'.Keys == Keys(trace + [a], toKey)
    ensures forall k | 0 <= k < |trace + [a]| ::
              toKey((trace + [a])[k].candidate) in entries'
              && entries'[toKey((trace + [a])[k].candidate)] == (trace + [a])[k].candidateCost
  {
    EarlierSameCost(trace, toKey, entries, a);
    CachedExtends(trace, a, toKey, evaluate);
    EntriesExtend(trace, toKey, entries, a, entries');
  }

  /** An attempt whose key an earlier attempt had is a hit, so it has that attempt's cost. */
  lemma EarlierSameCost<S>(trace: seq<Attempt<S>>, toKey: S -> string, entries: map<string, real>, a: Attempt<S>)
    requires forall k | 0 <= k < |trace| ::
               toKey(trace[k].candidate) in entries && entries[toKey(trace[k].candidate)] == trace[k].candidateCost
    requires a.hit <==> toKey(a.candidate) in entries
    requires a.hit ==> a.candidateCost == entries[toKey(a.candidate)]
    ensures forall j | 0 <= j < |trace| && toKey(trace[j].candidate) == toKey(a.candidate) ::
              trace[j].candidateCost == a.candidateCost
  {
    forall j | 0 <= j < |trace| && toKey(trace[j].candidate) == toKey(a.candidate)
      ensures trace[j].candidateCost == a.candidateCost
    {
      assert toKey(trace[j].candidate) in entries;
    }
  }

  /** The cache after an attempt holds the keys of every attempt so far, each with its cost. */
  lemma EntriesExtend<S>(trace: seq<Attempt<S>>, toKey: S -> string, entries: map<string, real>, a: Attempt<S>,
                         entries': map<string, real>)
    requires entries.Keys == Keys(trace, toKey)
    requires forall k | 0 <= k < |trace| ::
               toKey(trace[k].candidate) in entries && entries[toKey(trace[k].candidate)] == trace[k].candidateCost
    requires a.hit <==> toKey(a.candidate) in entries
    requires a.hit ==> a.candidateCost == entries[toKey(a.candidate)] && entries' == entries
    requires !a.hit ==> entries' == entries[toKey(a.candidate) := a.candidateCost]
    ensures entries'.Keys == Keys(trace + [a], toKey)
    ensures forall k | 0 <= k < |trace + [a]| ::
              toKey((trace + [a])[k].candidate) in entries'
              && entries'[toKey((trace + [a])[k].candidate)] == (trace + [a])[k].candidateCost
  {
    var u := trace + [a];
    assert u[..|trace|] == trace;
    assert Keys(u, toKey) == Keys(trace, toKey) + {toKey(a.candidate)};
    forall k | 0 <= k < |u|
      ensures toKey(u[k].candidate) in entries' && entries'[toKey(u[k].candidate)] == u[k].candidateCost
    {
      if k < |trace| {
        assert u[k] == trace[k];
      }
    }
  }

  /** One attempt of a plateau, attempt number `stats.iterations`: propose a candidate from the
      current solution; count a cache hit or miss for its key and look its cost up in the cache,
      evaluating it on a miss (as call `stats.misses + 1` of the evaluator, the misses so far
      including this one); then always take an improvement, recording a new best when it beats the
      best, and take a non-improvement, counting a jump, when the acceptance test passes; finally
      count the attempt. The ghost parameters label the record `a` of the attempt. */
  method Step<S>(transition: (S, nat) -> S, toKey: S -> string, evaluate: (S, nat) -> real,
                 accept: (nat, real, real) -> bool, seenSolutions: Memo.Table<string, real>,
                 st: SearchState<S>, stats: Stats, temperature: real,
                 ghost cooling: nat, ghost step: nat, ghost startCost: real)
    returns (next: SearchState<S>, stats': Stats, ghost a: Attempt<S>)
    modifies seenSolutions
    ensures a.cooling == cooling && a.step == step && a.temperature == temperature && a.startCost == startCost
    ensures a.after == next
    ensures Moves(st, a, stats.iterations, transition, accept)
    ensures stats' == Stats(stats.iterations + 1, stats.jumps + (if a.move == Jumped then 1 else 0),
                            stats.hits + (if a.hit then 1 else 0), stats.misses + (if a.hit then 0 else 1))
    ensures a.hit <==> toKey(a.candidate) in old(seenSolutions.entries)
    ensures a.hit ==> a.candidateCost == old(seenSolutions.entries)[toKey(a.candidate)]
                      && seenSolutions.entries == old(seenSolutions.entries)
    ensures !a.hit ==> a.candidateCost == evaluate(a.candidate, stats.misses + 1)
                       && seenSolutions.entries == old(seenSolutions.entries)[toKey(a.candidate) := a.candidateCost]
  {
    var n := stats.iterations;
    var newSolution := transition(st.current, n);
    var key := toKey(newSolution);
    var hit := seenSolutions.Has(key);
    stats' := stats;
    if hit {
      stats' := stats'.(hits := stats'.hits + 1);
    } else {
      stats' := stats'.(misses := stats'.misses + 1);
    }
    var call := stats'.misses;
    var newCost, made := seenSolutions.SetDefault(key, () => evaluate(newSolution, call));
    // The table calls the evaluator exactly when the lookup above missed.
    assert made == !hit;

    next := st;
    ghost var move := Stayed;
    if newCost < st.currentCost {
      // A cheaper candidate is taken unconditionally.
      next, move := next.(current := newSolution, currentCost := newCost), Improved;
      if newCost < st.bestCost {
        next := next.(best := newSolution, bestCost := newCost);
      }
    } else {
      // A candidate no cheaper is taken only when the acceptance test passes.
      var minusDelta := st.currentCost - newCost;
      if accept(n, minusDelta, temperature) {
        stats' := stats'.(jumps := stats'.jumps + 1);
        next, move := next.(current := newSolution, currentCost := newCost), Jumped;
      }
    }
    stats' := stats'.(iterations := n + 1);
    a := Attempt(cooling, step, temperature, startCost, newSolution, newCost, hit, move, next);
  }

  /** The attempts of one plateau: steps 0, 1, ... of cooling step i at `temperature`, whose
      plateau started at `startCost`. */
  ghost predicate Numbered<S>(plateau: seq<Attempt<S>>, i: nat, temperature: real, startCost: real)
  {
    forall k | 0 <= k < |plateau| ::
      && plateau[k].cooling == i && plateau[k].step == k
      && plateau[k].temperature == temperature && plateau[k].startCost == startCost
  }

  /** Where attempt j of plateau i may come after the run `trace` and the plateau's first j
      attempts: it is placed, and the plateau stays numbered with it. */
  lemma NextInPlateau<S>(t: Tuner, init: SearchState<S>, trace: seq<Attempt<S>>, plateau: seq<Attempt<S>>,
                         a: Attempt<S>, i: nat, temperature: real, startCost: real)
    requires i < t.coolingSteps && |plateau| < t.stepsPerTemp
    requires |trace| > 0 ==> && trace[|trace| - 1].cooling + 1 == i && Ended(trace[|trace| - 1], t)
                             && temperature == Cooled(t, trace[|trace| - 1].temperature)
    requires |trace| == 0 ==> i == 0 && temperature == t.initialTemperature
    requires Numbered(plateau, i, temperature, startCost)
    requires plateau == [] ==> startCost == Final(init, trace).currentCost
    requires plateau != [] ==> Final(init, trace + plateau).currentCost != startCost
    requires a.cooling == i && a.step == |plateau| && a.temperature == temperature && a.startCost == startCost
    ensures Placed(init, trace + plateau, a, t)
    ensures Numbered(plateau + [a], i, temperature, startCost)
  {
    var u := plateau + [a];
    forall k | 0 <= k < |u|
      ensures u[k].cooling == i && u[k].step == k && u[k].temperature == temperature && u[k].startCost == startCost
    {
      if k < |plateau| {
        assert u[k] == plateau[k];
      }
    }
    if plateau == [] {
      assert trace + plateau == trace;
    } else {
      assert (trace + plateau)[|trace + plateau| - 1] == plateau[|plateau| - 1];
    }
  }

  /** The attempts of cooling step i at `temperature`: at most stepsPerTemp of them, stopping early
      after an attempt that leaves the current cost where the plateau started. Appends them, as
      `plateau`, to the record `trace` of the run's attempts so far. */
  method Plateau<S>(t: Tuner, transition: (S, nat) -> S, toKey: S -> string, evaluate: (S, nat) -> real,
                    accept: (nat, real, real) -> bool, seenSolutions: Memo.Table<string, real>,
                    st: SearchState<S>, stats: Stats, temperature: real, i: nat,
                    ghost init: SearchState<S>, ghost trace: seq<Attempt<S>>)
    returns (st': SearchState<S>, stats': Stats, ghost trace': seq<Attempt<S>>, ghost plateau: seq<Attempt<S>>)
    requires Recorded(t, init, trace, transition, accept, toKey, evaluate, st, stats, seenSolutions.entries)
    requires i < t.coolingSteps
    requires |trace| > 0 ==> && trace[|trace| - 1].cooling + 1 == i && Ended(trace[|trace| - 1], t)
                             && temperature == Cooled(t, trace[|trace| - 1].temperature)
    requires |trace| == 0 ==> (i == 0 && temperature == t.initialTemperature) || t.stepsPerTemp == 0
    modifies seenSolutions
    ensures Recorded(t, init, trace', transition, accept, toKey, evaluate, st', stats', seenSolutions.entries)
    ensures trace' == trace + plateau && |plateau| <= t.stepsPerTemp
    ensures Numbered(plateau, i, temperature, st.currentCost)
    ensures t.stepsPerTemp > 0 ==> |plateau| > 0 && Ended(plateau[|plateau| - 1], t)
  {
    st', stats', plateau := st, stats, [];
    var startCost := st.currentCost;
    var j := 0;
    assert trace + plateau == trace;
    while j < t.stepsPerTemp
      invariant j <= t.stepsPerTemp && |plateau| == j
      invariant Recorded(t, init, trace + plateau, transition, accept, toKey, evaluate, st', stats', seenSolutions.entries)
      invariant j == 0 ==> st' == st
      invariant Numbered(plateau, i, temperature, startCost)
      invariant j > 0 ==> st'.currentCost != startCost
    {
      ghost var before, counters, entries := st', stats', seenSolutions.entries;
      ghost var a;
      st', stats', a := Step(transition, toKey, evaluate, accept, seenSolutions, st', stats', temperature,
                             i, j, startCost);
      NextInPlateau(t, init, trace, plateau, a, i, temperature, startCost);
      RecordedExtends(t, init, trace + plateau, transition, accept, toKey, evaluate, before, counters, entries,
                      a, stats', seenSolutions.entries);
      assert (trace + plateau) + [a] == trace + (plateau + [a]);
      plateau := plateau + [a];
      // The plateau ends once the current cost is back at its starting value.
      if startCost == st'.currentCost {
        break;
      }
      j := j + 1;
    }
    trace' := trace + plateau;
  }

  /** One annealing run under the schedule `t`. The solution space is reached only through the
      parameters: `initial` is the initial solution; `transition(s, n)` is the candidate proposed
      from `s` at attempt n; `toKey` gives a solution's string form; `evaluate(s, c)` is the cost the
      judges report for `s` on the c-th evaluation of the run (the initial solution's is call 0);
      `accept(n, minusDelta, temperature)` is the outcome of the random acceptance test of attempt n
      for a non-improvement. Returns the best solution with the run's counters; the ghost results
      are the initial state and the record of every attempt. */
  method Anneal<S>(t: Tuner, initial: S, transition: (S, nat) -> S, toKey: S -> string,
                   evaluate: (S, nat) -> real, accept: (nat, real, real) -> bool)
    returns (bestSolution: S, stats: Stats, ghost init: SearchState<S>, ghost trace: seq<Attempt<S>>)
    ensures init == SearchState(initial, evaluate(initial, 0), initial, evaluate(initial, 0))
    ensures Followed(init, trace, transition, accept)
    ensures Cached(trace, toKey, evaluate)
    ensures Scheduled(init, trace, t)
    ensures bestSolution == Final(init, trace).best
    ensures stats == Stats(|trace|, Jumps(trace), Hits(trace), Misses(trace))
    ensures stats.hits + stats.misses == stats.iterations
    ensures stats.misses == |Keys(trace, toKey)|
    ensures stats.iterations <= t.coolingSteps * t.stepsPerTemp
    ensures Final(init, trace).bestCost == Min(Costs(init, trace))
    ensures Final(init, trace).bestCost <= Final(init, trace).currentCost
    ensures Seen(init, trace, bestSolution, Final(init, trace).bestCost)
  {
    var temperature := t.initialTemperature;
    var currentCost := evaluate(initial, 0);
    // The current solution and cost with the best solution and cost.
    var state := SearchState(initial, currentCost, initial, currentCost);
    // The attempts (n), jumps (m), cache hits and misses.
    stats := Stats(0, 0, 0, 0);
    var seenSolutions := new Memo.Table<string, real>();
    init := state;
    trace := [];
    var i := 0;
    while i < t.coolingSteps
      invariant i <= t.coolingSteps
      invariant Recorded(t, init, trace, transition, accept, toKey, evaluate, state, stats, seenSolutions.entries)
      invariant |trace| > 0 ==> && trace[|trace| - 1].cooling + 1 == i && Ended(trace[|trace| - 1], t)
                                && temperature == Cooled(t, trace[|trace| - 1].temperature)
      invariant |trace| == 0 ==> (i == 0 && temperature == t.initialTemperature) || t.stepsPerTemp == 0
      invariant |trace| == 0 <==> i == 0 || t.stepsPerTemp == 0
    {
      ghost var plateau;
      state, stats, trace, plateau := Plateau(t, transition, toKey, evaluate, accept, seenSolutions,
                                              state, stats, temperature, i, init, trace);
      assert plateau != [] ==> trace[|trace| - 1] == plateau[|plateau| - 1];
      temperature := Cooled(t, temperature);
      i := i + 1;
    }
    BestIsMinimum(init, trace, transition, accept);
    HitsPlusMisses(trace);
    CacheSizeIsMisses(trace, toKey);
    AttemptBounds(init, trace, t);
    bestSolution := state.best;
  }

  /** The acceptance test always passes on a zero cost difference at a positive temperature, as
      exp(0) = 1 exceeds every number Math.random() draws. */
  ghost predicate TakesEqualCost(accept: (nat, real, real) -> bool)
  {
    forall n: nat, temperature: real | 0.0 < temperature :: accept(n, 0.0, temperature)
  }

  /** With such an acceptance test and a valid schedule, every attempt of a run whose candidate
      costs exactly the current cost is taken as a jump, and keeps the current cost. */
  lemma EqualCostIsJump<S>(init: SearchState<S>, trace: seq<Attempt<S>>, t: Tuner,
                           transition: (S, nat) -> S, accept: (nat, real, real) -> bool, k: nat)
    requires Followed(init, trace, transition, accept) && Paced(init, trace, t)
    requires Cooling(t) && TakesEqualCost(accept)
    requires k < |trace| && trace[k].candidateCost == Before(init, trace, k).currentCost
    ensures trace[k].move == Jumped
    ensures trace[k].after.current == trace[k].candidate
    ensures trace[k].after.currentCost == Before(init, trace, k).currentCost
  {
    FollowedAt(init, trace, k, transition, accept);
    PositiveAt(init, trace, t, k);
    assert accept(k, 0.0, trace[k].temperature);
  }

  /** In a run where no candidate is ever taken, the current cost never leaves a plateau's starting
      cost, so every plateau ends after its first attempt: attempt k is step 0 of cooling step k. */
  lemma {:induction false} UnmovedFirstSteps<S>(init: SearchState<S>, trace: seq<Attempt<S>>, t: Tuner,
                                                transition: (S, nat) -> S, accept: (nat, real, real) -> bool, k: nat)
    requires Followed(init, trace, transition, accept) && Paced(init, trace, t)
    requires forall j | 0 <= j < |trace| :: trace[j].move == Stayed
    requires k < |trace|
    ensures trace[k].step == 0 && trace[k].cooling == k
  {
    PacedAt(init, trace, t, k);
    if k > 0 {
      UnmovedFirstSteps(init, trace, t, transition, accept, k - 1);
      PacedAt(init, trace, t, k - 1);
      FollowedAt(init, trace, k - 1, transition, accept);
    }
  }

  /** A complete run in which no candidate is ever taken makes exactly one attempt per cooling
      step, when a plateau may hold any attempt at all. */
  lemma UnmovedRunLength<S>(init: SearchState<S>, trace: seq<Attempt<S>>, t: Tuner,
                            transition: (S, nat) -> S, accept: (nat, real, real) -> bool)
    requires Followed(init, trace, transition, accept) && Scheduled(init, trace, t)
    requires forall j | 0 <= j < |trace| :: trace[j].move == Stayed
    ensures t.stepsPerTemp > 0 ==> |trace| == t.coolingSteps
  {
    if |trace| > 0 {
      UnmovedFirstSteps(init, trace, t, transition, accept, |trace| - 1);
    }
  }
}
