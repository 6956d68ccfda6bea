/** The values an annealing run is described by: the tuner's schedule parameters, the search state
    carried from attempt to attempt, and the record of one proposal attempt. */
module Trace {

  /** The schedule a Tuner is constructed with. */
  datatype Tuner = Tuner(initialTemperature: real, coolingSteps: nat, coolingFraction: real, stepsPerTemp: nat)

  /** The constructor's defaults. */
  const DefaultTuner := Tuner(5000.0, 5000, 0.95, 1000)

  /** Current and best solution with their costs. */
  datatype SearchState<S> = SearchState(current: S, currentCost: real, best: S, bestCost: real)

  /** How an attempt ended: an improvement (always taken), a non-improvement the acceptance test
      took (a jump, counted in m), or a non-improvement left behind. */
  datatype Move = Improved | Jumped | Stayed

  /** One proposal attempt, as the run makes it. */
  datatype Attempt<S> = Attempt(
    cooling: nat,        // the cooling step (plateau) the attempt belongs to
    step: nat,           // its position within the plateau
    temperature: real,   // the temperature of that plateau
    startCost: real,     // the current cost when the plateau began
    candidate: S,        // the proposed solution
    candidateCost: real, // its cost, as the cache answered
    hit: bool,           // its key was already in the cache
    move: Move,
    after: SearchState<S>)

  /** The search state after all attempts of `trace`. */
  function Final<S>(init: SearchState<S>, trace: seq<Attempt<S>>): SearchState<S>
  {
    if trace == [] then init else trace[|trace| - 1].after
  }

  /** The search state in which attempt `k` is made (the state after all attempts when `k == |trace|`). */
  function Before<S>(init: SearchState<S>, trace: seq<Attempt<S>>, k: nat): SearchState<S>
    requires k <= |trace|
  {
    if k == 0 then init else trace[k - 1].after
  }
}
