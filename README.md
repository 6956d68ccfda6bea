# Simulated-annealing trainer of fathom-fox, in Dafny

This project models the core of the coefficient trainer in `src/train.js`:

- the `Tuner`'s annealing loop (`anneal`);
- the set-default helper that caches each solution's cost under the solution's string form (`asyncSetDefault`);
- the counting step at the end of `solutionCost`, which turns the judging tabs' verdicts into a score.

The run is modelled imperatively, as the source writes it:

- `Annealer.Anneal` loops over the cooling steps and keeps the temperature.
- `Annealer.Plateau` runs the attempts of one plateau. It stops early when the current cost is back where the plateau started.
- `Annealer.Step` makes one proposal. It counts a cache hit or miss and looks the cost up through the cache.
  - An improvement is always taken, and it replaces the best when it beats it.
  - A non-improvement is taken when the acceptance test passes, and then counts as a jump.
- The cache is `Memo.Table`, a class whose `entries` map is updated in place.

The solution space, the randomness and the browser are parameters:

- the initial solution;
- `transition(s, n)`, the candidate proposed at attempt `n`;
- `toKey`, the string form of a solution;
- `evaluate(s, c)`, the score returned by the `c`-th evaluation of the run;
- `accept(n, minusDelta, temperature)`, the outcome of the random acceptance test.

Each attempt is recorded in a ghost trace of `Trace.Attempt` values. `Anneal`'s contract ties that trace to three rules:

- the acceptance rule (`Acceptance.Followed`);
- the cache rule (`Lookups.Cached`);
- the cooling schedule (`Schedule.Scheduled`).

Lemmas derive from these rules what a run guarantees:

- the best cost is the minimum of every cost looked at;
- the cache holds one entry per miss;
- a hit reuses the cost of an earlier miss;
- there are at most `coolingSteps * stepsPerTemp` attempts;
- with a positive initial temperature and a cooling fraction in (0, 1), every attempt of a later plateau is made at a strictly lower temperature;
- the rules leave no freedom: two complete runs with the same parameters are the same run (`Determinism.RunDetermined`).

## Model

| member | source | states |
|---|---|---|
| Memo.Table.constructor | src/train.js:37 | a new table, like `new Map()`, holds no entries |
| Memo.Table.Has | src/train.js:6 | the answer is true exactly when the key has an entry |
| Memo.Table.SetDefault | src/train.js:5-12 | with an entry for the key, returns it and leaves the map alone without calling the maker; without one, calls the maker once, stores its value under the key and returns it |
| Memo.SetDefaultTwice | src/train.js:5-12 | a second set-default on the same key returns the first one's value without calling its maker, and the map gains exactly that key, with that value, and no other entry changes |
| Scoring.Successes | src/train.js:91-97 | the number of truthy verdicts is at most the number of verdicts |
| Scoring.SuccessesIsMultiplicity | src/train.js:91-97 | the count equals the number of occurrences of `true` among the verdicts |
| Scoring.SuccessesExtremes | src/train.js:91-97 | the count is the length exactly when every verdict succeeded, and 0 exactly when none did |
| Scoring.SolutionCost | src/train.js:91-100 | the loop computes the successes divided by the number of verdicts; the cost lies in [0, 1], is 1 exactly when all succeeded and 0 exactly when none did |
| Acceptance.Moves | src/train.js:42-68 | the rule for one attempt: the candidate is the transition of the current solution; it is an improvement exactly when it costs less than the current cost, and an improvement is always taken; otherwise it is a jump exactly when the acceptance test passes; the current solution and cost change exactly when the candidate is taken; the best changes exactly on an improvement that beats it |
| Acceptance.Initial | src/train.js:30-33 | a run starts with the initial solution as both current and best, with the same cost |
| Acceptance.FollowedAt | src/train.js:42-68 | every attempt of a run that followed the rule moved as the rule says from the state before it |
| Acceptance.Costs | src/train.js:32-48 | the costs looked at are the initial cost followed by each candidate's cost, in order |
| Acceptance.Min | src/train.js:50-57 | the minimum is at most every element and is one of them |
| Acceptance.Jumps | src/train.js:63-64 | the number of jumps is at most the number of attempts |
| Acceptance.BestIsMinimum | src/train.js:31-57 | after any run, the best cost is at most the current cost, it is the minimum of all costs looked at, and the best solution was looked at with that cost |
| Acceptance.BestNeverIncreases | src/train.js:50-67 | along a run, the best cost never increases and never exceeds the current cost |
| Lookups.Keys | src/train.js:37-48 | the keys the cache holds after a run: the key of every candidate looked up |
| Lookups.Cached | src/train.js:43-48 | the cache rule for a run: an attempt is a hit exactly when an earlier candidate had its key; a miss costs what the evaluator answers on its call; candidates with the same key cost the same |
| Lookups.MissesEvaluatedAt | src/train.js:46-48 | every miss costs what the evaluator answers on the call after the initial one and those of the earlier misses |
| Lookups.Hits | src/train.js:43-44 | the number of hits is at most the number of attempts |
| Lookups.Misses | src/train.js:45-46 | the number of misses is at most the number of attempts |
| Lookups.HitsPlusMisses | src/train.js:43-47 | hits and misses add up to the number of attempts |
| Lookups.KeysMembership | src/train.js:37-48 | a key is cached after a run exactly when some candidate of the run had it |
| Lookups.HitAt | src/train.js:43 | an attempt is a hit exactly when an earlier candidate had its key |
| Lookups.CacheSizeIsMisses | src/train.js:37-48 | the cache holds exactly as many keys as there were misses |
| Lookups.HitReusesCost | src/train.js:43-48 | every hit has the cost of an earlier miss with the same key |
| Lookups.FirstLookupIsMiss | src/train.js:43-48 | every candidate's key was first looked up by a miss, at or before that candidate |
| Schedule.Ended | src/train.js:41-71 | a plateau ends after an attempt that leaves the current cost at the plateau's starting cost, or after its last step |
| Schedule.Continues | src/train.js:38-73 | the next attempt opens the next plateau, one cooling step on at the cooled temperature, exactly after an attempt that ended its plateau, and is otherwise the next step of the same plateau at the same temperature and starting cost |
| Schedule.Cooled | src/train.js:73 | one cooling step multiplies the temperature by the cooling fraction |
| Schedule.Temperature | src/train.js:29-73 | the temperature of cooling step i is the initial temperature cooled i times |
| Schedule.TemperaturePositive | src/train.js:29-73 | with a positive initial temperature and a cooling fraction in (0, 1), every cooling step's temperature is positive |
| Schedule.TemperatureFalls | src/train.js:29-73 | with such a schedule, each cooling step is strictly colder than the one before |
| Schedule.DefaultTunerCools | src/train.js:15 | the constructor's defaults (5000, 5000, 0.95, 1000) form such a schedule and allow at most 5,000,000 attempts |
| Schedule.WithinBounds | src/train.js:38-41 | an attempt lies within both loops' bounds: its cooling step is below coolingSteps and its step below stepsPerTemp |
| Schedule.Opens | src/train.js:29-41 | the first attempt of a run is step 0 of cooling step 0, at the initial temperature |
| Schedule.Placed | src/train.js:38-73 | the next attempt lies within the loops' bounds; if it opens a plateau, its starting cost is the current cost at that moment (line 40); it is the run's first attempt and opens plateau 0, or it continues the attempt before it |
| Schedule.Scheduled | src/train.js:38-71 | a complete run: every attempt placed, no attempt at all exactly when coolingSteps or stepsPerTemp is 0, and otherwise the last attempt belongs to the last cooling step and ends its plateau |
| Schedule.PacedAt | src/train.js:38-73 | every attempt lies within the loop bounds; an attempt opening a plateau records the current cost as the plateau's start; the first attempt opens plateau 0 at the initial temperature, and every later one continues the attempt before it |
| Schedule.Position | src/train.js:38-71 | attempt k belongs to plateau k or an earlier one, and comes no later than its slot in a run where no plateau ends early |
| Schedule.AttemptBounds | src/train.js:38-71 | a run makes at most coolingSteps * stepsPerTemp attempts, and at least one per cooling step when stepsPerTemp is positive |
| Schedule.TemperatureAt | src/train.js:29-73 | every attempt of cooling step c is made at the initial temperature cooled c times |
| Schedule.ContinuesCooler | src/train.js:38-73 | from one attempt to the next, the temperature is unchanged within a plateau, and strictly lower but still positive at a new plateau (with a positive initial temperature and a cooling fraction in (0, 1)) |
| Schedule.PositiveAt | src/train.js:29-73 | under such a schedule every attempt is made at a positive temperature |
| Schedule.ColderLater | src/train.js:38-73 | with a positive initial temperature and a cooling fraction in (0, 1), from an attempt to a later one, the cooling step never goes back and the temperature never rises; it is equal within a plateau and strictly lower in a later one |
| Schedule.CooledLower | src/train.js:73 | multiplying a positive temperature by such a cooling fraction lowers it |
| Schedule.LaterPlateausAreColder | src/train.js:38-73 | with a positive initial temperature and a cooling fraction in (0, 1), attempts of a later plateau are made at a strictly lower temperature, and attempts of the same plateau at the same temperature |
| Annealer.Step | src/train.js:42-69 | one attempt from the given state: its candidate, its hit or miss, its cost (from the cache on a hit, evaluated on the next call on a miss), its move and the resulting state follow the acceptance rule; each counter grows by what it counts; the cache gains the candidate's key with its cost on a miss and is unchanged on a hit |
| Annealer.Plateau | src/train.js:40-72 | the run's record becomes the old record followed by the plateau's attempts, and the variables still match it under every rule; there are at most stepsPerTemp of them, numbered from step 0, all of cooling step i at the given temperature and with the current cost at the plateau's start as starting cost; when stepsPerTemp is positive there is at least one and the last ends the plateau, by returning to the starting cost or at the last step |
| Annealer.NextInPlateau | src/train.js:38-71 | the next attempt of a plateau, numbered after the earlier ones, comes where the schedule lets it come: it opens the plateau after the previous one ended, or continues a plateau that has not returned to its starting cost |
| Annealer.TakesEqualCost | src/train.js:61-63 | the acceptance test passes on a zero cost difference at every positive temperature, as exp(0) = 1 > Math.random() does |
| Annealer.EqualCostIsJump | src/train.js:59-67 | when the acceptance test passes on every zero cost difference at a positive temperature, as exp(0) = 1 > Math.random() does, a candidate costing exactly the current cost is taken as a jump and keeps the current cost |
| Annealer.UnmovedFirstSteps | src/train.js:40-71 | in a run where no candidate is ever taken, attempt k is step 0 of cooling step k: every plateau ends after its first attempt |
| Annealer.UnmovedRunLength | src/train.js:38-71 | a complete run where no candidate is ever taken makes exactly coolingSteps attempts when stepsPerTemp is positive |
| Determinism.AttemptDetermined | src/train.js:38-73 | two runs obeying the acceptance rule, the cache rule and the schedule, which agree before attempt k, agree on attempt k |
| Determinism.PrefixDetermined | src/train.js:38-73 | two such runs agree on every attempt both made |
| Determinism.RunDetermined | src/train.js:28-79 | two complete runs from the same initial state that obey the rules are the same run, so the contract of `Annealer.Anneal` fixes every attempt it makes |
| Annealer.Anneal | src/train.js:28-79 | the whole run follows the acceptance, cache and schedule rules from the initial solution evaluated once. It returns the best solution, which was looked at with the minimum of all costs. Its counters count attempts, jumps, hits and misses; hits plus misses equal the attempts, the misses equal the cache size, and there are at most coolingSteps * stepsPerTemp attempts |

## Left out

- Math.exp, Math.random and BOLTZMANNS: the acceptance test of a non-improvement (`merit > Math.random()`) is the parameter `accept(n, minusDelta, temperature)`, so the model holds for any outcomes of that test.
- Annealer.Anneal: a failed evaluation is not modelled. `evaluate` always returns a cost; in the source a rejected message to a tab makes `solutionCost` reject, so `asyncSetDefault` throws before storing the key and `anneal` rejects with no result, after the miss was already counted.
- Annealer.Anneal: NaN costs are not modelled. With no tabs every cost is 0/0 = NaN, so no comparison succeeds: no candidate is taken, no plateau ends early (NaN never equals itself), and the run makes exactly coolingSteps * stepsPerTemp attempts and returns the initial solution. In the model a cost always equals itself, so when no candidate is ever taken the current cost stays at each plateau's starting cost, every plateau ends after its first attempt, and the run makes exactly coolingSteps attempts when stepsPerTemp is positive (`Annealer.UnmovedRunLength`).
- Annealer.Anneal: `accept` is free, so the contract holds for any outcomes of the acceptance test; the source's test always passes on a zero cost difference at a positive temperature, which `Annealer.TakesEqualCost` states and `Annealer.EqualCostIsJump` uses.
- Floating point: costs, temperatures and the cooling fraction are reals, with no rounding.
- console.log output and the final hit-rate division are not modelled; they only print.
- The browser messaging and Promise.all in `solutionCost` are not modelled. Each evaluation is the parameter `evaluate`, indexed by its call number in the run; `Scoring.SolutionCost` models the count over the collected verdicts.
- Scoring.SolutionCost: requires at least one verdict. With no tabs the source divides 0 by 0 and returns NaN, which has no counterpart among reals.
- Truthiness: a verdict is a bool; other truthy or falsy values a tab might send are not modelled.
- Awaiting: `asyncSetDefault` is modelled as a synchronous call. Any interleaving of concurrent callers on one map is not modelled, and `anneal` never makes concurrent calls.
- `randomTransition` and `initialSolution` are stubs in the source. They become the parameters `transition` and `initial`, and `toString` becomes `toKey`.
- `trainOnTabs`, `initPage` and the Tuner's constructor fields `tabs` and `trainableId` are not modelled; they only feed the browser messaging.
- Tuner parameters: the loop bounds are natural numbers and the temperatures reals, so negative or fractional loop bounds are not modelled.
- Annealer.Anneal: the four solution and cost variables are grouped into one `SearchState` value, and m, n, hits and misses into one `Stats` value.
- Annealer.Plateau, Annealer.Step: the loop body is split into these two methods.
- Annealer.Anneal: the temperature update is written through `Schedule.Cooled`, which multiplies by the cooling fraction.
- The initial solution is evaluated outside the cache, as in the source: its key is not stored, so the first candidate with the same key is a miss.
