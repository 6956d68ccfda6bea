/** The cooling schedule: plateaus of attempts at a fixed temperature, each left early when an
    attempt leaves the current cost where the plateau started, the temperature multiplied by the
    cooling fraction after every plateau. */
module Schedule {
  import opened Trace

  /** The temperature of cooling step i: the initial temperature, multiplied by the cooling
      fraction once per earlier step. */
  function Temperature(t: Tuner, i: nat): real
  {
    if i == 0 then t.initialTemperature else Cooled(t, Temperature(t, i - 1))
  }

  /** The temperature that follows `temperature` after one cooling step. */
  function Cooled(t: Tuner, temperature: real): real
  {
    temperature * t.coolingFraction
  }

  /** An attempt after which its plateau ends: it left the current cost at the plateau's starting
      cost, or it used the plateau's last step. */
  ghost predicate Ended<S>(a: Attempt<S>, t: Tuner)
  {
    a.after.currentCost == a.startCost || a.step + 1 == t.stepsPerTemp
  }

  /** Attempt `next` directly follows attempt `prev`: it opens the next plateau after `prev` ended
      its own, or it is the next step of the same plateau, which `prev` did not end early. */
  ghost predicate Continues<S>(prev: Attempt<S>, next: Attempt<S>, t: Tuner)
  {
    if next.step == 0 then
      && next.cooling == prev.cooling + 1 && Ended(prev, t)
      && next.temperature == Cooled(t, prev.temperature)
    else
      && next.cooling == prev.cooling && next.step == prev.step + 1
      && next.startCost == prev.startCost && prev.after.currentCost != prev.startCost
      && next.temperature == prev.temperature
  }

  /** Attempt `a` lies within the bounds of the loops. */
  ghost predicate WithinBounds<S>(a: Attempt<S>, t: Tuner)
  {
    a.cooling < t.coolingSteps && a.step < t.stepsPerTemp
  }

  /** Attempt `a` may come next after the attempts of `trace`: it lies within the bounds of the
      loops; when it opens a plateau, the plateau's starting cost is the current cost at that
      moment; it is the first attempt of the run and opens plateau 0 at the initial temperature, or
      it continues the attempt before it. */
  ghost predicate Placed<S>(init: SearchState<S>, trace: seq<Attempt<S>>, a: Attempt<S>, t: Tuner)
  {
    && WithinBounds(a, t)
    && (a.step == 0 ==> a.startCost == Final(init, trace).currentCost)
    && (if trace == [] then Opens(a, t) else Continues(trace[|trace| - 1], a, t))
  }

  /** The attempts made so far respect the schedule: each came where it may come. */
  ghost predicate Paced<S>(init: SearchState<S>, trace: seq<Attempt<S>>, t: Tuner)
  {
    trace == [] ||
    var p := trace[..|trace| - 1];
    Paced(init, p, t) && Placed(init, p, trace[|trace| - 1], t)
  }

  /** Attempt `a` is the first of the run: step 0 of plateau 0, at the initial temperature. */
  ghost predicate Opens<S>(a: Attempt<S>, t: Tuner)
  {
    a.cooling == 0 && a.step == 0 && a.temperature == t.initialTemperature
  }

  /** Paced, attempt by attempt. */
  lemma {:induction false} PacedAt<S>(init: SearchState<S>, trace: seq<Attempt<S>>, t: Tuner, k: nat)
    requires Paced(init, trace, t) && k < |trace|
    ensures WithinBounds(trace[k], t)
    ensures trace[k].step == 0 ==> trace[k].startCost == Before(init, trace, k).currentCost
    ensures if k == 0 then Opens(trace[k], t) else Continues(trace[k - 1], trace[k], t)
  {
    var p := trace[..|trace| - 1];
    if k < |p| {
      PacedAt(init, p, t, k);
      assert p[k] == trace[k] && Before(init, p, k) == Before(init, trace, k);
      if k > 0 {
        assert p[k - 1] == trace[k - 1];
      }
    }
  }

  /** A paced run stays paced when an attempt comes where it may come. */
  lemma PacedExtends<S>(init: SearchState<S>, trace: seq<Attempt<S>>, a: Attempt<S>, t: Tuner)
    requires Paced(init, trace, t) && Placed(init, trace, a, t)
    ensures Paced(init, trace + [a], t)
  {
    assert (trace + [a])[..|trace|] == trace;
  }

  /** A whole run: paced, with no attempt at all exactly when there are no cooling steps or no
      steps per temperature, and otherwise ending with an attempt that ends the last plateau. */
  ghost predicate Scheduled<S>(init: SearchState<S>, trace: seq<Attempt<S>>, t: Tuner)
  {
    && Paced(init, trace, t)
    && (|trace| == 0 <==> t.coolingSteps == 0 || t.stepsPerTemp == 0)
    && (|trace| > 0 ==> trace[|trace| - 1].cooling == t.coolingSteps - 1 && Ended(trace[|trace| - 1], t))
  }

  /** The number of attempts made before step s of cooling step c when no plateau ends early. */
  function Slot(t: Tuner, c: nat, s: nat): nat
  {
    c * t.stepsPerTemp + s
  }

  /** The slot after the last step of a plateau is the first step of the next one. */
  lemma NextSlot(t: Tuner, c: nat, s: nat)
    requires s < t.stepsPerTemp
    ensures Slot(t, c, s) + 1 <= Slot(t, c + 1, 0)
  {
    assert (c + 1) * t.stepsPerTemp == c * t.stepsPerTemp + t.stepsPerTemp;
  }

  /** Every slot within the loops' bounds lies below coolingSteps * stepsPerTemp. */
  lemma SlotBelow(t: Tuner, c: nat, s: nat)
    requires c < t.coolingSteps && s < t.stepsPerTemp
    ensures Slot(t, c, s) < t.coolingSteps * t.stepsPerTemp
  {
    var d := t.coolingSteps - c - 1;
    assert t.coolingSteps * t.stepsPerTemp == c * t.stepsPerTemp + t.stepsPerTemp + d * t.stepsPerTemp;
  }

  /** Attempt k lies no further than plateau k, and no further than it would if no plateau had
      ended early. */
  lemma {:induction false} Position<S>(init: SearchState<S>, trace: seq<Attempt<S>>, t: Tuner, k: nat)
    requires Paced(init, trace, t) && k < |trace|
    ensures trace[k].cooling <= k
    ensures k <= Slot(t, trace[k].cooling, trace[k].step)
  {
    PacedAt(init, trace, t, k);
    if k > 0 {
      Position(init, trace, t, k - 1);
      PacedAt(init, trace, t, k - 1);
      if trace[k].step == 0 {
        NextSlot(t, trace[k - 1].cooling, trace[k - 1].step);
      }
    }
  }

  /** A run makes at most coolingSteps * stepsPerTemp attempts, and, when a plateau may hold any
      attempt at all, at least one per cooling step. */
  lemma AttemptBounds<S>(init: SearchState<S>, trace: seq<Attempt<S>>, t: Tuner)
    requires Scheduled(init, trace, t)
    ensures |trace| <= t.coolingSteps * t.stepsPerTemp
    ensures t.stepsPerTemp > 0 ==> t.coolingSteps <= |trace|
  {
    if |trace| > 0 {
      var k := |trace| - 1;
      Position(init, trace, t, k);
      PacedAt(init, trace, t, k);
      SlotBelow(t, trace[k].cooling, trace[k].step);
    }
  }

  /** A valid schedule: a positive initial temperature and a cooling fraction strictly between 0 and 1. */
  ghost predicate Cooling(t: Tuner)
  {
    0.0 < t.initialTemperature && 0.0 < t.coolingFraction < 1.0
  }

  /** Every attempt of cooling step c is made at the initial temperature multiplied c times by the
      cooling fraction. */
  lemma {:induction false} TemperatureAt<S>(init: SearchState<S>, trace: seq<Attempt<S>>, t: Tuner, k: nat)
    requires Paced(init, trace, t) && k < |trace|
    ensures trace[k].temperature == Temperature(t, trace[k].cooling)
  {
    PacedAt(init, trace, t, k);
    if k > 0 {
      TemperatureAt(init, trace, t, k - 1);
    }
  }

  /** Under a valid schedule, an attempt made at a positive temperature is followed by one at a
      positive temperature no higher, strictly lower when it opens the next plateau. */
  lemma ContinuesCooler<S>(prev: Attempt<S>, next: Attempt<S>, t: Tuner)
    requires Continues(prev, next, t) && Cooling(t) && 0.0 < prev.temperature
    ensures next.cooling == prev.cooling + (if next.step == 0 then 1 else 0)
    ensures 0.0 < next.temperature <= prev.temperature
    ensures next.step == 0 ==> next.temperature < prev.temperature
    ensures next.step != 0 ==> next.temperature == prev.temperature
  {
    if next.step == 0 {
      CooledPositive(t, prev.temperature);
      CooledLower(t, prev.temperature);
    }
  }

  /** ContinuesCooler, for attempt k of a paced run and the attempt before it. */
  lemma StepAt<S>(init: SearchState<S>, trace: seq<Attempt<S>>, t: Tuner, k: nat)
    requires Paced(init, trace, t) && Cooling(t) && 0 < k < |trace|
    requires 0.0 < trace[k - 1].temperature
    ensures trace[k].cooling == trace[k - 1].cooling + (if trace[k].step == 0 then 1 else 0)
    ensures 0.0 < trace[k].temperature <= trace[k - 1].temperature
    ensures trace[k].step == 0 ==> trace[k].temperature < trace[k - 1].temperature
    ensures trace[k].step != 0 ==> trace[k].temperature == trace[k - 1].temperature
  {
    PacedAt(init, trace, t, k);
    ContinuesCooler(trace[k - 1], trace[k], t);
  }

  /** Under a valid schedule every attempt is made at a positive temperature. */
  lemma {:induction false} PositiveAt<S>(init: SearchState<S>, trace: seq<Attempt<S>>, t: Tuner, k: nat)
    requires Paced(init, trace, t) && Cooling(t) && k < |trace|
    ensures 0.0 < trace[k].temperature
  {
    if k == 0 {
      PacedAt(init, trace, t, k);
    } else {
      PositiveAt(init, trace, t, k - 1);
      StepAt(init, trace, t, k);
    }
  }

  /** Under a valid schedule, from attempt j to a later attempt k the cooling step never goes back
      and the temperature never rises; it is the same within one cooling step and strictly lower in
      a later one. */
  lemma {:induction false} ColderLater<S>(init: SearchState<S>, trace: seq<Attempt<S>>, t: Tuner, j: nat, k: nat)
    requires Paced(init, trace, t) && Cooling(t) && j <= k < |trace|
    ensures trace[j].cooling <= trace[k].cooling
    ensures trace[k].temperature <= trace[j].temperature
    ensures trace[j].cooling == trace[k].cooling ==> trace[k].temperature == trace[j].temperature
    ensures trace[j].cooling < trace[k].cooling ==> trace[k].temperature < trace[j].temperature
  {
    if j < k {
      ColderLater(init, trace, t, j, k - 1);
      PositiveAt(init, trace, t, k - 1);
      StepAt(init, trace, t, k);
    }
  }

  /** The constructor's defaults form a valid schedule, and allow at most 5,000,000 attempts. */
  lemma DefaultTunerCools()
    ensures Cooling(DefaultTuner)
    ensures DefaultTuner.coolingSteps * DefaultTuner.stepsPerTemp == 5000000
  {
  }

  /** Under a valid schedule the temperature of every cooling step is positive. */
  lemma {:induction false} TemperaturePositive(t: Tuner, i: nat)
    requires Cooling(t)
    ensures 0.0 < Temperature(t, i)
  {
    if i > 0 {
      TemperaturePositive(t, i - 1);
      CooledPositive(t, Temperature(t, i - 1));
    }
  }

  /** Under a valid schedule each cooling step is strictly colder than the one before. */
  lemma TemperatureFalls(t: Tuner, i: nat)
    requires Cooling(t)
    ensures Temperature(t, i + 1) < Temperature(t, i)
  {
    TemperaturePositive(t, i);
    CooledLower(t, Temperature(t, i));
  }

  /** Under a valid schedule a cooling step keeps a positive temperature positive. */
  lemma CooledPositive(t: Tuner, temperature: real)
    requires Cooling(t) && 0.0 < temperature
    ensures 0.0 < Cooled(t, temperature)
  {
  }

  /** Under a valid schedule a cooling step lowers a positive temperature. */
  lemma CooledLower(t: Tuner, temperature: real)
    requires Cooling(t) && 0.0 < temperature
    ensures Cooled(t, temperature) < temperature
  {
    assert 0.0 < temperature * (1.0 - t.coolingFraction) == temperature - temperature * t.coolingFraction;
  }

  /** In a paced run with a valid schedule, an attempt of a later plateau is made at a strictly
      lower temperature, and the attempts of one plateau at the same temperature. */
  lemma LaterPlateausAreColder<S>(init: SearchState<S>, trace: seq<Attempt<S>>, t: Tuner)
    requires Paced(init, trace, t)
    requires Cooling(t)
    ensures forall j, k | 0 <= j < |trace| && 0 <= k < |trace| && trace[j].cooling < trace[k].cooling ::
              trace[k].temperature < trace[j].temperature
    ensures forall j, k | 0 <= j < |trace| && 0 <= k < |trace| && trace[j].cooling == trace[k].cooling ::
              trace[k].temperature == trace[j].temperature
  {
    forall j, k | 0 <= j < |trace| && 0 <= k < |trace|
      ensures trace[j].cooling < trace[k].cooling ==> trace[k].temperature < trace[j].temperature
      ensures trace[j].cooling == trace[k].cooling ==> trace[k].temperature == trace[j].temperature
    {
      if j <= k {
        ColderLater(init, trace, t, j, k);
      } else {
        ColderLater(init, trace, t, k, j);
      }
    }
  }
}
