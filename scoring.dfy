/** The aggregation at the end of a solution's evaluation: the verdicts of all judging tabs,
    collected, are reduced to the fraction that succeeded. */
module Scoring {

  /** The number of truthy verdicts. */
  function Successes(verdicts: seq<bool>): (r: nat)
    ensures r <= |verdicts|
  {
    if verdicts == [] then 0
    else Successes(verdicts[..|verdicts| - 1]) + (if verdicts[|verdicts| - 1] then 1 else 0)
  }

  /** Successes counts exactly the occurrences of `true`. */
  lemma {:induction false} SuccessesIsMultiplicity(verdicts: seq<bool>)
    ensures Successes(verdicts) == multiset(verdicts)[true]
  {
    if verdicts != [] {
      var init := verdicts[..|verdicts| - 1];
      SuccessesIsMultiplicity(init);
      assert verdicts == init + [verdicts[|verdicts| - 1]];
      assert multiset(verdicts) == multiset(init) + multiset{verdicts[|verdicts| - 1]};
    }
  }

  /** All verdicts succeed exactly when the count is the length, and none does exactly when it is 0. */
  lemma {:induction false} SuccessesExtremes(verdicts: seq<bool>)
    ensures Successes(verdicts) == |verdicts| <==> forall i | 0 <= i < |verdicts| :: verdicts[i]
    ensures Successes(verdicts) == 0 <==> forall i | 0 <= i < |verdicts| :: !verdicts[i]
  {
    if verdicts != [] {
      var init := verdicts[..|verdicts| - 1];
      SuccessesExtremes(init);
      assert forall i | 0 <= i < |init| :: init[i] == verdicts[i];
    }
  }

  /** The cost of a solution: the fraction of the collected verdicts that are truthy. */
  method SolutionCost(successes: seq<bool>) returns (cost: real)
    requires |successes| > 0
    ensures cost == Successes(successes) as real / |successes| as real
    ensures 0.0 <= cost <= 1.0
    ensures cost == 1.0 <==> forall i | 0 <= i < |successes| :: successes[i]
    ensures cost == 0.0 <==> forall i | 0 <= i < |successes| :: !successes[i]
  {
    var numSuccesses := 0;
    for i := 0 to |successes|
      invariant numSuccesses == Successes(successes[..i])
    {
      assert successes[..i + 1][..i] == successes[..i];
      if successes[i] {
        numSuccesses := numSuccesses + 1;
      }
    }
    assert successes[..|successes|] == successes;
    cost := numSuccesses as real / |successes| as real;
    FractionBounds(numSuccesses, |successes|);
    SuccessesExtremes(successes);
  }

  /** A part of a positive whole is a fraction between 0 and 1. */
  lemma FractionBounds(part: nat, whole: nat)
    requires 0 < whole && part <= whole
    ensures 0.0 <= part as real / whole as real <= 1.0
    ensures part as real / whole as real == 1.0 <==> part == whole
    ensures part as real / whole as real == 0.0 <==> part == 0
  {
    var q := part as real / whole as real;
    assert q * whole as real == part as real;
  }
}
