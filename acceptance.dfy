/** The rule by which one attempt changes the search state, and what it implies for the best
    solution over a whole run. */
module Acceptance {
  import opened Trace

  /** Attempt `a`, the `k`-th of the run, made in state `b`: the candidate is a transition of the
      current solution; an improvement is always taken; a non-improvement is taken exactly when the
      acceptance test says so; a candidate not taken leaves the current solution and cost alone; the
      best is replaced only by an improvement that also beats it. */
  ghost predicate Moves<S>(b: SearchState<S>, a: Attempt<S>, k: nat,
                           transition: (S, nat) -> S, accept: (nat, real, real) -> bool)
  {
    && a.candidate == transition(b.current, k)
    && (a.move == Improved <==> a.candidateCost < b.currentCost)
    && (a.move != Improved ==> (a.move == Jumped <==> accept(k, b.currentCost - a.candidateCost, a.temperature)))
    && (if a.move == Stayed
        then a.after.current == b.current && a.after.currentCost == b.currentCost
        else a.after.current == a.candidate && a.after.currentCost == a.candidateCost)
    && (if a.move == Improved && a.candidateCost < b.bestCost
        then a.after.best == a.candidate && a.after.bestCost == a.candidateCost
        else a.after.best == b.best && a.after.bestCost == b.bestCost)
  }

  /** Every attempt of `trace` follows the rule from the state the previous one left. */
  ghost predicate Followed<S>(init: SearchState<S>, trace: seq<Attempt<S>>,
                              transition: (S, nat) -> S, accept: (nat, real, real) -> bool)
  {
    trace == [] ||
    var p := trace[..|trace| - 1];
    Followed(init, p, transition, accept) && Moves(Final(init, p), trace[|trace| - 1], |p|, transition, accept)
  }

  /** Followed, attempt by attempt. */
  lemma {:induction false} FollowedAt<S>(init: SearchState<S>, trace: seq<Attempt<S>>, k: nat,
                                         transition: (S, nat) -> S, accept: (nat, real, real) -> bool)
    requires Followed(init, trace, transition, accept) && k < |trace|
    ensures Moves(Before(init, trace, k), trace[k], k, transition, accept)
  {
    var p := trace[..|trace| - 1];
    if k < |p| {
      FollowedAt(init, p, k, transition, accept);
      assert p[k] == trace[k] && Before(init, p, k) == Before(init, trace, k);
    }
  }

  /** A run starts with the initial solution as both current and best. */
  ghost predicate Initial<S>(init: SearchState<S>)
  {
    init.best == init.current && init.bestCost == init.currentCost
  }

  /** Every cost the run looked at: the initial one, then each candidate's. */
  function Costs<S>(init: SearchState<S>, trace: seq<Attempt<S>>): (c: seq<real>)
    ensures |c| == |trace| + 1 && c[0] == init.currentCost
    ensures forall k | 0 <= k < |trace| :: c[k + 1] == trace[k].candidateCost
  {
    if trace == [] then [init.currentCost]
    else Costs(init, trace[..|trace| - 1]) + [trace[|trace| - 1].candidateCost]
  }

  /** The smallest element of a non-empty sequence. */
  function Min(s: seq<real>): (r: real)
    requires |s| > 0
    ensures forall i | 0 <= i < |s| :: r <= s[i]
    ensures exists i | 0 <= i < |s| :: r == s[i]
  {
    if |s| == 1 then s[0]
    else
      var m := Min(s[..|s| - 1]);
      assert forall i | 0 <= i < |s| - 1 :: s[..|s| - 1][i] == s[i];
      if s[|s| - 1] < m then s[|s| - 1] else m
  }

  /** `s` with cost `c` is the initial solution or one of the candidates of `trace`. */
  ghost predicate Seen<S>(init: SearchState<S>, trace: seq<Attempt<S>>, s: S, c: real)
  {
    (s == init.current && c == init.currentCost)
    || exists k | 0 <= k < |trace| :: trace[k].candidate == s && trace[k].candidateCost == c
  }

  /** The number of jumps: non-improvements that were taken. */
  function Jumps<S>(trace: seq<Attempt<S>>): (r: nat)
    ensures r <= |trace|
  {
    if trace == [] then 0
    else Jumps(trace[..|trace| - 1]) + (if trace[|trace| - 1].move == Jumped then 1 else 0)
  }

  /** A run that followed the rule still does after one more attempt that follows it. */
  lemma FollowedExtends<S>(init: SearchState<S>, trace: seq<Attempt<S>>, a: Attempt<S>,
                           transition: (S, nat) -> S, accept: (nat, real, real) -> bool)
    requires Followed(init, trace, transition, accept)
    requires Moves(Final(init, trace), a, |trace|, transition, accept)
    ensures Followed(init, trace + [a], transition, accept)
  {
    assert (trace + [a])[..|trace|] == trace;
  }

  /** Appending one cost replaces the minimum exactly when it is smaller. */
  lemma MinAppend(s: seq<real>, x: real)
    requires |s| > 0
    ensures Min(s + [x]) == if x < Min(s) then x else Min(s)
  {
    assert (s + [x])[..|s|] == s;
  }

  /** What was looked at stays looked at when the run goes on. */
  lemma SeenExtends<S>(init: SearchState<S>, trace: seq<Attempt<S>>, a: Attempt<S>, s: S, c: real)
    requires Seen(init, trace, s, c)
    ensures Seen(init, trace + [a], s, c)
  {
    if !(s == init.current && c == init.currentCost) {
      var k :| 0 <= k < |trace| && trace[k].candidate == s && trace[k].candidateCost == c;
      assert (trace + [a])[k] == trace[k];
    }
  }

  /** After any run that followed the rule, the best cost is at most the current cost, it is the
      minimum of every cost looked at, and the best solution is one that was looked at with it. */
  lemma {:induction false} BestIsMinimum<S>(init: SearchState<S>, trace: seq<Attempt<S>>,
                                            transition: (S, nat) -> S, accept: (nat, real, real) -> bool)
    requires Initial(init) && Followed(init, trace, transition, accept)
    ensures var last := Final(init, trace);
      && last.bestCost <= last.currentCost
      && last.bestCost == Min(Costs(init, trace))
      && Seen(init, trace, last.best, last.bestCost)
  {
    if trace != [] {
      var n := |trace| - 1;
      var p := trace[..n];
      assert trace == p + [trace[n]];
      BestIsMinimum(init, p, transition, accept);
      var b := Final(init, p);
      var a := trace[n];
      assert Moves(b, a, n, transition, accept);
      MinAppend(Costs(init, p), a.candidateCost);
      if a.move == Improved && a.candidateCost < b.bestCost {
        assert trace[n].candidate == a.candidate;
      } else {
        SeenExtends(init, p, a, b.best, b.bestCost);
      }
    }
  }

  /** Along a run that followed the rule, the best cost never increases and never exceeds the
      current cost. */
  lemma {:induction false} BestNeverIncreases<S>(init: SearchState<S>, trace: seq<Attempt<S>>,
                                                 transition: (S, nat) -> S, accept: (nat, real, real) -> bool)
    requires Initial(init) && Followed(init, trace, transition, accept)
    ensures forall j, k | 0 <= j <= k <= |trace| :: Before(init, trace, k).bestCost <= Before(init, trace, j).bestCost
    ensures forall k | 0 <= k <= |trace| :: Before(init, trace, k).bestCost <= Before(init, trace, k).currentCost
  {
    if trace != [] {
      var n := |trace| - 1;
      var p := trace[..n];
      BestNeverIncreases(init, p, transition, accept);
      assert forall k | 0 <= k <= n :: Before(init, p, k) == Before(init, trace, k);
      assert Final(init, p) == Before(init, trace, n);
      assert Moves(Before(init, trace, n), trace[n], n, transition, accept);
      assert Before(init, trace, n + 1).bestCost <= Before(init, trace, n).bestCost;
      BestIsMinimum(init, trace, transition, accept);
    }
  }
}
