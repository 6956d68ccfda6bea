/** The rules an annealing run follows leave it no freedom: given the parameters, at most one
    sequence of attempts obeys the acceptance rule, the cache rule and the schedule. */
module Determinism {
  import opened Trace
  import opened Acceptance
  import opened Lookups
  import opened Schedule

  /** The attempts of `trace` follow the acceptance rule, the cache rule and the schedule. */
  ghost predicate Obeys<S>(init: SearchState<S>, trace: seq<Attempt<S>>, t: Tuner,
                           transition: (S, nat) -> S, accept: (nat, real, real) -> bool,
                           toKey: S -> string, evaluate: (S, nat) -> real)
  {
    Followed(init, trace, transition, accept) && Cached(trace, toKey, evaluate) && Paced(init, trace, t)
  }

  /** Two runs that obeyed the rules and agree before attempt k agree on attempt k. */
  lemma AttemptDetermined<S>(init: SearchState<S>, u: seq<Attempt<S>>, v: seq<Attempt<S>>, t: Tuner,
                             transition: (S, nat) -> S, accept: (nat, real, real) -> bool,
                             toKey: S -> string, evaluate: (S, nat) -> real, k: nat)
    requires Obeys(init, u, t, transition, accept, toKey, evaluate)
    requires Obeys(init, v, t, transition, accept, toKey, evaluate)
    requires k < |u| && k < |v| && u[..k] == v[..k]
    ensures u[k] == v[k]
  {
    if k > 0 {
      assert u[k - 1] == u[..k][k - 1] && v[k - 1] == v[..k][k - 1];
    }
    FollowedAt(init, u, k, transition, accept);
    FollowedAt(init, v, k, transition, accept);
    HitAt(u, toKey, k);
    HitAt(v, toKey, k);
    var key := toKey(u[k].candidate);
    if u[k].hit {
      KeysMembership(u[..k], toKey, key);
      var j :| 0 <= j < k && toKey(u[..k][j].candidate) == key;
      assert u[j] == u[..k][j] == v[..k][j] == v[j];
    } else {
      MissesEvaluatedAt(u, evaluate, k);
      MissesEvaluatedAt(v, evaluate, k);
    }
    PacedAt(init, u, t, k);
    PacedAt(init, v, t, k);
  }

  /** Two runs that obeyed the rules agree on every attempt both made. */
  lemma {:induction false} PrefixDetermined<S>(init: SearchState<S>, u: seq<Attempt<S>>, v: seq<Attempt<S>>, t: Tuner,
                                               transition: (S, nat) -> S, accept: (nat, real, real) -> bool,
                                               toKey: S -> string, evaluate: (S, nat) -> real, n: nat)
    requires Obeys(init, u, t, transition, accept, toKey, evaluate)
    requires Obeys(init, v, t, transition, accept, toKey, evaluate)
    requires n <= |u| && n <= |v|
    ensures u[..n] == v[..n]
  {
    if n > 0 {
      PrefixDetermined(init, u, v, t, transition, accept, toKey, evaluate, n - 1);
      AttemptDetermined(init, u, v, t, transition, accept, toKey, evaluate, n - 1);
      assert u[..n] == u[..n - 1] + [u[n - 1]];
      assert v[..n] == v[..n - 1] + [v[n - 1]];
    }
  }

  /** A whole run is fixed by its parameters: two records of complete runs from the same initial
      state that obey the rules are the same record. */
  lemma RunDetermined<S>(init: SearchState<S>, u: seq<Attempt<S>>, v: seq<Attempt<S>>, t: Tuner,
                         transition: (S, nat) -> S, accept: (nat, real, real) -> bool,
                         toKey: S -> string, evaluate: (S, nat) -> real)
    requires Followed(init, u, transition, accept) && Cached(u, toKey, evaluate) && Scheduled(init, u, t)
    requires Followed(init, v, transition, accept) && Cached(v, toKey, evaluate) && Scheduled(init, v, t)
    ensures u == v
  {
    if |u| < |v| {
      Outlasts(init, u, v, t, transition, accept, toKey, evaluate);
    } else if |v| < |u| {
      Outlasts(init, v, u, t, transition, accept, toKey, evaluate);
    } else {
      PrefixDetermined(init, u, v, t, transition, accept, toKey, evaluate, |u|);
      assert u == u[..|u|] && v == v[..|v|];
    }
  }

  /** No obeying run goes on past the end of a complete one. */
  lemma Outlasts<S>(init: SearchState<S>, u: seq<Attempt<S>>, v: seq<Attempt<S>>, t: Tuner,
                    transition: (S, nat) -> S, accept: (nat, real, real) -> bool,
                    toKey: S -> string, evaluate: (S, nat) -> real)
    requires Followed(init, u, transition, accept) && Cached(u, toKey, evaluate) && Scheduled(init, u, t)
    requires Obeys(init, v, t, transition, accept, toKey, evaluate)
    ensures |v| <= |u|
  {
    if |u| < |v| {
      var n := |u|;
      PrefixDetermined(init, u, v, t, transition, accept, toKey, evaluate, n);
      PacedAt(init, v, t, n);
      assert false;
    }
  }
}
