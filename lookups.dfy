/** How the attempts of a run use the cache of costs keyed by a solution's string form: a key is
    a hit exactly when an earlier candidate had it, a miss calls the evaluator, and a key once
    cached always answers the same cost. */
module Lookups {
  import opened Trace

  /** The keys of every candidate of `trace`: the keys the cache holds after it. */
  function Keys<S>(trace: seq<Attempt<S>>, toKey: S -> string): set<string>
  {
    if trace == [] then {}
    else Keys(trace[..|trace| - 1], toKey) + {toKey(trace[|trace| - 1].candidate)}
  }

  /** The number of attempts whose key was found in the cache. */
  function Hits<S>(trace: seq<Attempt<S>>): (r: nat)
    ensures r <= |trace|
  {
    if trace == [] then 0
    else Hits(trace[..|trace| - 1]) + (if trace[|trace| - 1].hit then 1 else 0)
  }

  /** The number of attempts whose key was not found in the cache. */
  function Misses<S>(trace: seq<Attempt<S>>): (r: nat)
    ensures r <= |trace|
  {
    if trace == [] then 0
    else Misses(trace[..|trace| - 1]) + (if trace[|trace| - 1].hit then 0 else 1)
  }

  /** Each attempt is exactly one of a hit and a miss. */
  lemma {:induction false} HitsPlusMisses<S>(trace: seq<Attempt<S>>)
    ensures Hits(trace) + Misses(trace) == |trace|
  {
    if trace != [] {
      HitsPlusMisses(trace[..|trace| - 1]);
    }
  }

  /** A key is among the Keys exactly when some candidate has it. */
  lemma {:induction false} KeysMembership<S>(trace: seq<Attempt<S>>, toKey: S -> string, key: string)
    ensures key in Keys(trace, toKey) <==> exists j | 0 <= j < |trace| :: toKey(trace[j].candidate) == key
  {
    if trace != [] {
      var p := trace[..|trace| - 1];
      KeysMembership(p, toKey, key);
      if exists j | 0 <= j < |p| :: toKey(p[j].candidate) == key {
        var j :| 0 <= j < |p| && toKey(p[j].candidate) == key;
        assert trace[j] == p[j];
      }
    }
  }

  /** The cache rule, attempt by attempt. A candidate is a hit exactly when its key was looked up
      before; a miss costs what the evaluator answers on its next call (call 0 is the initial
      solution's, made outside the cache, so the m-th miss makes call m); two candidates with the
      same key cost the same. */
  ghost predicate Cached<S>(trace: seq<Attempt<S>>, toKey: S -> string, evaluate: (S, nat) -> real)
  {
    HitsRecognised(trace, toKey) && MissesEvaluated(trace, evaluate) && SameKeySameCost(trace, toKey)
  }

  /** Each attempt is a hit exactly when its key is among those of the attempts before it. */
  ghost predicate HitsRecognised<S>(trace: seq<Attempt<S>>, toKey: S -> string)
  {
    trace == [] ||
    var p, a := trace[..|trace| - 1], trace[|trace| - 1];
    HitsRecognised(p, toKey) && (a.hit <==> toKey(a.candidate) in Keys(p, toKey))
  }

  /** HitsRecognised, attempt by attempt. */
  lemma {:induction false} HitAt<S>(trace: seq<Attempt<S>>, toKey: S -> string, k: nat)
    requires HitsRecognised(trace, toKey) && k < |trace|
    ensures trace[k].hit <==> toKey(trace[k].candidate) in Keys(trace[..k], toKey)
  {
    var p := trace[..|trace| - 1];
    if k < |p| {
      HitAt(p, toKey, k);
      assert p[..k] == trace[..k] && p[k] == trace[k];
    }
  }

  /** Each miss costs what the evaluator answers on the call it makes: the one after the initial
      call and the calls of all earlier misses. */
  ghost predicate MissesEvaluated<S>(trace: seq<Attempt<S>>, evaluate: (S, nat) -> real)
  {
    trace == [] ||
    var p, a := trace[..|trace| - 1], trace[|trace| - 1];
    MissesEvaluated(p, evaluate) && (!a.hit ==> a.candidateCost == evaluate(a.candidate, 1 + Misses(p)))
  }

  /** MissesEvaluated, attempt by attempt. */
  lemma {:induction false} MissesEvaluatedAt<S>(trace: seq<Attempt<S>>, evaluate: (S, nat) -> real, k: nat)
    requires MissesEvaluated(trace, evaluate) && k < |trace|
    ensures !trace[k].hit ==> trace[k].candidateCost == evaluate(trace[k].candidate, 1 + Misses(trace[..k]))
  {
    var p := trace[..|trace| - 1];
    if k < |p| {
      MissesEvaluatedAt(p, evaluate, k);
      assert p[..k] == trace[..k] && p[k] == trace[k];
    } else {
      assert p == trace[..k];
    }
  }

  /** Attempts whose candidates share a key have the same cost. */
  ghost predicate SameKeySameCost<S>(trace: seq<Attempt<S>>, toKey: S -> string)
  {
    forall j, k | 0 <= j < k < |trace| && toKey(trace[j].candidate) == toKey(trace[k].candidate) ::
      trace[j].candidateCost == trace[k].candidateCost
  }

  /** The cache rule holds for one more attempt that is a hit exactly when its key was seen,
      is evaluated on the next call when a miss, and agrees in cost with earlier attempts of its key. */
  lemma CachedExtends<S>(trace: seq<Attempt<S>>, a: Attempt<S>, toKey: S -> string, evaluate: (S, nat) -> real)
    requires Cached(trace, toKey, evaluate)
    requires a.hit <==> toKey(a.candidate) in Keys(trace, toKey)
    requires !a.hit ==> a.candidateCost == evaluate(a.candidate, 1 + Misses(trace))
    requires forall j | 0 <= j < |trace| && toKey(trace[j].candidate) == toKey(a.candidate) ::
               trace[j].candidateCost == a.candidateCost
    ensures Cached(trace + [a], toKey, evaluate)
  {
    HitsRecognisedExtends(trace, a, toKey);
    MissesEvaluatedExtends(trace, a, evaluate);
    SameKeySameCostExtends(trace, a, toKey);
  }

  /** HitsRecognised, for one more attempt. */
  lemma HitsRecognisedExtends<S>(trace: seq<Attempt<S>>, a: Attempt<S>, toKey: S -> string)
    requires HitsRecognised(trace, toKey)
    requires a.hit <==> toKey(a.candidate) in Keys(trace, toKey)
    ensures HitsRecognised(trace + [a], toKey)
  {
    assert (trace + [a])[..|trace|] == trace;
  }

  /** MissesEvaluated, for one more attempt. */
  lemma MissesEvaluatedExtends<S>(trace: seq<Attempt<S>>, a: Attempt<S>, evaluate: (S, nat) -> real)
    requires MissesEvaluated(trace, evaluate)
    requires !a.hit ==> a.candidateCost == evaluate(a.candidate, 1 + Misses(trace))
    ensures MissesEvaluated(trace + [a], evaluate)
  {
    assert (trace + [a])[..|trace|] == trace;
  }

  /** SameKeySameCost, for one more attempt. */
  lemma SameKeySameCostExtends<S>(trace: seq<Attempt<S>>, a: Attempt<S>, toKey: S -> string)
    requires SameKeySameCost(trace, toKey)
    requires forall j | 0 <= j < |trace| && toKey(trace[j].candidate) == toKey(a.candidate) ::
               trace[j].candidateCost == a.candidateCost
    ensures SameKeySameCost(trace + [a], toKey)
  {
    var t := trace + [a];
    forall j, k | 0 <= j < k < |t| && toKey(t[j].candidate) == toKey(t[k].candidate)
      ensures t[j].candidateCost == t[k].candidateCost
    {
      assert t[j] == trace[j];
      if k < |trace| {
        assert t[k] == trace[k];
      }
    }
  }

  /** The cache holds one entry per miss: a miss adds a key it did not hold, a hit adds nothing. */
  lemma {:induction false} CacheSizeIsMisses<S>(trace: seq<Attempt<S>>, toKey: S -> string)
    requires HitsRecognised(trace, toKey)
    ensures |Keys(trace, toKey)| == Misses(trace)
  {
    if trace != [] {
      var n := |trace| - 1;
      var p := trace[..n];
      CacheSizeIsMisses(p, toKey);
      var key := toKey(trace[n].candidate);
      assert Keys(trace, toKey) == Keys(p, toKey) + {key};
      assert Misses(trace) == Misses(p) + (if trace[n].hit then 0 else 1);
      assert trace[n].hit <==> key in Keys(p, toKey);
      if !trace[n].hit {
        assert |Keys(p, toKey) + {key}| == |Keys(p, toKey)| + 1;
      } else {
        assert Keys(p, toKey) + {key} == Keys(p, toKey);
      }
    }
  }

  /** A hit reuses the cost of an earlier miss with the same key: the lookup that made the entry. */
  lemma {:induction false} HitReusesCost<S>(trace: seq<Attempt<S>>, toKey: S -> string, evaluate: (S, nat) -> real, k: nat)
    requires Cached(trace, toKey, evaluate) && k < |trace| && trace[k].hit
    ensures exists j | 0 <= j < k :: toKey(trace[j].candidate) == toKey(trace[k].candidate)
                                     && !trace[j].hit && trace[j].candidateCost == trace[k].candidateCost
  {
    var key := toKey(trace[k].candidate);
    HitAt(trace, toKey, k);
    KeysMembership(trace[..k], toKey, key);
    var i :| 0 <= i < k && toKey(trace[..k][i].candidate) == key;
    FirstLookupIsMiss(trace, toKey, evaluate, i);
  }

  /** The first lookup of every key is a miss: some attempt up to attempt i with its key missed. */
  lemma {:induction false} FirstLookupIsMiss<S>(trace: seq<Attempt<S>>, toKey: S -> string, evaluate: (S, nat) -> real, i: nat)
    requires Cached(trace, toKey, evaluate) && i < |trace|
    ensures exists j | 0 <= j <= i :: toKey(trace[j].candidate) == toKey(trace[i].candidate) && !trace[j].hit
    decreases i
  {
    if trace[i].hit {
      var key := toKey(trace[i].candidate);
      HitAt(trace, toKey, i);
      KeysMembership(trace[..i], toKey, key);
      var i' :| 0 <= i' < i && toKey(trace[..i][i'].candidate) == key;
      FirstLookupIsMiss(trace, toKey, evaluate, i');
    }
  }
}
