/**
 Top-k selection: the `order_by(...)[:k]` of a query, over a finite set of
 ids and a score (higher first). The database leaves the order of equal
 scores unspecified, and so do these contracts.
 */
module Ranking {

  /** No id occurs twice. */
  predicate Distinct(r: seq<nat>) {
    forall i, j :: 0 <= i < j < |r| ==> r[i] != r[j]
  }

  /** Scores never increase along the sequence. */
  predicate NonIncreasing(r: seq<nat>, score: nat -> int) {
    forall i, j :: 0 <= i < j < |r| ==> score(r[i]) >= score(r[j])
  }

  /** `r` is a best-first top-`k` list of `pool`: as long as the pool allows
      up to `k`, drawn from the pool without repeats, in non-increasing score,
      and no id left out scores higher than any id taken. */
  predicate TopOf(r: seq<nat>, pool: set<nat>, score: nat -> int, k: nat) {
    && |r| == (if |pool| < k then |pool| else k)
    && (forall i :: 0 <= i < |r| ==> r[i] in pool)
    && Distinct(r)
    && NonIncreasing(r, score)
    && (forall x, i :: x in pool && x !in r && 0 <= i < |r| ==> score(x) <= score(r[i]))
  }

  /** An id of highest score in a non-empty set. */
  method SelectBest(s: set<nat>, score: nat -> int) returns (b: nat)
    requires s != {}
    ensures b in s
    ensures forall x :: x in s ==> score(x) <= score(b)
  {
    b :| b in s;
    var rest := s - {b};
    while rest != {}
      invariant rest <= s && b in s
      invariant forall x :: x in s && x !in rest ==> score(x) <= score(b)
      decreases |rest|
    {
      var x :| x in rest;
      if score(x) > score(b) {
        b := x;
      }
      rest := rest - {x};
    }
  }

  /** The first `k` ids of `pool` ordered by score, highest first. */
  method TopByScore(pool: set<nat>, score: nat -> int, k: nat) returns (r: seq<nat>)
    ensures TopOf(r, pool, score, k)
  {
    r := [];
    var rest := pool;
    while |r| < k && rest != {}
      invariant rest <= pool
      invariant forall i :: 0 <= i < |r| ==> r[i] in pool && r[i] !in rest
      invariant forall x :: x in pool ==> x in rest || x in r
      invariant |r| + |rest| == |pool|
      invariant |r| <= k
      invariant Distinct(r)
      invariant NonIncreasing(r, score)
      invariant forall x, i :: x in rest && 0 <= i < |r| ==> score(x) <= score(r[i])
      decreases |rest|
    {
      var b := SelectBest(rest, score);
      r := r + [b];
      rest := rest - {b};
    }
  }

  /** A one-element pool yields exactly that element. */
  lemma TopOfSingleton(r: seq<nat>, x: nat, score: nat -> int, k: nat)
    requires k > 0 && TopOf(r, {x}, score, k)
    ensures r == [x]
  {
  }

  /** A top list is empty exactly when the pool is (for any positive k). */
  lemma TopEmptyIffPoolEmpty(r: seq<nat>, pool: set<nat>, score: nat -> int, k: nat)
    requires k > 0 && TopOf(r, pool, score, k)
    ensures |r| == 0 <==> pool == {}
  {
  }
}
