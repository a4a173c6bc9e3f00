/**
 Splitting transactions into chunks below the block mass limit before they are
 validated. The greedy split is a partition in order and no admissible split has
 fewer chunks.
 */
module Chunking {
  import opened Wrappers

  // Total mass of the transactions from lo up to hi.
  function Mass(masses: seq<nat>, lo: nat, hi: nat): nat
    requires lo <= hi <= |masses|
  {
    if lo == hi then 0 else Mass(masses, lo, hi - 1) + masses[hi - 1]
  }

  // An admissible chunk: below the limit, or a single transaction.
  predicate Fits(masses: seq<nat>, limit: nat, lo: nat, hi: nat)
    requires lo < hi <= |masses|
  {
    Mass(masses, lo, hi) < limit || hi == lo + 1
  }

  lemma {:induction false} MassShrinks(masses: seq<nat>, lo: nat, lo': nat, hi: nat)
    requires lo <= lo' <= hi <= |masses|
    ensures Mass(masses, lo', hi) <= Mass(masses, lo, hi)
  {
    if lo' < hi {
      MassShrinks(masses, lo, lo', hi - 1);
    }
  }

  lemma {:induction false} MassGrows(masses: seq<nat>, lo: nat, hi: nat, hi': nat)
    requires lo <= hi <= hi' <= |masses|
    ensures Mass(masses, lo, hi) <= Mass(masses, lo, hi')
  {
    if hi < hi' {
      MassGrows(masses, lo, hi, hi' - 1);
    }
  }

  // No longer chunk from lo is admissible.
  ghost predicate Maximal(masses: seq<nat>, limit: nat, lo: nat, hi: nat) {
    lo < hi && forall longer :: hi < longer <= |masses| ==> !Fits(masses, limit, lo, longer)
  }

  // next_transaction_chunk_upper_bound: the longest admissible chunk.
  method NextUpperBound(masses: seq<nat>, limit: nat, lower: nat) returns (r: Option<nat>)
    ensures r.None? <==> lower >= |masses|
    ensures r.Some? ==> lower < r.value <= |masses| && Fits(masses, limit, lower, r.value)
    ensures r.Some? ==> Maximal(masses, limit, lower, r.value)
  {
    if lower >= |masses| {
      return None;
    }
    var mass := 0;
    var i := 0;
    while lower + i < |masses|
      invariant lower + i <= |masses|
      invariant mass == Mass(masses, lower, lower + i)
      invariant i > 0 ==> mass < limit
    {
      mass := mass + masses[lower + i];
      if mass >= limit {
        var relative := if i >= 1 then i else 1;
        forall hi | lower + relative < hi <= |masses|
          ensures !Fits(masses, limit, lower, hi)
        {
          MassGrows(masses, lower, lower + i + 1, hi);
        }
        return Some(relative + lower);
      }
      i := i + 1;
    }
    return Some(|masses|);
  }

  // Where chunk i begins; bounds holds the upper ends.
  function Start(bounds: seq<nat>, i: nat): nat
    requires i <= |bounds|
  {
    if i == 0 then 0 else bounds[i - 1]
  }

  ghost predicate Admissible(masses: seq<nat>, limit: nat, bounds: seq<nat>, i: nat)
    requires i < |bounds|
  {
    Start(bounds, i) < bounds[i] <= |masses| && Fits(masses, limit, Start(bounds, i), bounds[i])
  }

  // Consecutive nonempty admissible chunks covering the first `end` transactions.
  ghost predicate Partition(masses: seq<nat>, limit: nat, bounds: seq<nat>, end: nat) {
    && (forall i :: 0 <= i < |bounds| ==> Admissible(masses, limit, bounds, i))
    && end == Start(bounds, |bounds|)
  }

  // Chunk i is as long as it can be.
  ghost predicate Longest(masses: seq<nat>, limit: nat, bounds: seq<nat>, i: nat)
    requires i < |bounds|
  {
    Maximal(masses, limit, Start(bounds, i), bounds[i])
  }

  ghost predicate Greedy(masses: seq<nat>, limit: nat, bounds: seq<nat>) {
    forall i :: 0 <= i < |bounds| ==> Longest(masses, limit, bounds, i)
  }

  // The loop that validates chunk by chunk: every transaction is validated once,
  // in order, and the chunks are an optimal partition.
  method ValidateInChunks<T, R>(txs: seq<T>, mass: T -> nat, limit: nat, validate: T -> R)
    returns (results: seq<R>, bounds: seq<nat>)
    ensures results == seq(|txs|, i requires 0 <= i < |txs| => validate(txs[i]))
    ensures var masses := seq(|txs|, i requires 0 <= i < |txs| => mass(txs[i]));
      && Partition(masses, limit, bounds, |txs|)
      && forall other :: Partition(masses, limit, other, |txs|) ==> |bounds| <= |other|
  {
    var masses: seq<nat> := seq(|txs|, i requires 0 <= i < |txs| => mass(txs[i]));
    var lower := 0;
    results, bounds := [], [];
    var next := NextUpperBound(masses, limit, lower);
    while next.Some?
      invariant next.None? <==> lower >= |txs|
      invariant next.Some? ==> lower < next.value <= |txs| && Fits(masses, limit, lower, next.value)
      invariant next.Some? ==> Maximal(masses, limit, lower, next.value)
      invariant lower <= |txs| && |results| == lower
      invariant forall i :: 0 <= i < lower ==> results[i] == validate(txs[i])
      invariant Partition(masses, limit, bounds, lower) && Greedy(masses, limit, bounds)
      decreases |txs| - lower
    {
      var upper := next.value;
      results := results + seq(upper - lower, i requires 0 <= i < upper - lower => validate(txs[lower + i]));
      Extend(masses, limit, bounds, lower, upper);
      bounds := bounds + [upper];
      lower := upper;
      next := NextUpperBound(masses, limit, lower);
    }
    forall other | Partition(masses, limit, other, |txs|)
      ensures |bounds| <= |other|
    {
      GreedyOptimal(masses, limit, bounds, other);
    }
  }

  lemma Extend(masses: seq<nat>, limit: nat, bounds: seq<nat>, lower: nat, upper: nat)
    requires Partition(masses, limit, bounds, lower) && Greedy(masses, limit, bounds)
    requires lower < upper <= |masses| && Fits(masses, limit, lower, upper)
    requires Maximal(masses, limit, lower, upper)
    ensures Partition(masses, limit, bounds + [upper], upper) && Greedy(masses, limit, bounds + [upper])
  {
    var after := bounds + [upper];
    forall i | 0 <= i < |after|
      ensures Admissible(masses, limit, after, i) && Longest(masses, limit, after, i)
    {
      assert Start(after, i) == Start(bounds, i);
      if i < |bounds| {
        assert Admissible(masses, limit, bounds, i) && Longest(masses, limit, bounds, i);
      }
    }
  }

  // A shorter chunk with the same end is admissible too.
  lemma FitsInside(masses: seq<nat>, limit: nat, lo: nat, lo': nat, hi: nat)
    requires lo <= lo' < hi <= |masses| && Fits(masses, limit, lo, hi)
    ensures Fits(masses, limit, lo', hi)
  {
    MassShrinks(masses, lo, lo', hi);
  }

  // After the same number of chunks the greedy split is never behind.
  lemma {:induction false} GreedyAhead(masses: seq<nat>, limit: nat, bounds: seq<nat>, other: seq<nat>, end: nat,
                                       end': nat, i: nat)
    requires Partition(masses, limit, bounds, end) && Greedy(masses, limit, bounds)
    requires Partition(masses, limit, other, end')
    requires i <= |bounds| && i <= |other|
    ensures Start(other, i) <= Start(bounds, i)
  {
    if i > 0 {
      GreedyAhead(masses, limit, bounds, other, end, end', i - 1);
      var g, o := Start(bounds, i - 1), Start(other, i - 1);
      assert Admissible(masses, limit, other, i - 1) && Admissible(masses, limit, bounds, i - 1);
      assert Longest(masses, limit, bounds, i - 1);
      if other[i - 1] > g {
        FitsInside(masses, limit, o, g, other[i - 1]);
      }
    }
  }

  lemma {:induction false} StartsIncrease(masses: seq<nat>, limit: nat, bounds: seq<nat>, end: nat, i: nat)
    requires Partition(masses, limit, bounds, end) && i < |bounds|
    ensures Start(bounds, i) < end
    decreases |bounds| - i
  {
    assert Admissible(masses, limit, bounds, i);
    if i + 1 < |bounds| {
      StartsIncrease(masses, limit, bounds, end, i + 1);
    }
  }

  lemma GreedyOptimal(masses: seq<nat>, limit: nat, bounds: seq<nat>, other: seq<nat>)
    requires Partition(masses, limit, bounds, |masses|) && Greedy(masses, limit, bounds)
    requires Partition(masses, limit, other, |masses|)
    ensures |bounds| <= |other|
  {
    if |other| < |bounds| {
      GreedyAhead(masses, limit, bounds, other, |masses|, |masses|, |other|);
      StartsIncrease(masses, limit, bounds, |masses|, |other|);
    }
  }
}
