/**
 * The process-wide pseudo-random generator, as far as the balancer sees it.
 *
 * The generator's internals are an oracle: `draw(seed, k)` is the k-th raw
 * value produced after seeding with `seed`. Everything the balancer asks of
 * the generator goes through `RandBelow`, as in CPython: `Shuffle` is the
 * Fisher-Yates walk of `random.shuffle`, and `Sample` is the pool-based
 * branch of `random.sample`. Callers rely only on their contracts: a shuffle
 * is a permutation, a sample is k distinct positions.
 */
module Rng {

  /** The generator's state: the last seed and how many values were drawn since. */
  datatype State = State(seed: int, drawn: nat)

  /** No position of `s` holds the same value as another. */
  predicate Distinct<T(==)>(s: seq<T>)
  {
    forall a, b :: 0 <= a < b < |s| ==> s[a] != s[b]
  }

  class Random {
    var state: State
    const draw: (int, nat) -> nat

    constructor (draw: (int, nat) -> nat, initial: State)
      ensures this.draw == draw && state == initial
    {
      this.draw := draw;
      state := initial;
    }

    /** `random.getstate()`. */
    function GetState(): State
      reads this
    {
      state
    }

    /** `random.setstate(s)`. */
    method SetState(s: State)
      modifies this
      ensures state == s
    {
      state := s;
    }

    /** `random.seed(s)`: restarts the stream of values. */
    method Seed(s: int)
      modifies this
      ensures state == State(s, 0)
    {
      state := State(s, 0);
    }

    /** A value in [0, n), consuming one value of the stream. */
    method RandBelow(n: nat) returns (r: nat)
      requires n > 0
      modifies this
      ensures r < n
      ensures state == State(old(state).seed, old(state).drawn + 1)
    {
      r := draw(state.seed, state.drawn) % n;
      state := State(state.seed, state.drawn + 1);
    }

    /** `random.shuffle`: returns a permutation of `s`. */
    method Shuffle<T>(s: seq<T>) returns (r: seq<T>)
      modifies this
      ensures |r| == |s| && multiset(r) == multiset(s)
      ensures state.seed == old(state).seed
      ensures |s| <= 1 ==> state == old(state)
    {
      r := s;
      var i := |r|;
      while i > 1
        invariant 0 <= i <= |r| && |r| == |s|
        invariant multiset(r) == multiset(s)
        invariant state.seed == old(state).seed
        invariant |s| <= 1 ==> state == old(state)
      {
        i := i - 1;
        var j := RandBelow(i + 1);
        r := r[i := r[j]][j := r[i]];
      }
    }

    /**
     * `random.sample(s, k)`: k elements of `s` taken from k distinct
     * positions; `idx` names those positions in the order they were drawn.
     */
    method Sample<T>(s: seq<T>, k: nat) returns (picked: seq<T>, ghost idx: seq<nat>)
      requires k <= |s|
      modifies this
      ensures |idx| == k && Distinct(idx)
      ensures forall m :: 0 <= m < k ==> idx[m] < |s|
      ensures |picked| == k && forall m :: 0 <= m < k ==> picked[m] == s[idx[m]]
      ensures state.seed == old(state).seed
    {
      var pool: seq<nat> := seq(|s|, i => i);
      picked, idx := [], [];
      var i := 0;
      while i < k
        invariant 0 <= i <= k && |picked| == |idx| == i
        invariant |pool| == |s| - i && Distinct(pool) && Distinct(idx)
        invariant forall m :: 0 <= m < |pool| ==> pool[m] < |s|
        invariant forall m :: 0 <= m < i ==> idx[m] < |s| && idx[m] !in pool
        invariant forall m :: 0 <= m < i ==> picked[m] == s[idx[m]]
        invariant state.seed == old(state).seed
      {
        var j := RandBelow(|pool|);
        var x := pool[j];
        picked, idx := picked + [s[x]], idx + [x];
        pool := pool[j := pool[|pool| - 1]][..|pool| - 1];
        i := i + 1;
      }
    }
  }
}
