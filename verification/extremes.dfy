/**
 * Running extrema and running sums, as the scanning loops of the height grid
 * keep them: an accumulator replaced only when a later value is STRICTLY more
 * extreme (`glm::min`/`glm::max`, and the `<`/`>` tests of the statistics),
 * and a sum grown one sample at a time.
 */
module Extremes {

  datatype Extremum = Lowest | Highest

  /** A height used as its own key. */
  function Id(v: real): real { v }

  /** `a` strictly beats `b`: smaller for Lowest, larger for Highest. */
  predicate Beats(kind: Extremum, a: real, b: real)
  {
    match kind
    case Lowest => a < b
    case Highest => a > b
  }

  /** `a` is at least as extreme as `b`. */
  predicate NoWorse(kind: Extremum, a: real, b: real)
  {
    !Beats(kind, b, a)
  }

  /**
   * The accumulator after scanning `s` from `init`, keyed by `key`: each
   * element replaces the accumulator only when it strictly beats it.
   */
  function Best<T>(kind: Extremum, key: T -> real, init: T, s: seq<T>): T
    decreases |s|
  {
    if s == [] then init
    else
      var acc := Best(kind, key, init, s[..|s| - 1]);
      if Beats(kind, key(s[|s| - 1]), key(acc)) then s[|s| - 1] else acc
  }

  /** Scanning one more element is one more step of the accumulator. */
  lemma BestSnoc<T>(kind: Extremum, key: T -> real, init: T, s: seq<T>, v: T)
    ensures Best(kind, key, init, s + [v])
         == (var acc := Best(kind, key, init, s);
             if Beats(kind, key(v), key(acc)) then v else acc)
  {
    assert (s + [v])[..|s + [v]| - 1] == s;
  }

  /** The result is at least as extreme as the start and as every element. */
  lemma {:induction false} BestBound<T>(kind: Extremum, key: T -> real, init: T, s: seq<T>)
    ensures NoWorse(kind, key(Best(kind, key, init, s)), key(init))
    ensures forall k :: 0 <= k < |s| ==> NoWorse(kind, key(Best(kind, key, init, s)), key(s[k]))
    decreases |s|
  {
    if s != [] {
      var s' := s[..|s| - 1];
      BestBound(kind, key, init, s');
      forall k | 0 <= k < |s|
        ensures NoWorse(kind, key(Best(kind, key, init, s)), key(s[k]))
      {
        if k < |s| - 1 {
          assert s[k] == s'[k];
        }
      }
    }
  }

  /**
   * The result is the start, or the FIRST element that reached the final
   * value: it strictly beats the start and every element before it, so ties
   * keep the earliest candidate.
   */
  lemma {:induction false} BestWitness<T>(kind: Extremum, key: T -> real, init: T, s: seq<T>)
    returns (k: int)
    ensures -1 <= k < |s|
    ensures k == -1 ==> Best(kind, key, init, s) == init
    ensures 0 <= k ==>
              && Best(kind, key, init, s) == s[k]
              && Beats(kind, key(s[k]), key(init))
              && forall m :: 0 <= m < k ==> Beats(kind, key(s[k]), key(s[m]))
    decreases |s|
  {
    if s == [] {
      k := -1;
    } else {
      var s' := s[..|s| - 1];
      var acc := Best(kind, key, init, s');
      var j := BestWitness(kind, key, init, s');
      BestBound(kind, key, init, s');
      if Beats(kind, key(s[|s| - 1]), key(acc)) {
        k := |s| - 1;
        forall m | 0 <= m < k
          ensures Beats(kind, key(s[k]), key(s[m]))
        {
          assert s[m] == s'[m];
        }
      } else {
        k := j;
        if 0 <= k {
          assert s[k] == s'[k];
          forall m | 0 <= m < k
            ensures Beats(kind, key(s[k]), key(s[m]))
          {
            assert s[m] == s'[m];
          }
        }
      }
    }
  }

  /** The sum of `key` over `s`, accumulated left to right. */
  function SumOf<T>(key: T -> real, s: seq<T>): real
    decreases |s|
  {
    if s == [] then 0.0 else SumOf(key, s[..|s| - 1]) + key(s[|s| - 1])
  }

  lemma SumOfSnoc<T>(key: T -> real, s: seq<T>, v: T)
    ensures SumOf(key, s + [v]) == SumOf(key, s) + key(v)
  {
    assert (s + [v])[..|s + [v]| - 1] == s;
  }

  /** A sum of values that all lie in `[lo, hi]` lies in `[n*lo, n*hi]`. */
  lemma {:induction false} SumWithin<T>(key: T -> real, s: seq<T>, lo: real, hi: real)
    requires forall k :: 0 <= k < |s| ==> lo <= key(s[k]) <= hi
    ensures (|s| as real) * lo <= SumOf(key, s) <= (|s| as real) * hi
    decreases |s|
  {
    if s != [] {
      var s' := s[..|s| - 1];
      forall k | 0 <= k < |s'| ensures lo <= key(s'[k]) <= hi {
        assert s'[k] == s[k];
      }
      SumWithin(key, s', lo, hi);
      assert (|s| as real) * lo == (|s'| as real) * lo + lo;
      assert (|s| as real) * hi == (|s'| as real) * hi + hi;
    }
  }

  /** Hence the mean of a non-empty such sequence also lies in `[lo, hi]`. */
  lemma MeanWithin<T>(key: T -> real, s: seq<T>, lo: real, hi: real)
    requires |s| > 0
    requires forall k :: 0 <= k < |s| ==> lo <= key(s[k]) <= hi
    ensures lo <= SumOf(key, s) / (|s| as real) <= hi
  {
    SumWithin(key, s, lo, hi);
    var n := |s| as real;
    var m := SumOf(key, s) / n;
    assert m * n == SumOf(key, s);
    NonNegativeFactor(m - lo, n);
    NonNegativeFactor(hi - m, n);
  }

  lemma NonNegativeFactor(a: real, n: real)
    requires n > 0.0 && a * n >= 0.0
    ensures a >= 0.0
  {
  }
}
