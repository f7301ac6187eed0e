/**
 * Generic facts about sequences: regrouping concatenations, and the
 * concatenation of per-key blocks over a list of keys, which is how the
 * writes of a sequence of tiles are laid end to end.
 */
module Sequences {

  /** Appending to a concatenation regroups freely. */
  lemma AppendAssoc<T>(a: seq<T>, b: seq<T>, c: seq<T>)
    ensures a + (b + c) == a + b + c
  {
  }

  /** An element of either part is an element of the concatenation. */
  lemma InAppend<T>(x: T, a: seq<T>, b: seq<T>)
    ensures x in a ==> x in a + b
    ensures x in b ==> x in a + b
  {
  }

  /** The blocks `f(ks[0])`, `f(ks[1])`, ..., laid end to end. */
  function Flatten<K, T>(f: K -> seq<T>, ks: seq<K>): seq<T>
    decreases |ks|
  {
    if ks == [] then [] else Flatten(f, ks[..|ks| - 1]) + f(ks[|ks| - 1])
  }

  /** Flattening two key lists one after the other is flattening their concatenation. */
  lemma {:induction false} FlattenAppend<K, T>(f: K -> seq<T>, a: seq<K>, b: seq<K>)
    ensures Flatten(f, a + b) == Flatten(f, a) + Flatten(f, b)
    decreases |b|
  {
    if b == [] {
      assert a + b == a;
    } else {
      var b' := b[..|b| - 1];
      FlattenAppend(f, a, b');
      assert (a + b)[..|a + b| - 1] == a + b' && (a + b)[|a + b| - 1] == b[|b| - 1];
      AppendAssoc(Flatten(f, a), Flatten(f, b'), f(b[|b| - 1]));
    }
  }

  /** Every element of the flattening is an element of the block of some key. */
  lemma {:induction false} FlattenSource<K, T>(f: K -> seq<T>, ks: seq<K>, i: int) returns (n: int, m: int)
    requires 0 <= i < |Flatten(f, ks)|
    ensures 0 <= n < |ks| && 0 <= m < |f(ks[n])|
    ensures Flatten(f, ks)[i] == f(ks[n])[m]
    decreases |ks|
  {
    var ks' := ks[..|ks| - 1];
    var prev := Flatten(f, ks');
    if i < |prev| {
      n, m := FlattenSource(f, ks', i);
      assert ks[n] == ks'[n];
    } else {
      n, m := |ks| - 1, i - |prev|;
    }
  }

  /** Conversely, every element of the block of every key is in the flattening. */
  lemma {:induction false} FlattenHit<K, T>(f: K -> seq<T>, ks: seq<K>, n: int, m: int) returns (i: int)
    requires 0 <= n < |ks| && 0 <= m < |f(ks[n])|
    ensures 0 <= i < |Flatten(f, ks)| && Flatten(f, ks)[i] == f(ks[n])[m]
    decreases |ks|
  {
    var ks' := ks[..|ks| - 1];
    var prev := Flatten(f, ks');
    if n < |ks| - 1 {
      assert ks[n] == ks'[n];
      i := FlattenHit(f, ks', n, m);
      assert (prev + f(ks[|ks| - 1]))[i] == prev[i];
    } else {
      i := |prev| + m;
    }
  }

  /** A sequence without repeated elements has exactly as many elements as its set. */
  lemma {:induction false} DistinctCardinality<T>(s: seq<T>)
    requires forall a, b :: 0 <= a < b < |s| ==> s[a] != s[b]
    ensures |set x | x in s| == |s|
    decreases |s|
  {
    if s != [] {
      var s' := s[..|s| - 1];
      var last := s[|s| - 1];
      DistinctCardinality(s');
      assert last !in s';
      assert (set x | x in s) == (set x | x in s') + {last} by {
        assert s == s' + [last];
      }
    }
  }
}
