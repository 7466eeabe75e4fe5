/**
  Grouping a sequence of keys by exact equality: how often a key occurs,
  where it first occurs, and the distinct keys in order of first occurrence
  (the order in which a JavaScript Map that is filled from the sequence
  iterates its keys).
 */
module Grouping {

  predicate NoDuplicates<K(==)>(s: seq<K>) {
    forall i, j :: 0 <= i < j < |s| ==> s[i] != s[j]
  }

  /** Number of occurrences of k in xs. */
  function CountIn<K(==)>(xs: seq<K>, k: K): (n: nat)
    ensures n > 0 <==> k in xs
  {
    if xs == [] then 0
    else
      assert xs == xs[..|xs| - 1] + [xs[|xs| - 1]];
      CountIn(xs[..|xs| - 1], k) + (if xs[|xs| - 1] == k then 1 else 0)
  }

  /** The least index at which k occurs in xs. */
  function FirstIndex<K(==)>(xs: seq<K>, k: K): (i: nat)
    requires k in xs
    ensures i < |xs| && xs[i] == k
    ensures forall j :: 0 <= j < i ==> xs[j] != k
  {
    if xs[0] == k then 0 else 1 + FirstIndex(xs[1..], k)
  }

  /** The distinct keys of xs, each once, in order of first occurrence. */
  function Distinct<K(==)>(xs: seq<K>): (ks: seq<K>)
    ensures forall i :: 0 <= i < |ks| ==> ks[i] in xs
    ensures forall i :: 0 <= i < |xs| ==> xs[i] in ks
    ensures NoDuplicates(ks)
    ensures |ks| <= |xs|
  {
    if xs == [] then []
    else
      var prefix, last := xs[..|xs| - 1], xs[|xs| - 1];
      assert xs == prefix + [last];
      var ks := Distinct(prefix);
      if last in ks then ks else ks + [last]
  }

  /** The distinct keys are exactly the keys that occur. */
  lemma DistinctMembers<K>(xs: seq<K>, k: K)
    ensures k in Distinct(xs) <==> k in xs
  {
    var ks := Distinct(xs);
    if k in ks {
      var i :| 0 <= i < |ks| && ks[i] == k;
    }
    if k in xs {
      var i :| 0 <= i < |xs| && xs[i] == k;
    }
  }

  /** Sum, over the keys ks, of the number of occurrences of each in xs. */
  function SumCounts<K(==)>(ks: seq<K>, xs: seq<K>): nat {
    if ks == [] then 0
    else SumCounts(ks[..|ks| - 1], xs) + CountIn(xs, ks[|ks| - 1])
  }

  lemma CountInAppend<K>(xs: seq<K>, x: K, k: K)
    ensures CountIn(xs + [x], k) == CountIn(xs, k) + (if x == k then 1 else 0)
  {
    assert (xs + [x])[..|xs|] == xs;
  }

  lemma FirstIndexAppend<K>(xs: seq<K>, x: K, k: K)
    requires k in xs + [x]
    ensures FirstIndex(xs + [x], k) == if k in xs then FirstIndex(xs, k) else |xs|
  {
    var i := FirstIndex(xs + [x], k);
    if k in xs {
      var j := FirstIndex(xs, k);
      assert (xs + [x])[j] == k;
    } else {
      assert forall j :: 0 <= j < |xs| ==> (xs + [x])[j] == xs[j];
    }
  }

  lemma DistinctAppend<K>(xs: seq<K>, x: K)
    ensures Distinct(xs + [x]) == if x in xs then Distinct(xs) else Distinct(xs) + [x]
  {
    assert (xs + [x])[..|xs|] == xs;
  }

  /** In a sequence without repetitions a key occurs once or not at all. */
  lemma {:induction false} CountInNoDuplicates<K>(s: seq<K>, k: K)
    requires NoDuplicates(s)
    ensures CountIn(s, k) == if k in s then 1 else 0
  {
    if s != [] {
      var prefix, last := s[..|s| - 1], s[|s| - 1];
      assert s == prefix + [last];
      CountInNoDuplicates(prefix, k);
      if last == k {
        assert k !in prefix by {
          forall j | 0 <= j < |prefix| ensures prefix[j] != k {
            assert s[j] != s[|s| - 1];
          }
        }
      }
    }
  }

  /** A sequence without repetitions has as many elements as the set of its elements. */
  lemma {:induction false} CardinalityNoDuplicates<K>(s: seq<K>)
    requires NoDuplicates(s)
    ensures |set k | k in s| == |s|
  {
    if s != [] {
      var prefix, last := s[..|s| - 1], s[|s| - 1];
      assert s == prefix + [last];
      CardinalityNoDuplicates(prefix);
      assert (set k | k in s) == (set k | k in prefix) + {last};
      assert last !in (set k | k in prefix) by {
        forall j | 0 <= j < |prefix| ensures prefix[j] != last {
          assert s[j] != s[|s| - 1];
        }
      }
    }
  }

  /** The distinct keys are as many as the set of keys has elements. */
  lemma DistinctCardinality<K>(xs: seq<K>)
    ensures |Distinct(xs)| == |set k | k in xs|
  {
    CardinalityNoDuplicates(Distinct(xs));
    assert (set k | k in Distinct(xs)) == (set k | k in xs);
  }

  /** Of two distinct keys, the one that occurs first in xs comes first in Distinct(xs). */
  lemma {:induction false} DistinctFollowsFirstOccurrence<K>(xs: seq<K>, i: nat, j: nat)
    requires i < j < |Distinct(xs)|
    ensures FirstIndex(xs, Distinct(xs)[i]) < FirstIndex(xs, Distinct(xs)[j])
  {
    var prefix, last := xs[..|xs| - 1], xs[|xs| - 1];
    assert xs == prefix + [last];
    var ks := Distinct(prefix);
    var a, b := Distinct(xs)[i], Distinct(xs)[j];
    FirstIndexAppend(prefix, last, a);
    FirstIndexAppend(prefix, last, b);
    if last in ks || j < |ks| {
      assert Distinct(xs)[i] == ks[i] && Distinct(xs)[j] == ks[j];
      DistinctFollowsFirstOccurrence(prefix, i, j);
    } else {
      assert b == last && a in ks;
    }
  }

  lemma {:induction false} SumCountsAppendKey<K>(ks: seq<K>, xs: seq<K>, x: K)
    ensures SumCounts(ks, xs + [x]) == SumCounts(ks, xs) + CountIn(ks, x)
  {
    if ks != [] {
      var prefix, last := ks[..|ks| - 1], ks[|ks| - 1];
      SumCountsAppendKey(prefix, xs, x);
      CountInAppend(xs, x, last);
    }
  }

  /** Every element of xs is counted under exactly one of its distinct keys. */
  lemma {:induction false} DistinctCountsSumToLength<K>(xs: seq<K>)
    ensures SumCounts(Distinct(xs), xs) == |xs|
  {
    if xs != [] {
      var prefix, last := xs[..|xs| - 1], xs[|xs| - 1];
      assert xs == prefix + [last];
      var ks := Distinct(prefix);
      DistinctCountsSumToLength(prefix);
      DistinctAppend(prefix, last);
      SumCountsAppendKey(ks, prefix, last);
      CountInNoDuplicates(ks, last);
      if last !in ks {
        assert (ks + [last])[..|ks|] == ks;
        CountInAppend(prefix, last, last);
      }
    }
  }

  /** The positions at which k occurs in xs. */
  function Occurrences<K(==)>(xs: seq<K>, k: K): set<nat> {
    set j: nat | j < |xs| && xs[j] == k
  }

  /** CountIn counts the positions at which the key occurs. */
  lemma {:induction false} CountInIsOccurrences<K>(xs: seq<K>, k: K)
    ensures CountIn(xs, k) == |Occurrences(xs, k)|
  {
    if xs != [] {
      var prefix, last := xs[..|xs| - 1], xs[|xs| - 1];
      CountInIsOccurrences(prefix, k);
      var before := Occurrences(prefix, k);
      if last == k {
        assert Occurrences(xs, k) == before + {|prefix|};
      } else {
        assert Occurrences(xs, k) == before;
      }
    }
  }
}
