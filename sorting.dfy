/**
  Sorting descending by a numeric key, stably, as
  `array.sort((a, b) => b.count - a.count)` does in a JavaScript engine whose
  sort is stable (ECMAScript 2019 onwards): elements with equal keys keep
  the order they had before the sort. The model is an insertion sort.
 */
module Sorting {
  import Grouping

  /** Keys never increase from left to right. */
  predicate SortedDesc<T>(s: seq<T>, key: T -> int) {
    forall i, j :: 0 <= i < j < |s| ==> key(s[i]) >= key(s[j])
  }

  /**
    Among elements with equal keys, rank increases from left to right.
    When rank is an element's position in some earlier sequence, this is
    "ties keep their earlier order".
   */
  predicate TiesInRankOrder<T>(s: seq<T>, key: T -> int, rank: T -> int) {
    forall i, j :: 0 <= i < j < |s| && key(s[i]) == key(s[j]) ==> rank(s[i]) < rank(s[j])
  }

  /** Inserts x in front of the first element whose key is not above x's. */
  function InsertBefore<T>(x: T, s: seq<T>, key: T -> int): (r: seq<T>)
    ensures multiset(r) == multiset(s) + multiset{x}
  {
    if s == [] || key(x) >= key(s[0]) then [x] + s
    else
      assert s == [s[0]] + s[1..];
      [s[0]] + InsertBefore(x, s[1..], key)
  }

  /** Stable sort, descending by key. */
  function SortByKeyDesc<T>(s: seq<T>, key: T -> int): (r: seq<T>)
    ensures multiset(r) == multiset(s)
    ensures |r| == |s|
  {
    if s == [] then []
    else
      assert s == [s[0]] + s[1..];
      InsertBefore(s[0], SortByKeyDesc(s[1..], key), key)
  }

  /** The first n elements, or all of them when there are fewer (JavaScript's `slice(0, n)`). */
  function Take<T>(s: seq<T>, n: nat): (r: seq<T>)
    ensures |r| == (if |s| < n then |s| else n)
    ensures r == s[..|r|]
  {
    if |s| <= n then s else s[..n]
  }

  /** Sum of the keys. */
  function Sum<T>(s: seq<T>, key: T -> int): int {
    if s == [] then 0 else key(s[0]) + Sum(s[1..], key)
  }

  lemma {:induction false} SumAppend<T>(s: seq<T>, t: seq<T>, key: T -> int)
    ensures Sum(s + t, key) == Sum(s, key) + Sum(t, key)
  {
    if s == [] {
      assert s + t == t;
    } else {
      assert (s + t)[1..] == s[1..] + t;
      SumAppend(s[1..], t, key);
    }
  }

  lemma {:induction false} InsertBeforeSorted<T>(x: T, s: seq<T>, key: T -> int)
    requires SortedDesc(s, key)
    ensures SortedDesc(InsertBefore(x, s, key), key)
  {
    if s != [] && key(x) < key(s[0]) {
      InsertBeforeSorted(x, s[1..], key);
      var rest := InsertBefore(x, s[1..], key);
      forall z | z in rest ensures key(z) <= key(s[0]) {
        assert z in multiset(rest);
      }
    }
  }

  lemma {:induction false} InsertBeforeKeepsTies<T>(x: T, s: seq<T>, key: T -> int, rank: T -> int)
    requires SortedDesc(s, key) && TiesInRankOrder(s, key, rank)
    requires forall y :: y in s && key(y) == key(x) ==> rank(x) < rank(y)
    ensures TiesInRankOrder(InsertBefore(x, s, key), key, rank)
  {
    if s != [] && key(x) < key(s[0]) {
      InsertBeforeKeepsTies(x, s[1..], key, rank);
      var rest := InsertBefore(x, s[1..], key);
      var r := [s[0]] + rest;
      forall i, j | 0 <= i < j < |r| && key(r[i]) == key(r[j]) ensures rank(r[i]) < rank(r[j]) {
        if i == 0 {
          assert r[j] in multiset(rest);
          assert r[j] == x || r[j] in s[1..];
          if r[j] != x {
            var k :| 0 <= k < |s[1..]| && s[1..][k] == r[j];
            assert s[k + 1] == r[j];
          }
        }
      }
    }
  }

  lemma {:induction false} InsertBeforeSum<T>(x: T, s: seq<T>, key: T -> int)
    ensures Sum(InsertBefore(x, s, key), key) == key(x) + Sum(s, key)
  {
    if s == [] || key(x) >= key(s[0]) {
      assert ([x] + s)[1..] == s;
    } else {
      InsertBeforeSum(x, s[1..], key);
      assert ([s[0]] + InsertBefore(x, s[1..], key))[1..] == InsertBefore(x, s[1..], key);
    }
  }

  /** The sort orders by non-increasing key. */
  lemma {:induction false} SortIsSorted<T>(s: seq<T>, key: T -> int)
    ensures SortedDesc(SortByKeyDesc(s, key), key)
  {
    if s != [] {
      SortIsSorted(s[1..], key);
      InsertBeforeSorted(s[0], SortByKeyDesc(s[1..], key), key);
    }
  }

  /** The sort is stable: ties that were in rank order stay in rank order. */
  lemma {:induction false} SortKeepsTies<T>(s: seq<T>, key: T -> int, rank: T -> int)
    requires TiesInRankOrder(s, key, rank)
    ensures TiesInRankOrder(SortByKeyDesc(s, key), key, rank)
  {
    if s != [] {
      var tail := SortByKeyDesc(s[1..], key);
      assert TiesInRankOrder(s[1..], key, rank) by {
        forall i, j | 0 <= i < j < |s[1..]| && key(s[1..][i]) == key(s[1..][j])
          ensures rank(s[1..][i]) < rank(s[1..][j])
        {
          assert s[1..][i] == s[i + 1] && s[1..][j] == s[j + 1];
        }
      }
      SortKeepsTies(s[1..], key, rank);
      SortIsSorted(s[1..], key);
      forall y | y in tail && key(y) == key(s[0]) ensures rank(s[0]) < rank(y) {
        assert y in multiset(tail);
        var k :| 0 <= k < |s[1..]| && s[1..][k] == y;
        assert s[k + 1] == y;
      }
      InsertBeforeKeepsTies(s[0], tail, key, rank);
    }
  }

  /** Sorting does not change the sum of the keys. */
  lemma {:induction false} SortKeepsSum<T>(s: seq<T>, key: T -> int)
    ensures Sum(SortByKeyDesc(s, key), key) == Sum(s, key)
  {
    if s != [] {
      SortKeepsSum(s[1..], key);
      InsertBeforeSum(s[0], SortByKeyDesc(s[1..], key), key);
    }
  }

  /** An element at two positions occurs at least twice. */
  lemma TwiceInMultiset<T>(t: seq<T>, i: nat, j: nat)
    requires i < j < |t| && t[i] == t[j]
    ensures multiset(t)[t[i]] >= 2
  {
    assert t == t[..j] + t[j..];
    assert t[i] == t[..j][i];
    assert t[j] == t[j..][0];
  }

  /** In a sequence without repetitions every element occurs at most once. */
  lemma {:induction false} OnceInMultiset<T>(s: seq<T>, x: T)
    requires Grouping.NoDuplicates(s)
    ensures multiset(s)[x] <= 1
  {
    if s != [] {
      var prefix, last := s[..|s| - 1], s[|s| - 1];
      assert s == prefix + [last];
      OnceInMultiset(prefix, x);
      if last == x {
        assert x !in prefix;
      }
    }
  }

  /** Reordering keeps elements with pairwise different names pairwise different. */
  lemma PermutationKeepsNamesDistinct<T, K>(s: seq<T>, t: seq<T>, name: T -> K)
    requires multiset(s) == multiset(t)
    requires forall i, j :: 0 <= i < j < |s| ==> name(s[i]) != name(s[j])
    ensures forall i, j :: 0 <= i < j < |t| ==> name(t[i]) != name(t[j])
  {
    forall i, j | 0 <= i < j < |t| ensures name(t[i]) != name(t[j]) {
      assert t[i] in multiset(s) && t[j] in multiset(s);
      var a :| 0 <= a < |s| && s[a] == t[i];
      var b :| 0 <= b < |s| && s[b] == t[j];
      if name(t[i]) == name(t[j]) {
        assert a == b;
        TwiceInMultiset(t, i, j);
        OnceInMultiset(s, t[i]);
      }
    }
  }

  /** Every element of a reordering is an element of the original. */
  lemma PermutedMembers<T>(s: seq<T>, t: seq<T>)
    requires multiset(s) == multiset(t)
    ensures forall i :: 0 <= i < |t| ==> t[i] in s
  {
    forall i | 0 <= i < |t| ensures t[i] in s {
      assert t[i] in multiset(t);
    }
  }
}
