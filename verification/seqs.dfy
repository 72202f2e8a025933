/** Sequence helpers shared by the pipeline stages: selecting the elements
    with a given key, concatenating a sequence of sequences, and locating the
    first element with a given key. */
module Seqs {

  /** The elements of `s` whose key is `k`, in their order in `s`. */
  function FilterKey<T, K(==)>(s: seq<T>, key: T -> K, k: K): (r: seq<T>)
    ensures |r| <= |s|
    ensures forall i | 0 <= i < |r| :: key(r[i]) == k
  {
    if |s| == 0 then [] else (if key(s[0]) == k then [s[0]] else []) + FilterKey(s[1..], key, k)
  }

  /** Selecting by key only drops elements. */
  lemma {:induction false} FilterKeySubMultiset<T, K>(s: seq<T>, key: T -> K, k: K)
    ensures multiset(FilterKey(s, key, k)) <= multiset(s)
  {
    if |s| > 0 {
      assert s == [s[0]] + s[1..];
      FilterKeySubMultiset(s[1..], key, k);
    }
  }

  /** Selecting by key only keeps elements of the input. */
  lemma {:induction false} FilterKeyFrom<T, K>(s: seq<T>, key: T -> K, k: K)
    ensures forall i | 0 <= i < |FilterKey(s, key, k)| :: FilterKey(s, key, k)[i] in s
  {
    var r := FilterKey(s, key, k);
    FilterKeySubMultiset(s, key, k);
    forall i | 0 <= i < |r|
      ensures r[i] in s
    {
      assert r[i] in multiset(r);
    }
  }

  /** Selecting by key drops no element that carries the key. */
  lemma {:induction false} FilterKeyKeeps<T, K>(s: seq<T>, key: T -> K, k: K, j: nat)
    requires j < |s| && key(s[j]) == k
    ensures s[j] in FilterKey(s, key, k)
  {
    if j > 0 {
      FilterKeyKeeps(s[1..], key, k, j - 1);
    }
  }

  lemma {:induction false} FilterKeyAppend<T, K>(a: seq<T>, b: seq<T>, key: T -> K, k: K)
    ensures FilterKey(a + b, key, k) == FilterKey(a, key, k) + FilterKey(b, key, k)
  {
    if |a| == 0 {
      assert a + b == b;
    } else {
      assert (a + b)[1..] == a[1..] + b;
      FilterKeyAppend(a[1..], b, key, k);
    }
  }

  lemma {:induction false} FilterKeySingleton<T, K>(x: T, key: T -> K, k: K)
    ensures FilterKey([x], key, k) == if key(x) == k then [x] else []
  {
    assert FilterKey([x], key, k) == (if key(x) == k then [x] else []) + FilterKey([x][1..], key, k);
  }

  /** Selecting by key keeps every element when all of them carry that key. */
  lemma {:induction false} FilterKeyAll<T, K>(s: seq<T>, key: T -> K, k: K)
    requires forall i | 0 <= i < |s| :: key(s[i]) == k
    ensures FilterKey(s, key, k) == s
  {
    if |s| > 0 {
      FilterKeyAll(s[1..], key, k);
    }
  }

  /** Selecting by key keeps nothing when no element carries that key. */
  lemma {:induction false} FilterKeyNone<T, K>(s: seq<T>, key: T -> K, k: K)
    requires forall i | 0 <= i < |s| :: key(s[i]) != k
    ensures FilterKey(s, key, k) == []
  {
    if |s| > 0 {
      FilterKeyNone(s[1..], key, k);
    }
  }

  /** All the inner sequences, one after the other. */
  function Concat<T>(ss: seq<seq<T>>): seq<T>
  {
    if |ss| == 0 then [] else ss[0] + Concat(ss[1..])
  }

  /** Every part is contained in the concatenation. */
  lemma {:induction false} ConcatContains<T>(ss: seq<seq<T>>, i: nat)
    requires i < |ss|
    ensures multiset(ss[i]) <= multiset(Concat(ss))
  {
    if i > 0 {
      ConcatContains(ss[1..], i - 1);
    }
  }

  lemma {:induction false} ConcatAppend<T>(ss: seq<seq<T>>, t: seq<T>)
    ensures Concat(ss + [t]) == Concat(ss) + t
  {
    if |ss| == 0 {
      assert ss + [t] == [t];
      assert Concat([t]) == t + Concat([]);
    } else {
      assert (ss + [t])[1..] == ss[1..] + [t];
      ConcatAppend(ss[1..], t);
    }
  }

  lemma {:induction false} ConcatEmpties<T>(ss: seq<seq<T>>)
    requires forall i | 0 <= i < |ss| :: ss[i] == []
    ensures Concat(ss) == []
  {
    if |ss| > 0 {
      ConcatEmpties(ss[1..]);
    }
  }

  /** Trailing empty sequences add nothing to the concatenation. */
  lemma {:induction false} ConcatTrailingEmpties<T>(ss: seq<seq<T>>, n: nat)
    requires n <= |ss|
    requires forall i | n <= i < |ss| :: ss[i] == []
    ensures Concat(ss) == Concat(ss[..n])
  {
    if n == 0 {
      ConcatEmpties(ss);
    } else {
      ConcatTrailingEmpties(ss[1..], n - 1);
      assert ss[..n][1..] == ss[1..][..n - 1];
    }
  }

  /** Concatenating part by part smaller sequences gives a smaller whole. */
  lemma {:induction false} ConcatSubMultiset<T>(xs: seq<seq<T>>, ys: seq<seq<T>>)
    requires |xs| == |ys|
    requires forall t | 0 <= t < |xs| :: multiset(xs[t]) <= multiset(ys[t])
    ensures multiset(Concat(xs)) <= multiset(Concat(ys))
  {
    if |xs| > 0 {
      ConcatSubMultiset(xs[1..], ys[1..]);
    }
  }

  /** Concatenating part by part rearrangements gives a rearrangement. */
  lemma {:induction false} ConcatSameMultiset<T>(xs: seq<seq<T>>, ys: seq<seq<T>>)
    requires |xs| == |ys|
    requires forall t | 0 <= t < |xs| :: multiset(xs[t]) == multiset(ys[t])
    ensures multiset(Concat(xs)) == multiset(Concat(ys))
  {
    if |xs| > 0 {
      ConcatSameMultiset(xs[1..], ys[1..]);
    }
  }

  /** The first `n` parts are part of the whole. */
  lemma {:induction false} ConcatPrefixSubMultiset<T>(ss: seq<seq<T>>, n: nat)
    requires n <= |ss|
    ensures multiset(Concat(ss[..n])) <= multiset(Concat(ss))
  {
    if n > 0 {
      ConcatPrefixSubMultiset(ss[1..], n - 1);
      assert ss[..n][1..] == ss[1..][..n - 1];
    }
  }

  /** Prepending `x` to one inner sequence adds `x` once to the concatenation. */
  lemma {:induction false} ConcatPrependAt<T>(ss: seq<seq<T>>, ts: seq<seq<T>>, j: nat, x: T)
    requires |ts| == |ss| && j < |ss|
    requires ts[j] == [x] + ss[j]
    requires forall i | 0 <= i < |ss| && i != j :: ts[i] == ss[i]
    ensures multiset(Concat(ts)) == multiset(Concat(ss)) + multiset{x}
  {
    if j > 0 {
      ConcatPrependAt(ss[1..], ts[1..], j - 1, x);
    } else {
      assert ts[1..] == ss[1..];
    }
  }

  /** The elements of `s` split by key: one sequence per key of `ks`. */
  function Partition<T, K(==)>(s: seq<T>, key: T -> K, ks: seq<K>): (ps: seq<seq<T>>)
    ensures |ps| == |ks|
  {
    seq(|ks|, i requires 0 <= i < |ks| => FilterKey(s, key, ks[i]))
  }

  /** When every key of `s` is listed once in `ks`, splitting `s` by key
      loses nothing and duplicates nothing. */
  lemma {:induction false} PartitionMultiset<T, K>(s: seq<T>, key: T -> K, ks: seq<K>)
    requires Distinct(ks)
    requires forall i | 0 <= i < |s| :: key(s[i]) in ks
    ensures multiset(Concat(Partition(s, key, ks))) == multiset(s)
  {
    var ps := Partition(s, key, ks);
    if |s| == 0 {
      ConcatEmpties(ps);
    } else {
      var x, t := s[0], s[1..];
      assert s == [x] + t;
      PartitionMultiset(t, key, ks);
      var j :| 0 <= j < |ks| && ks[j] == key(x);
      var qs := Partition(t, key, ks);
      forall i | 0 <= i < |ks|
        ensures ps[i] == (if i == j then [x] else []) + qs[i]
      {
        assert ps[i] == (if key(x) == ks[i] then [x] else []) + FilterKey(t, key, ks[i]);
      }
      ConcatPrependAt(qs, ps, j, x);
    }
  }

  /** Index of the first element of `s` whose key is `k`; `|s|` when there is none. */
  function FirstIndex<T, K(==)>(s: seq<T>, key: T -> K, k: K): (r: nat)
    ensures r <= |s|
    ensures r < |s| ==> key(s[r]) == k
    ensures forall i | 0 <= i < r :: key(s[i]) != k
  {
    if |s| == 0 then 0
    else if key(s[0]) == k then 0
    else 1 + FirstIndex(s[1..], key, k)
  }

  /** Appending an element never moves an existing first occurrence; a key
      first seen in the appended element is found at the old length. */
  lemma {:induction false} FirstIndexAppend<T, K>(s: seq<T>, x: T, key: T -> K, k: K)
    ensures FirstIndex(s + [x], key, k) ==
      if FirstIndex(s, key, k) < |s| then FirstIndex(s, key, k)
      else if key(x) == k then |s| else |s| + 1
  {
    if |s| > 0 {
      assert (s + [x])[1..] == s[1..] + [x];
      FirstIndexAppend(s[1..], x, key, k);
    } else {
      assert s + [x] == [x];
    }
  }

  /** A key that no element carries is looked up past the end. */
  lemma {:induction false} FirstIndexNone<T, K>(s: seq<T>, key: T -> K, k: K)
    requires forall j | 0 <= j < |s| :: key(s[j]) != k
    ensures FirstIndex(s, key, k) == |s|
  {
  }

  /** A key that some element carries is found before the end. */
  lemma {:induction false} FirstIndexFound<T, K>(s: seq<T>, key: T -> K, k: K, j: nat)
    requires j < |s| && key(s[j]) == k
    ensures FirstIndex(s, key, k) <= j
  {
  }

  /** No two positions hold the same element. */
  predicate Distinct<T(==)>(s: seq<T>) {
    forall i, j | 0 <= i < j < |s| :: s[i] != s[j]
  }
}
