/** The stable sort of the student records by register number
    (`Array.prototype.sort` is stable), as an insertion sort on sequences. */
module RegisterSort {
  import opened LexOrder
  import opened Seqs

  /** Ascending by the string key. */
  predicate SortedBy<T>(s: seq<T>, key: T -> string) {
    forall i, j | 0 <= i < j < |s| :: LexLe(key(s[i]), key(s[j]))
  }

  /** Puts `x` in front of the first element that does not sort before it,
      so `x` lands ahead of the elements with an equal key. */
  function Insert<T>(x: T, s: seq<T>, key: T -> string): (r: seq<T>)
    ensures multiset(r) == multiset(s) + multiset{x}
  {
    if |s| == 0 then [x]
    else if LexLe(key(x), key(s[0])) then [x] + s
    else
      assert s == [s[0]] + s[1..];
      [s[0]] + Insert(x, s[1..], key)
  }

  function SortBy<T>(s: seq<T>, key: T -> string): (r: seq<T>)
    ensures multiset(r) == multiset(s)
  {
    if |s| == 0 then []
    else
      assert s == [s[0]] + s[1..];
      Insert(s[0], SortBy(s[1..], key), key)
  }

  lemma {:induction false} InsertSorted<T>(x: T, s: seq<T>, key: T -> string)
    requires SortedBy(s, key)
    ensures SortedBy(Insert(x, s, key), key)
  {
    if |s| > 0 && !LexLe(key(x), key(s[0])) {
      var t := Insert(x, s[1..], key);
      InsertSorted(x, s[1..], key);
      LexLeTotal(key(x), key(s[0]));
      forall j | 0 <= j < |t|
        ensures LexLe(key(s[0]), key(t[j]))
      {
        assert t[j] in multiset(t);
        if t[j] != x {
          assert t[j] in multiset(s[1..]);
          var m :| 0 <= m < |s[1..]| && s[1..][m] == t[j];
          assert s[m + 1] == t[j];
        }
      }
    } else if |s| > 0 {
      forall j | 0 < j < |s| + 1
        ensures LexLe(key(x), key(([x] + s)[j]))
      {
        if j > 1 {
          LexLeTransitive(key(x), key(s[0]), key(s[j - 1]));
        }
      }
    }
  }

  /** The sorted list is ascending by register number. */
  lemma {:induction false} SortBySorted<T>(s: seq<T>, key: T -> string)
    ensures SortedBy(SortBy(s, key), key)
  {
    if |s| > 0 {
      SortBySorted(s[1..], key);
      InsertSorted(s[0], SortBy(s[1..], key), key);
    }
  }

  lemma {:induction false} InsertStable<T>(x: T, s: seq<T>, key: T -> string, k: string)
    ensures FilterKey(Insert(x, s, key), key, k) == (if key(x) == k then [x] else []) + FilterKey(s, key, k)
  {
    var hx: seq<T> := if key(x) == k then [x] else [];
    if |s| == 0 {
      assert Insert(x, s, key) == [x];
      assert FilterKey([x], key, k) == hx + FilterKey([x][1..], key, k);
    } else if LexLe(key(x), key(s[0])) {
      assert Insert(x, s, key) == [x] + s;
      assert ([x] + s)[1..] == s;
      assert FilterKey([x] + s, key, k) == hx + FilterKey(s, key, k);
    } else {
      var t := Insert(x, s[1..], key);
      var h0: seq<T> := if key(s[0]) == k then [s[0]] else [];
      assert Insert(x, s, key) == [s[0]] + t;
      assert ([s[0]] + t)[1..] == t;
      assert FilterKey([s[0]] + t, key, k) == h0 + FilterKey(t, key, k);
      InsertStable(x, s[1..], key, k);
      assert FilterKey(s, key, k) == h0 + FilterKey(s[1..], key, k);
      LexLeReflexive(key(x));
      var rest := FilterKey(s[1..], key, k);
      assert h0 == [] || hx == [];
      SwapAroundEmpty(h0, hx, rest);
      calc {
        FilterKey(Insert(x, s, key), key, k);
        FilterKey([s[0]] + t, key, k);
        h0 + FilterKey(t, key, k);
        h0 + (hx + rest);
        hx + (h0 + rest);
        hx + FilterKey(s, key, k);
      }
    }
  }

  lemma {:induction false} SwapAroundEmpty<T>(a: seq<T>, b: seq<T>, rest: seq<T>)
    requires a == [] || b == []
    ensures a + (b + rest) == b + (a + rest)
  {
    if a == [] {
      assert a + (b + rest) == b + rest;
    } else {
      assert a + (b + rest) == a + rest;
    }
  }

  /** Records with the same register number keep their input order: for every
      key, the records carrying it appear in the sorted list exactly as in
      the input. */
  lemma {:induction false} SortByStable<T>(s: seq<T>, key: T -> string, k: string)
    ensures FilterKey(SortBy(s, key), key, k) == FilterKey(s, key, k)
  {
    if |s| > 0 {
      SortByStable(s[1..], key, k);
      InsertStable(s[0], SortBy(s[1..], key), key, k);
    }
  }

  /** Picking the elements with one key out of a sorted sequence leaves it sorted. */
  lemma {:induction false} FilterKeySorted<T, K>(s: seq<T>, key: T -> string, f: T -> K, k: K)
    requires SortedBy(s, key)
    ensures SortedBy(FilterKey(s, f, k), key)
  {
    if |s| > 0 {
      var tail := s[1..];
      assert SortedBy(tail, key) by {
        forall i, j | 0 <= i < j < |tail|
          ensures LexLe(key(tail[i]), key(tail[j]))
        {
          assert tail[i] == s[i + 1] && tail[j] == s[j + 1];
        }
      }
      FilterKeySorted(tail, key, f, k);
      var rest := FilterKey(tail, f, k);
      FilterKeyFrom(tail, f, k);
      var r := FilterKey(s, f, k);
      if f(s[0]) == k {
        assert r == [s[0]] + rest;
        forall i, j | 0 <= i < j < |r|
          ensures LexLe(key(r[i]), key(r[j]))
        {
          if i == 0 {
            assert r[j] == rest[j - 1] && rest[j - 1] in tail;
            var t :| 0 <= t < |tail| && tail[t] == r[j];
            assert s[t + 1] == r[j];
          } else {
            assert r[i] == rest[i - 1] && r[j] == rest[j - 1];
          }
        }
      } else {
        assert r == rest;
      }
    }
  }
}
