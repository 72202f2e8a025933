/** Partitioning a sequence by a key into an insertion-ordered association
    list, as the upload handler does twice: by `examDate-session`, then, inside
    each of those groups, by department. A key gets its group the first time
    it is met; later elements are appended to that group. */
module Grouping {
  import opened Seqs

  datatype Group<K, T> = Group(key: K, members: seq<T>)

  /** Position of the group for key `k`; `|gs|` when there is none yet. */
  function KeyIndex<K(==), T>(gs: seq<Group<K, T>>, k: K): (r: nat)
    ensures r <= |gs|
    ensures r < |gs| ==> gs[r].key == k
    ensures forall i | 0 <= i < r :: gs[i].key != k
  {
    if |gs| == 0 then 0
    else if gs[0].key == k then 0
    else 1 + KeyIndex(gs[1..], k)
  }

  /** A key no group carries is looked up past the end. */
  lemma {:induction false} KeyIndexAbsent<K, T>(gs: seq<Group<K, T>>, k: K)
    requires k !in Keys(gs)
    ensures KeyIndex(gs, k) == |gs|
  {
    assert forall t | 0 <= t < |gs| :: Keys(gs)[t] != k;
  }

  /** One step of the grouping loop: append `x` to the group of its key,
      opening that group at the end if the key is new. */
  function Push<T, K(==)>(gs: seq<Group<K, T>>, x: T, key: T -> K): seq<Group<K, T>>
  {
    var i := KeyIndex(gs, key(x));
    if i < |gs| then gs[i := Group(gs[i].key, gs[i].members + [x])]
    else gs + [Group(key(x), [x])]
  }

  function GroupBy<T, K(==)>(s: seq<T>, key: T -> K): seq<Group<K, T>>
  {
    if |s| == 0 then [] else Push(GroupBy(s[..|s| - 1], key), s[|s| - 1], key)
  }

  function Keys<K, T>(gs: seq<Group<K, T>>): (ks: seq<K>)
    ensures |ks| == |gs|
    ensures forall i | 0 <= i < |gs| :: ks[i] == gs[i].key
  {
    seq(|gs|, i requires 0 <= i < |gs| => gs[i].key)
  }

  function MembersOf<K, T>(gs: seq<Group<K, T>>): (ms: seq<seq<T>>)
    ensures |ms| == |gs|
    ensures forall i | 0 <= i < |gs| :: ms[i] == gs[i].members
  {
    seq(|gs|, i requires 0 <= i < |gs| => gs[i].members)
  }

  /** `gs` partitions `s` by `key`: distinct keys, each group holds exactly the
      elements of `s` with its key in their order in `s`, every element has a
      group, and groups appear in the order their keys are first met. */
  ghost predicate IsGroupingOf<T, K>(s: seq<T>, key: T -> K, gs: seq<Group<K, T>>) {
    && KeysDistinct(gs)
    && MembersByKey(s, key, gs)
    && NoEmptyGroup(gs)
    && CoversAll(s, key, gs)
    && FirstSeenOrder(s, key, gs)
  }

  ghost predicate KeysDistinct<K, T>(gs: seq<Group<K, T>>) {
    forall i, j | 0 <= i < j < |gs| :: gs[i].key != gs[j].key
  }

  ghost predicate MembersByKey<T, K>(s: seq<T>, key: T -> K, gs: seq<Group<K, T>>) {
    forall i | 0 <= i < |gs| :: gs[i].members == FilterKey(s, key, gs[i].key)
  }

  predicate NoEmptyGroup<K, T>(gs: seq<Group<K, T>>) {
    forall i | 0 <= i < |gs| :: |gs[i].members| > 0
  }

  ghost predicate CoversAll<T, K>(s: seq<T>, key: T -> K, gs: seq<Group<K, T>>) {
    forall j | 0 <= j < |s| :: KeyIndex(gs, key(s[j])) < |gs|
  }

  ghost predicate FirstSeenOrder<T, K>(s: seq<T>, key: T -> K, gs: seq<Group<K, T>>) {
    forall i, j | 0 <= i < j < |gs| :: FirstIndex(s, key, gs[i].key) < FirstIndex(s, key, gs[j].key)
  }

  lemma {:induction false} FilterNonEmptyFound<T, K>(s: seq<T>, key: T -> K, k: K)
    requires |FilterKey(s, key, k)| > 0
    ensures FirstIndex(s, key, k) < |s|
  {
    var f := FilterKey(s, key, k);
    FilterKeySubMultiset(s, key, k);
    assert f[0] in multiset(s);
    var j :| 0 <= j < |s| && s[j] == f[0];
    FirstIndexFound(s, key, k, j);
  }

  lemma {:induction false} FilterKeyStep<T, K>(p: seq<T>, x: T, key: T -> K, k: K)
    ensures FilterKey(p + [x], key, k) == FilterKey(p, key, k) + (if key(x) == k then [x] else [])
  {
    FilterKeyAppend(p, [x], key, k);
    assert FilterKey([x], key, k) == (if key(x) == k then [x] else []) + FilterKey([x][1..], key, k);
  }

  /** The keys already grouped were all first met inside `p`. */
  lemma {:induction false} GroupKeysSeen<T, K>(p: seq<T>, key: T -> K, gs: seq<Group<K, T>>)
    requires IsGroupingOf(p, key, gs)
    ensures forall i | 0 <= i < |gs| :: FirstIndex(p, key, gs[i].key) < |p|
  {
    forall i | 0 <= i < |gs|
      ensures FirstIndex(p, key, gs[i].key) < |p|
    {
      FilterNonEmptyFound(p, key, gs[i].key);
    }
  }

  lemma {:induction false} PushExistingMembers<T, K>(p: seq<T>, x: T, key: T -> K, gs: seq<Group<K, T>>)
    requires IsGroupingOf(p, key, gs)
    requires KeyIndex(gs, key(x)) < |gs|
    ensures MembersByKey(p + [x], key, Push(gs, x, key))
  {
    var n := KeyIndex(gs, key(x));
    var gs' := Push(gs, x, key);
    assert gs' == gs[n := Group(gs[n].key, gs[n].members + [x])];
    forall i | 0 <= i < |gs'|
      ensures gs'[i].members == FilterKey(p + [x], key, gs'[i].key)
    {
      FilterKeyStep(p, x, key, gs[i].key);
    }
  }

  lemma {:induction false} PushExistingOrder<T, K>(p: seq<T>, x: T, key: T -> K, gs: seq<Group<K, T>>)
    requires IsGroupingOf(p, key, gs)
    requires KeyIndex(gs, key(x)) < |gs|
    ensures var gs' := Push(gs, x, key);
            && |gs'| == |gs|
            && (forall i | 0 <= i < |gs'| :: gs'[i].key == gs[i].key
                 && FirstIndex(p + [x], key, gs'[i].key) == FirstIndex(p, key, gs[i].key))
  {
    var n := KeyIndex(gs, key(x));
    var gs' := Push(gs, x, key);
    assert gs' == gs[n := Group(gs[n].key, gs[n].members + [x])];
    GroupKeysSeen(p, key, gs);
    forall i | 0 <= i < |gs'|
      ensures FirstIndex(p + [x], key, gs'[i].key) == FirstIndex(p, key, gs[i].key)
    {
      FirstIndexAppend(p, x, key, gs[i].key);
    }
  }

  lemma {:induction false} PushExistingCovers<T, K>(p: seq<T>, x: T, key: T -> K, gs: seq<Group<K, T>>)
    requires IsGroupingOf(p, key, gs)
    requires KeyIndex(gs, key(x)) < |gs|
    ensures CoversAll(p + [x], key, Push(gs, x, key))
  {
    var s, n := p + [x], KeyIndex(gs, key(x));
    var gs' := Push(gs, x, key);
    assert gs' == gs[n := Group(gs[n].key, gs[n].members + [x])];
    forall j | 0 <= j < |s|
      ensures KeyIndex(gs', key(s[j])) < |gs'|
    {
      if j < |p| {
        assert s[j] == p[j];
        var m := KeyIndex(gs, key(p[j]));
        assert gs'[m].key == key(s[j]);
      } else {
        assert gs'[n].key == key(s[j]);
      }
    }
  }

  lemma {:induction false} PushExistingKeys<T, K>(p: seq<T>, x: T, key: T -> K, gs: seq<Group<K, T>>)
    requires IsGroupingOf(p, key, gs)
    requires KeyIndex(gs, key(x)) < |gs|
    ensures KeysDistinct(Push(gs, x, key)) && FirstSeenOrder(p + [x], key, Push(gs, x, key))
  {
    var gs' := Push(gs, x, key);
    PushExistingOrder(p, x, key, gs);
    forall i, j | 0 <= i < j < |gs'|
      ensures gs'[i].key != gs'[j].key
      ensures FirstIndex(p + [x], key, gs'[i].key) < FirstIndex(p + [x], key, gs'[j].key)
    {
      assert gs'[i].key == gs[i].key && gs'[j].key == gs[j].key;
      assert FirstIndex(p, key, gs[i].key) < FirstIndex(p, key, gs[j].key);
    }
  }

  lemma {:induction false} PushExistingNonEmpty<T, K>(gs: seq<Group<K, T>>, x: T, key: T -> K)
    requires NoEmptyGroup(gs)
    requires KeyIndex(gs, key(x)) < |gs|
    ensures NoEmptyGroup(Push(gs, x, key))
  {
    var n := KeyIndex(gs, key(x));
    assert Push(gs, x, key) == gs[n := Group(gs[n].key, gs[n].members + [x])];
  }

  lemma {:induction false} PushExisting<T, K>(p: seq<T>, x: T, key: T -> K, gs: seq<Group<K, T>>)
    requires IsGroupingOf(p, key, gs)
    requires KeyIndex(gs, key(x)) < |gs|
    ensures IsGroupingOf(p + [x], key, Push(gs, x, key))
  {
    PushExistingMembers(p, x, key, gs);
    PushExistingKeys(p, x, key, gs);
    PushExistingCovers(p, x, key, gs);
    PushExistingNonEmpty(gs, x, key);
  }

  /** The key of a new element is not among the grouped keys. */
  lemma {:induction false} NewKeyUnseen<T, K>(p: seq<T>, x: T, key: T -> K, gs: seq<Group<K, T>>)
    requires IsGroupingOf(p, key, gs)
    requires KeyIndex(gs, key(x)) == |gs|
    ensures forall j | 0 <= j < |p| :: key(p[j]) != key(x)
    ensures forall i | 0 <= i < |gs| :: gs[i].key != key(x)
  {
    forall j | 0 <= j < |p|
      ensures key(p[j]) != key(x)
    {
      var m := KeyIndex(gs, key(p[j]));
      assert gs[m].key == key(p[j]);
    }
  }

  lemma {:induction false} PushNewMembers<T, K>(p: seq<T>, x: T, key: T -> K, gs: seq<Group<K, T>>)
    requires IsGroupingOf(p, key, gs)
    requires KeyIndex(gs, key(x)) == |gs|
    ensures MembersByKey(p + [x], key, Push(gs, x, key))
  {
    var gs' := Push(gs, x, key);
    assert gs' == gs + [Group(key(x), [x])];
    NewKeyUnseen(p, x, key, gs);
    FilterKeyNone(p, key, key(x));
    forall i | 0 <= i < |gs'|
      ensures gs'[i].members == FilterKey(p + [x], key, gs'[i].key)
    {
      FilterKeyStep(p, x, key, gs'[i].key);
      if i < |gs| {
        assert gs'[i] == gs[i] && gs[i].key != key(x);
      }
    }
  }

  lemma {:induction false} PushNewDistinct<T, K>(p: seq<T>, x: T, key: T -> K, gs: seq<Group<K, T>>)
    requires IsGroupingOf(p, key, gs)
    requires KeyIndex(gs, key(x)) == |gs|
    ensures KeysDistinct(Push(gs, x, key)) && NoEmptyGroup(Push(gs, x, key))
  {
    var gs' := Push(gs, x, key);
    assert gs' == gs + [Group(key(x), [x])];
    NewKeyUnseen(p, x, key, gs);
  }

  lemma {:induction false} PushNewOrder<T, K>(p: seq<T>, x: T, key: T -> K, gs: seq<Group<K, T>>)
    requires IsGroupingOf(p, key, gs)
    requires KeyIndex(gs, key(x)) == |gs|
    ensures FirstSeenOrder(p + [x], key, Push(gs, x, key))
  {
    var s := p + [x];
    var gs' := Push(gs, x, key);
    assert gs' == gs + [Group(key(x), [x])];
    GroupKeysSeen(p, key, gs);
    NewKeyUnseen(p, x, key, gs);
    FirstIndexNone(p, key, key(x));
    FirstIndexAppend(p, x, key, key(x));
    assert FirstIndex(s, key, gs'[|gs|].key) == |p|;
    forall i | 0 <= i < |gs|
      ensures FirstIndex(s, key, gs'[i].key) == FirstIndex(p, key, gs[i].key) < |p|
    {
      FirstIndexAppend(p, x, key, gs[i].key);
    }
    forall i, j | 0 <= i < j < |gs'|
      ensures FirstIndex(s, key, gs'[i].key) < FirstIndex(s, key, gs'[j].key)
    {
      if j < |gs| {
        assert FirstIndex(p, key, gs[i].key) < FirstIndex(p, key, gs[j].key);
      }
    }
  }

  lemma {:induction false} PushNewCovers<T, K>(p: seq<T>, x: T, key: T -> K, gs: seq<Group<K, T>>)
    requires IsGroupingOf(p, key, gs)
    requires KeyIndex(gs, key(x)) == |gs|
    ensures CoversAll(p + [x], key, Push(gs, x, key))
  {
    var s := p + [x];
    var gs' := Push(gs, x, key);
    assert gs' == gs + [Group(key(x), [x])];
    forall j | 0 <= j < |s|
      ensures KeyIndex(gs', key(s[j])) < |gs'|
    {
      if j < |p| {
        assert s[j] == p[j];
        var m := KeyIndex(gs, key(p[j]));
        assert gs'[m].key == key(s[j]);
      } else {
        assert gs'[|gs|].key == key(s[j]);
      }
    }
  }

  lemma {:induction false} PushNew<T, K>(p: seq<T>, x: T, key: T -> K, gs: seq<Group<K, T>>)
    requires IsGroupingOf(p, key, gs)
    requires KeyIndex(gs, key(x)) == |gs|
    ensures IsGroupingOf(p + [x], key, Push(gs, x, key))
  {
    PushNewMembers(p, x, key, gs);
    PushNewDistinct(p, x, key, gs);
    PushNewOrder(p, x, key, gs);
    PushNewCovers(p, x, key, gs);
  }

  /** The grouping loop produces a partition of its input by key, in
      first-seen key order. */
  lemma {:induction false} GroupByIsGrouping<T, K>(s: seq<T>, key: T -> K)
    ensures IsGroupingOf(s, key, GroupBy(s, key))
  {
    if |s| > 0 {
      var p, x := s[..|s| - 1], s[|s| - 1];
      assert s == p + [x];
      GroupByIsGrouping(p, key);
      if KeyIndex(GroupBy(p, key), key(x)) < |GroupBy(p, key)| {
        PushExisting(p, x, key, GroupBy(p, key));
      } else {
        PushNew(p, x, key, GroupBy(p, key));
      }
    }
  }

  /** What callers need of a grouping: distinct keys, every member carries
      its group's key, and every element's key has a group. */
  lemma {:induction false} GroupByKeys<T, K>(s: seq<T>, key: T -> K)
    ensures IsGroupingOf(s, key, GroupBy(s, key))
    ensures Distinct(Keys(GroupBy(s, key)))
    ensures forall t, j | 0 <= t < |GroupBy(s, key)| && 0 <= j < |GroupBy(s, key)[t].members| ::
              key(GroupBy(s, key)[t].members[j]) == GroupBy(s, key)[t].key
    ensures forall j | 0 <= j < |s| :: key(s[j]) in Keys(GroupBy(s, key))
  {
    var gs := GroupBy(s, key);
    GroupByIsGrouping(s, key);
    assert forall i, j | 0 <= i < j < |gs| :: Keys(gs)[i] != Keys(gs)[j];
    forall t, j | 0 <= t < |gs| && 0 <= j < |gs[t].members|
      ensures key(gs[t].members[j]) == gs[t].key
    {
      assert gs[t].members == FilterKey(s, key, gs[t].key);
    }
    forall j | 0 <= j < |s|
      ensures key(s[j]) in Keys(gs)
    {
      assert Keys(gs)[KeyIndex(gs, key(s[j]))] == key(s[j]);
    }
  }

  /** The key of the last group is not among the earlier ones. */
  lemma {:induction false} LastKeyNew<K, T>(gs: seq<Group<K, T>>)
    requires Distinct(Keys(gs)) && |gs| > 0
    ensures gs[|gs| - 1].key !in Keys(gs[..|gs| - 1])
  {
    var n := |gs| - 1;
    forall t | 0 <= t < n
      ensures Keys(gs[..n])[t] != gs[n].key
    {
      assert Keys(gs)[t] != Keys(gs)[n];
    }
  }

  /** The keys of a prefix are keys of the whole. */
  lemma {:induction false} KeysPrefix<K, T>(gs: seq<Group<K, T>>, n: nat, k: K)
    requires n <= |gs| && k in Keys(gs[..n])
    ensures k in Keys(gs)
  {
    var t :| 0 <= t < n && Keys(gs[..n])[t] == k;
    assert Keys(gs)[t] == k;
  }

  /** The first position holding key `k` (or the end, when none does) is
      where the lookup stops. */
  lemma {:induction false} KeyIndexUnique<K, T>(gs: seq<Group<K, T>>, k: K, r: nat)
    requires r <= |gs| && (r < |gs| ==> gs[r].key == k)
    requires forall i | 0 <= i < r :: gs[i].key != k
    ensures KeyIndex(gs, k) == r
  {
  }

  /** Looking a key up in all but the last group finds the same group, or none. */
  lemma {:induction false} KeyIndexPrefix<K, T>(gs: seq<Group<K, T>>, k: K)
    requires |gs| > 0
    ensures var n := |gs| - 1;
            KeyIndex(gs, k) == if KeyIndex(gs[..n], k) < n then KeyIndex(gs[..n], k)
                               else if gs[n].key == k then n else |gs|
  {
    var n := |gs| - 1;
    var p := gs[..n];
    var j := KeyIndex(p, k);
    assert forall t | 0 <= t < n :: p[t] == gs[t];
    assert forall t | 0 <= t < j :: gs[t].key != k;
    if j < n {
      KeyIndexUnique(gs, k, j);
    } else {
      assert j == n;
      if gs[n].key == k {
        KeyIndexUnique(gs, k, n);
      } else {
        KeyIndexUnique(gs, k, |gs|);
      }
    }
  }

  /** A key without a group is carried by no element. */
  lemma {:induction false} NoGroupNoElement<T, K>(s: seq<T>, key: T -> K, k: K)
    requires KeyIndex(GroupBy(s, key), k) == |GroupBy(s, key)|
    ensures FilterKey(s, key, k) == []
  {
    var gs := GroupBy(s, key);
    GroupByKeys(s, key);
    forall j | 0 <= j < |s|
      ensures key(s[j]) != k
    {
      var t :| 0 <= t < |gs| && Keys(gs)[t] == key(s[j]);
    }
    FilterKeyNone(s, key, k);
  }

  /** Read one after the other, the groups rearrange the grouped sequence:
      nothing is lost and nothing is added. */
  lemma {:induction false} GroupByPartition<T, K>(s: seq<T>, key: T -> K)
    ensures multiset(Concat(MembersOf(GroupBy(s, key)))) == multiset(s)
  {
    var gs := GroupBy(s, key);
    GroupByKeys(s, key);
    PartitionMultiset(s, key, Keys(gs));
    assert Partition(s, key, Keys(gs)) == MembersOf(gs);
  }

  /** Elements that all share one key form a single group, in input order. */
  lemma {:induction false} GroupByOneKey<T, K>(s: seq<T>, key: T -> K, k: K)
    requires |s| > 0 && forall i | 0 <= i < |s| :: key(s[i]) == k
    ensures GroupBy(s, key) == [Group(k, s)]
  {
    var n := |s| - 1;
    if n == 0 {
      assert s[..0] == [];
      assert [s[0]] == s;
    } else {
      assert forall i | 0 <= i < n :: s[..n][i] == s[i];
      GroupByOneKey(s[..n], key, k);
      assert KeyIndex([Group(k, s[..n])], k) == 0;
      assert s[..n] + [s[n]] == s;
    }
  }
}
