/** The classroom layout of one date-session group: six seat columns `A`-`F`,
    six rows per classroom, classrooms numbered from 101; and the mapping of
    the first six departments met onto those columns. */
module Layout {
  import opened Seqs
  import opened Records
  import opened Grouping

  const Columns: seq<char> := ['A', 'B', 'C', 'D', 'E', 'F']
  const MaxRows: nat := 6
  const FirstRoom: nat := 101

  /** Position of a column letter in `Columns`. */
  function ColumnIndex(letter: char): int { letter as int - 'A' as int }

  lemma {:induction false} ColumnLetters()
    ensures |Columns| == 6
    ensures forall c | 0 <= c < |Columns| :: ColumnIndex(Columns[c]) == c
    ensures forall c, d | 0 <= c < d < |Columns| :: Columns[c] < Columns[d]
  {
  }

  /** The letters handed out to the departments of a list of at most six,
      one department after the other. */
  function FirstColumns(depts: seq<string>): map<string, char>
    requires |depts| <= |Columns|
  {
    if |depts| == 0 then map[]
    else FirstColumns(depts[..|depts| - 1])[depts[|depts| - 1] := Columns[|depts| - 1]]
  }

  /** Exactly the listed departments get a letter. */
  lemma {:induction false} FirstColumnsKeys(depts: seq<string>)
    requires |depts| <= |Columns|
    ensures forall d :: d in FirstColumns(depts) <==> d in depts
  {
    if |depts| > 0 {
      var n := |depts| - 1;
      var prefix := depts[..n];
      assert depts == prefix + [depts[n]];
      FirstColumnsKeys(prefix);
    }
  }

  /** The i-th listed department gets the i-th letter. */
  lemma {:induction false} FirstColumnsLookup(depts: seq<string>)
    requires |depts| <= |Columns| && Distinct(depts)
    ensures forall i | 0 <= i < |depts| :: depts[i] in FirstColumns(depts) && FirstColumns(depts)[depts[i]] == Columns[i]
  {
    if |depts| > 0 {
      var n := |depts| - 1;
      var prefix := depts[..n];
      assert Distinct(prefix);
      FirstColumnsLookup(prefix);
      var m0, m := FirstColumns(prefix), FirstColumns(depts);
      assert m == m0[depts[n] := Columns[n]];
      forall i | 0 <= i < n
        ensures depts[i] in m && m[depts[i]] == Columns[i]
      {
        assert depts[i] == prefix[i] && depts[i] != depts[n];
      }
    }
  }

  /** Exactly the listed departments get a letter, the i-th one the i-th letter. */
  lemma {:induction false} FirstColumnsSpec(depts: seq<string>)
    requires |depts| <= |Columns| && Distinct(depts)
    ensures forall d :: d in FirstColumns(depts) <==> d in depts
    ensures forall i | 0 <= i < |depts| :: FirstColumns(depts)[depts[i]] == Columns[i]
  {
    FirstColumnsKeys(depts);
    FirstColumnsLookup(depts);
  }

  /** Different departments among the first six get different letters. */
  lemma {:induction false} FirstColumnsInjective(depts: seq<string>)
    requires |depts| <= |Columns| && Distinct(depts)
    ensures var m := FirstColumns(depts);
            forall d, e | d in m && e in m && d != e :: m[d] != m[e]
  {
    var m := FirstColumns(depts);
    FirstColumnsSpec(depts);
    ColumnLetters();
    forall d, e | d in m && e in m && d != e
      ensures m[d] != m[e]
    {
      var i :| 0 <= i < |depts| && depts[i] == d;
      var j :| 0 <= j < |depts| && depts[j] == e;
    }
  }

  lemma {:induction false} FirstColumnsOfPrefix(depts: seq<string>, n: nat)
    requires n <= |Columns| && n <= |depts| && Distinct(depts)
    ensures Distinct(depts[..n])
    ensures var m := FirstColumns(depts[..n]);
            && (forall i | 0 <= i < |depts| :: depts[i] in m <==> i < n)
            && (forall i | 0 <= i < n :: m[depts[i]] == Columns[i])
            && (forall d | d in m :: d in depts)
  {
    var prefix := depts[..n];
    var m := FirstColumns(prefix);
    assert Distinct(prefix);
    FirstColumnsSpec(prefix);
    forall i | 0 <= i < |depts| && n <= i
      ensures depts[i] !in m
    {
      assert forall j | 0 <= j < n :: prefix[j] != depts[i];
    }
    forall i | 0 <= i < n
      ensures depts[i] in m && m[depts[i]] == Columns[i]
    {
      assert prefix[i] == depts[i];
    }
  }

  /** The department-to-column map: the i-th department met gets the i-th
      letter; departments after the sixth get none. */
  function DepartmentColumns(depts: seq<string>): (m: map<string, char>)
    requires Distinct(depts)
    ensures forall i | 0 <= i < |depts| :: depts[i] in m <==> i < |Columns|
    ensures forall i | 0 <= i < |depts| && i < |Columns| :: m[depts[i]] == Columns[i]
    ensures forall d | d in m :: d in depts
    ensures forall d, e | d in m && e in m && d != e :: m[d] != m[e]
  {
    var n := if |depts| < |Columns| then |depts| else |Columns|;
    FirstColumnsOfPrefix(depts, n);
    FirstColumnsInjective(depts[..n]);
    FirstColumns(depts[..n])
  }

  /** The six column lists: column `c` holds the members of the `c`-th
      department, or nothing when there are fewer departments. */
  function ColumnStudents(dgs: seq<Group<string, StudentRecord>>): (cols: seq<seq<StudentRecord>>)
    ensures |cols| == |Columns|
  {
    seq(|Columns|, c requires 0 <= c < |Columns| => if c < |dgs| then dgs[c].members else [])
  }

  /** Each column holds the students of the department mapped to its letter,
      and a letter no department maps to gets an empty column. */
  lemma {:induction false} ColumnStudentsFollowMap(dgs: seq<Group<string, StudentRecord>>)
    requires Distinct(Keys(dgs))
    ensures var m, cols := DepartmentColumns(Keys(dgs)), ColumnStudents(dgs);
            && (forall i | 0 <= i < |dgs| && dgs[i].key in m ::
                  0 <= ColumnIndex(m[dgs[i].key]) < |Columns| && cols[ColumnIndex(m[dgs[i].key])] == dgs[i].members)
            && (forall c | 0 <= c < |Columns| && Columns[c] !in m.Values :: cols[c] == [])
  {
    var m, cols := DepartmentColumns(Keys(dgs)), ColumnStudents(dgs);
    var ks := Keys(dgs);
    ColumnLetters();
    forall i | 0 <= i < |dgs| && dgs[i].key in m
      ensures 0 <= ColumnIndex(m[dgs[i].key]) < |Columns| && cols[ColumnIndex(m[dgs[i].key])] == dgs[i].members
    {
      assert ks[i] == dgs[i].key;
      assert i < |Columns|;
      assert m[ks[i]] == Columns[i];
    }
    forall c | 0 <= c < |Columns| && c < |dgs|
      ensures Columns[c] in m.Values
    {
      assert ks[c] in m && m[ks[c]] == Columns[c];
    }
  }

  /** The department groups that get a column: the first six. */
  function FirstSix(dgs: seq<Group<string, StudentRecord>>): (r: seq<Group<string, StudentRecord>>)
    ensures |r| <= |Columns| && |r| <= |dgs| && r == dgs[..|r|]
    ensures |dgs| <= |Columns| ==> r == dgs
  {
    if |dgs| <= |Columns| then dgs else dgs[..|Columns|]
  }

  /** Reading the columns `A` to `F` one after the other gives the members
      of the first six departments, department by department. */
  lemma {:induction false} ColumnStudentsConcat(dgs: seq<Group<string, StudentRecord>>)
    ensures Concat(ColumnStudents(dgs)) == Concat(MembersOf(FirstSix(dgs)))
  {
    var cols, n := ColumnStudents(dgs), |FirstSix(dgs)|;
    ConcatTrailingEmpties(cols, n);
    assert cols[..n] == MembersOf(FirstSix(dgs));
  }
}
