/** The whole seat-allocation pipeline of the upload handler
    (controllers/uploadController.js): parse and filter the rows, sort by
    register number, group by `examDate-session`, and seat every group on
    its own, each group starting again at classroom 101. */
module Allocation {
  import opened Optional
  import StudentField
  import opened Seqs
  import opened LexOrder
  import opened Records
  import opened Parse
  import opened RegisterSort
  import opened Grouping
  import opened Layout
  import opened Seating

  /** The seat plan of one date-session group: its students grouped by
      department, the first six departments laid out in columns `A`-`F`,
      then seated row by row. */
  function SeatGroup(members: seq<StudentRecord>): seq<SeatAssignment>
  {
    GroupSeats(ColumnStudents(GroupBy(members, DepartmentOf)))
  }

  function GroupPlan(g: Group<string, StudentRecord>): seq<SeatAssignment>
  {
    SeatGroup(g.members)
  }

  /** The plans of the groups one after the other, in group order. */
  function PlanEach(gs: seq<Group<string, StudentRecord>>, plan: Group<string, StudentRecord> -> seq<SeatAssignment>)
    : seq<SeatAssignment>
  {
    if |gs| == 0 then [] else PlanEach(gs[..|gs| - 1], plan) + plan(gs[|gs| - 1])
  }

  /** The kept records, sorted by register number. */
  function SortedStudents(rows: seq<Row>): seq<StudentRecord>
  {
    SortBy(ParseRows(rows), RegisterOf)
  }

  /** The `examDate-session` groups of the sorted records, in first-seen order. */
  function DateSessionGroups(rows: seq<Row>): seq<Group<string, StudentRecord>>
  {
    GroupBy(SortedStudents(rows), DateSessionKey)
  }

  /** Every seat assignment the handler builds for a sheet. */
  function Allocate(rows: seq<Row>): seq<SeatAssignment>
  {
    PlanEach(DateSessionGroups(rows), GroupPlan)
  }

  /** The body of the handler's loop for one date-session group: group its
      students by department, lay out the columns, run the row/column loop.
      The seats come out row by row, no two share a classroom and seat, and
      they seat members of the group only, every member when the group has
      at most six departments. */
  method SeatOneGroup(g: Group<string, StudentRecord>) returns (seats: seq<SeatAssignment>)
    ensures seats == GroupPlan(g)
    ensures InSeatOrder(seats)
    ensures forall i, j | 0 <= i < j < |seats| ::
              (seats[i].classRoom, seats[i].seatNumber) != (seats[j].classRoom, seats[j].seatNumber)
    ensures multiset(StudentsOf(seats)) <= multiset(g.members)
    ensures |GroupBy(g.members, DepartmentOf)| <= |Columns| ==> multiset(StudentsOf(seats)) == multiset(g.members)
  {
    var departments := GroupBy(g.members, DepartmentOf);
    var cols := ColumnStudents(departments);
    seats := AssignSeats(cols);
    GroupSeatsOrder(cols);
    GroupSeatsUnique(cols);
    SeatGroupWithin(g.members);
    if |departments| <= |Columns| {
      SeatGroupEveryone(g.members);
    }
  }

  /** The handler: parse, sort, group by `examDate-session`, then seat each
      group. For every key, the assignments carrying it are that key's
      sorted records seated on their own; within a key they come row by row
      and no two share a classroom and seat; only kept records are seated,
      each at most once, and all of them when no group has more than six
      departments. */
  method Upload(rows: seq<Row>) returns (seatAssignments: seq<SeatAssignment>)
    ensures seatAssignments == Allocate(rows)
    ensures forall k :: FilterKey(seatAssignments, AssignmentKey, k)
                        == SeatGroup(FilterKey(SortedStudents(rows), DateSessionKey, k))
    ensures InSeatOrderPerKey(seatAssignments)
    ensures forall i, j | 0 <= i < j < |seatAssignments| && AssignmentKey(seatAssignments[i]) == AssignmentKey(seatAssignments[j]) ::
              (seatAssignments[i].classRoom, seatAssignments[i].seatNumber)
              != (seatAssignments[j].classRoom, seatAssignments[j].seatNumber)
    ensures multiset(StudentsOf(seatAssignments)) <= multiset(ParseRows(rows))
    ensures AtMostSixDepartments(rows) ==> multiset(StudentsOf(seatAssignments)) == multiset(ParseRows(rows))
  {
    var students := SortedStudents(rows);
    var groups := GroupBy(students, DateSessionKey);
    seatAssignments := SeatAllGroups(groups);
    forall k
      ensures FilterKey(seatAssignments, AssignmentKey, k)
              == SeatGroup(FilterKey(SortedStudents(rows), DateSessionKey, k))
    {
      AllocateByKey(rows, k);
    }
    AllocateOrdered(rows);
    AllocateUnique(rows);
    AllocateStudents(rows);
  }

  /** The loop over the date-session groups (`for (const key in
      groupedByDateSession)`): each group's seats appended after the previous
      groups'. The seated students are each group's, in group order, and a
      sub-multiset of the members (all of them when no group has more than
      six departments); when the groups have distinct keys, selecting one
      key gives exactly that group's seats. */
  method SeatAllGroups(groups: seq<Group<string, StudentRecord>>) returns (seatAssignments: seq<SeatAssignment>)
    ensures seatAssignments == PlanEach(groups, GroupPlan)
    ensures StudentsOf(seatAssignments) == Concat(StudentsPerGroup(groups, GroupPlan))
    ensures multiset(StudentsOf(seatAssignments)) <= multiset(Concat(MembersOf(groups)))
    ensures AtMostSix(groups) ==> multiset(StudentsOf(seatAssignments)) == multiset(Concat(MembersOf(groups)))
    ensures PlansKeyed(groups, GroupPlan) ==>
              forall k :: FilterKey(seatAssignments, AssignmentKey, k) == PlanOf(groups, GroupPlan, k)
  {
    seatAssignments := [];
    var g := 0;
    while g < |groups|
      invariant 0 <= g <= |groups|
      invariant seatAssignments == PlanEach(groups[..g], GroupPlan)
    {
      var seats := SeatOneGroup(groups[g]);
      assert groups[..g + 1][..g] == groups[..g];
      seatAssignments := seatAssignments + seats;
      g := g + 1;
    }
    assert groups[..|groups|] == groups;
    PlanEachSeats(groups);
  }

  /** What the groups' plans, one after the other, seat: each group's
      students in group order, members only, all of them when no group has
      more than six departments, and per key exactly that key's plan. */
  lemma {:induction false} PlanEachSeats(groups: seq<Group<string, StudentRecord>>)
    ensures StudentsOf(PlanEach(groups, GroupPlan)) == Concat(StudentsPerGroup(groups, GroupPlan))
    ensures multiset(StudentsOf(PlanEach(groups, GroupPlan))) <= multiset(Concat(MembersOf(groups)))
    ensures AtMostSix(groups) ==> multiset(StudentsOf(PlanEach(groups, GroupPlan))) == multiset(Concat(MembersOf(groups)))
    ensures PlansKeyed(groups, GroupPlan) ==>
              forall k :: FilterKey(PlanEach(groups, GroupPlan), AssignmentKey, k) == PlanOf(groups, GroupPlan, k)
  {
    PlanEachStudents(groups, GroupPlan);
    PlanEachWithin(groups);
    if PlansKeyed(groups, GroupPlan) {
      forall k
        ensures FilterKey(PlanEach(groups, GroupPlan), AssignmentKey, k) == PlanOf(groups, GroupPlan, k)
      {
        PlanEachByKey(groups, GroupPlan, k);
      }
    }
  }

  // ---------------------------------------------------------------------
  // One group

  /** A student found in column `c` belongs to the `c`-th department. */
  lemma {:induction false} ColumnMember(members: seq<StudentRecord>, c: nat, s: StudentRecord)
    requires c < |Columns|
    requires s in ColumnStudents(GroupBy(members, DepartmentOf))[c]
    ensures var dgs := GroupBy(members, DepartmentOf);
            c < |dgs| && s in members && s.department == dgs[c].key
  {
    var dgs := GroupBy(members, DepartmentOf);
    GroupByKeys(members, DepartmentOf);
    assert c < |dgs|;
    var f := FilterKey(members, DepartmentOf, dgs[c].key);
    assert dgs[c].members == f;
    FilterKeyFrom(members, DepartmentOf, dgs[c].key);
    var t :| 0 <= t < |f| && f[t] == s;
  }

  /** Every student seated in a group is one of its members, and sits in
      the column its department is mapped to; so a department the map
      leaves out (the seventh and later) gets no seat. */
  lemma {:induction false} SeatGroupColumns(members: seq<StudentRecord>)
    ensures var dgs := GroupBy(members, DepartmentOf);
            Distinct(Keys(dgs)) &&
            var m, out := DepartmentColumns(Keys(dgs)), SeatGroup(members);
            forall i | 0 <= i < |out| ::
              && StudentOf(out[i]) in members
              && out[i].department in m
              && m[out[i].department] == SeatColumnOf(out[i])
  {
    var dgs := GroupBy(members, DepartmentOf);
    GroupByKeys(members, DepartmentOf);
    var m, out := DepartmentColumns(Keys(dgs)), SeatGroup(members);
    GroupSeatsFromColumns(ColumnStudents(dgs));
    ColumnLetters();
    forall i | 0 <= i < |out|
      ensures StudentOf(out[i]) in members
      ensures out[i].department in m && m[out[i].department] == SeatColumnOf(out[i])
    {
      var c := ColumnIndex(SeatColumnOf(out[i]));
      ColumnMember(members, c, StudentOf(out[i]));
      assert Keys(dgs)[c] == out[i].department;
      assert ColumnIndex(Columns[c]) == c;
    }
  }

  /** A group's plan seats the members of its first six departments, each
      once: as many assignments as those departments have students. */
  lemma {:induction false} SeatGroupStudents(members: seq<StudentRecord>)
    ensures multiset(StudentsOf(SeatGroup(members)))
            == multiset(Concat(MembersOf(FirstSix(GroupBy(members, DepartmentOf)))))
    ensures |SeatGroup(members)| == |Concat(MembersOf(FirstSix(GroupBy(members, DepartmentOf))))|
  {
    var dgs := GroupBy(members, DepartmentOf);
    GroupSeatsStudents(ColumnStudents(dgs));
    ColumnStudentsConcat(dgs);
  }

  /** A member whose department is among the first six sits in that department's column. */
  lemma {:induction false} MemberInColumn(members: seq<StudentRecord>, s: StudentRecord)
    requires s in members
    requires KeyIndex(GroupBy(members, DepartmentOf), s.department) < |Columns|
    ensures var c := KeyIndex(GroupBy(members, DepartmentOf), s.department);
            s in ColumnStudents(GroupBy(members, DepartmentOf))[c]
  {
    var dgs := GroupBy(members, DepartmentOf);
    GroupByKeys(members, DepartmentOf);
    var j :| 0 <= j < |members| && members[j] == s;
    var c := KeyIndex(dgs, s.department);
    assert c < |dgs|;
    FilterKeyKeeps(members, DepartmentOf, dgs[c].key, j);
  }

  /** A member of a group is seated exactly when its department is one of
      the first six, that is, when the column map has it. */
  lemma {:induction false} SeatGroupSeated(members: seq<StudentRecord>, s: StudentRecord)
    requires s in members
    ensures var dgs := GroupBy(members, DepartmentOf);
            Distinct(Keys(dgs)) &&
            (s in StudentsOf(SeatGroup(members)) <==> s.department in DepartmentColumns(Keys(dgs)))
  {
    var dgs := GroupBy(members, DepartmentOf);
    GroupByKeys(members, DepartmentOf);
    var ks := Keys(dgs);
    var c := KeyIndex(dgs, s.department);
    assert c < |dgs| && ks[c] == s.department;
    if c < |Columns| {
      MemberInColumn(members, s);
      GroupSeatsSeatsColumn(ColumnStudents(dgs), c, s);
    } else {
      SeatGroupUnmapped(members, s);
    }
  }

  /** A department left out of the column map gets no seat. */
  lemma {:induction false} SeatGroupUnmapped(members: seq<StudentRecord>, s: StudentRecord)
    requires Distinct(Keys(GroupBy(members, DepartmentOf)))
    requires s.department !in DepartmentColumns(Keys(GroupBy(members, DepartmentOf)))
    ensures s !in StudentsOf(SeatGroup(members))
  {
    var out := SeatGroup(members);
    SeatGroupColumns(members);
    forall i | 0 <= i < |out|
      ensures StudentsOf(out)[i] != s
    {
      assert StudentsOf(out)[i].department == out[i].department;
    }
  }

  /** A group's plan seats only its members, none twice. */
  lemma {:induction false} SeatGroupWithin(members: seq<StudentRecord>)
    ensures multiset(StudentsOf(SeatGroup(members))) <= multiset(members)
  {
    var dgs := GroupBy(members, DepartmentOf);
    SeatGroupStudents(members);
    GroupByPartition(members, DepartmentOf);
    ConcatPrefixSubMultiset(MembersOf(dgs), |FirstSix(dgs)|);
    assert MembersOf(dgs)[..|FirstSix(dgs)|] == MembersOf(FirstSix(dgs));
  }

  /** With at most six departments, every member of the group is seated once. */
  lemma {:induction false} SeatGroupEveryone(members: seq<StudentRecord>)
    requires |GroupBy(members, DepartmentOf)| <= |Columns|
    ensures multiset(StudentsOf(SeatGroup(members))) == multiset(members)
  {
    SeatGroupStudents(members);
    GroupByPartition(members, DepartmentOf);
  }

  /** When every member carries key `k`, every assignment made for them does. */
  lemma {:induction false} SeatGroupKey(members: seq<StudentRecord>, k: string)
    requires forall j | 0 <= j < |members| :: DateSessionKey(members[j]) == k
    ensures forall i | 0 <= i < |SeatGroup(members)| :: AssignmentKey(SeatGroup(members)[i]) == k
  {
    var out := SeatGroup(members);
    SeatGroupColumns(members);
    forall i | 0 <= i < |out|
      ensures AssignmentKey(out[i]) == k
    {
      var j :| 0 <= j < |members| && members[j] == StudentOf(out[i]);
    }
  }

  // ---------------------------------------------------------------------
  // Several groups, for any per-group plan

  /** No key twice, and every assignment of a group's plan carries the group's key. */
  ghost predicate PlansKeyed(gs: seq<Group<string, StudentRecord>>, plan: Group<string, StudentRecord> -> seq<SeatAssignment>) {
    && Distinct(Keys(gs))
    && forall t, i | 0 <= t < |gs| && 0 <= i < |plan(gs[t])| :: AssignmentKey(plan(gs[t])[i]) == gs[t].key
  }

  lemma {:induction false} PlansKeyedPrefix(gs: seq<Group<string, StudentRecord>>, plan: Group<string, StudentRecord> -> seq<SeatAssignment>, n: nat)
    requires PlansKeyed(gs, plan) && n <= |gs|
    ensures PlansKeyed(gs[..n], plan)
  {
    forall i, j | 0 <= i < j < n
      ensures Keys(gs[..n])[i] != Keys(gs[..n])[j]
    {
      assert Keys(gs[..n])[i] == Keys(gs)[i] && Keys(gs[..n])[j] == Keys(gs)[j];
    }
    assert forall t | 0 <= t < n :: gs[..n][t] == gs[t];
  }

  /** Every assignment carries the key of one of the groups. */
  lemma {:induction false} PlanEachKeys(gs: seq<Group<string, StudentRecord>>, plan: Group<string, StudentRecord> -> seq<SeatAssignment>)
    requires PlansKeyed(gs, plan)
    ensures forall i | 0 <= i < |PlanEach(gs, plan)| :: AssignmentKey(PlanEach(gs, plan)[i]) in Keys(gs)
  {
    if |gs| > 0 {
      var n := |gs| - 1;
      var a, b := PlanEach(gs[..n], plan), plan(gs[n]);
      PlansKeyedPrefix(gs, plan, n);
      PlanEachKeys(gs[..n], plan);
      forall i | 0 <= i < |a + b|
        ensures AssignmentKey((a + b)[i]) in Keys(gs)
      {
        if i < |a| {
          KeysPrefix(gs, n, AssignmentKey(a[i]));
        } else {
          assert (a + b)[i] == b[i - |a|];
          assert Keys(gs)[n] == gs[n].key;
        }
      }
    }
  }

  /** The plan of the group with key `k`, or nothing when no group has it. */
  function PlanOf(gs: seq<Group<string, StudentRecord>>, plan: Group<string, StudentRecord> -> seq<SeatAssignment>, k: string)
    : seq<SeatAssignment>
  {
    if KeyIndex(gs, k) < |gs| then plan(gs[KeyIndex(gs, k)]) else []
  }

  /** Dropping the last group changes the plan found for `k` only when the
      last group is the one keyed `k`, and then nothing earlier is. */
  lemma {:induction false} PlanOfPrefix(gs: seq<Group<string, StudentRecord>>, plan: Group<string, StudentRecord> -> seq<SeatAssignment>, k: string)
    requires Distinct(Keys(gs)) && |gs| > 0
    ensures gs[|gs| - 1].key == k ==> PlanOf(gs, plan, k) == plan(gs[|gs| - 1]) && PlanOf(gs[..|gs| - 1], plan, k) == []
    ensures gs[|gs| - 1].key != k ==> PlanOf(gs, plan, k) == PlanOf(gs[..|gs| - 1], plan, k)
  {
    var n := |gs| - 1;
    KeyIndexPrefix(gs, k);
    if gs[n].key == k {
      LastKeyNew(gs);
      KeyIndexAbsent(gs[..n], k);
    } else {
      assert forall t | 0 <= t < n :: gs[..n][t] == gs[t];
    }
  }

  /** The assignments with key `k` are the plan of the group with that key,
      or nothing when no group has it. */
  lemma {:induction false} PlanEachByKey(gs: seq<Group<string, StudentRecord>>, plan: Group<string, StudentRecord> -> seq<SeatAssignment>, k: string)
    requires PlansKeyed(gs, plan)
    ensures FilterKey(PlanEach(gs, plan), AssignmentKey, k) == PlanOf(gs, plan, k)
  {
    if |gs| > 0 {
      var n := |gs| - 1;
      var a, b := PlanEach(gs[..n], plan), plan(gs[n]);
      PlansKeyedPrefix(gs, plan, n);
      PlanEachByKey(gs[..n], plan, k);
      FilterKeyAppend(a, b, AssignmentKey, k);
      PlanOfPrefix(gs, plan, k);
      if gs[n].key == k {
        FilterKeyAll(b, AssignmentKey, k);
      } else {
        FilterKeyNone(b, AssignmentKey, k);
      }
    }
  }

  /** Among the assignments sharing a key, each comes before every later one. */
  predicate InSeatOrderPerKey(out: seq<SeatAssignment>) {
    forall i, j | 0 <= i < j < |out| && AssignmentKey(out[i]) == AssignmentKey(out[j]) ::
      SeatBefore(out[i], out[j])
  }

  /** Within one key the plans keep their own order. */
  lemma {:induction false} PlanEachOrder(gs: seq<Group<string, StudentRecord>>, plan: Group<string, StudentRecord> -> seq<SeatAssignment>)
    requires PlansKeyed(gs, plan)
    requires forall t | 0 <= t < |gs| :: InSeatOrder(plan(gs[t]))
    ensures InSeatOrderPerKey(PlanEach(gs, plan))
  {
    if |gs| > 0 {
      var n := |gs| - 1;
      var a, b := PlanEach(gs[..n], plan), plan(gs[n]);
      var out := a + b;
      PlansKeyedPrefix(gs, plan, n);
      assert forall t | 0 <= t < n :: gs[..n][t] == gs[t];
      PlanEachOrder(gs[..n], plan);
      PlanEachKeys(gs[..n], plan);
      LastKeyNew(gs);
      forall i, j | 0 <= i < j < |out|
        ensures AssignmentKey(out[i]) == AssignmentKey(out[j]) ==> SeatBefore(out[i], out[j])
      {
        if j < |a| {
          assert out[i] == a[i] && out[j] == a[j];
        } else if i < |a| {
          assert out[i] == a[i] && out[j] == b[j - |a|];
          assert AssignmentKey(a[i]) in Keys(gs[..n]);
          assert AssignmentKey(out[j]) == gs[n].key;
          assert AssignmentKey(out[i]) != AssignmentKey(out[j]);
        } else {
          assert out[i] == b[i - |a|] && out[j] == b[j - |a|];
        }
      }
    }
  }

  /** The students read back from the plans of each group. */
  function StudentsPerGroup(gs: seq<Group<string, StudentRecord>>, plan: Group<string, StudentRecord> -> seq<SeatAssignment>)
    : (r: seq<seq<StudentRecord>>)
    ensures |r| == |gs|
  {
    seq(|gs|, t requires 0 <= t < |gs| => StudentsOf(plan(gs[t])))
  }

  /** The students seated across the groups are those seated in each group. */
  lemma {:induction false} PlanEachStudents(gs: seq<Group<string, StudentRecord>>, plan: Group<string, StudentRecord> -> seq<SeatAssignment>)
    ensures StudentsOf(PlanEach(gs, plan)) == Concat(StudentsPerGroup(gs, plan))
  {
    if |gs| > 0 {
      var n := |gs| - 1;
      PlanEachStudents(gs[..n], plan);
      StudentsOfAppend(PlanEach(gs[..n], plan), plan(gs[n]));
      assert StudentsPerGroup(gs, plan) == StudentsPerGroup(gs[..n], plan) + [StudentsOf(plan(gs[n]))];
      ConcatAppend(StudentsPerGroup(gs[..n], plan), StudentsOf(plan(gs[n])));
    }
  }

  // ---------------------------------------------------------------------
  // The whole sheet

  lemma {:induction false} DateSessionPlansKeyed(rows: seq<Row>)
    ensures PlansKeyed(DateSessionGroups(rows), GroupPlan)
  {
    GroupByKeys(SortedStudents(rows), DateSessionKey);
    GroupPlansKeyed(DateSessionGroups(rows));
  }

  /** Groups with distinct keys whose members carry their group's key get
      seat plans keyed by their group. */
  lemma {:induction false} GroupPlansKeyed(gs: seq<Group<string, StudentRecord>>)
    requires Distinct(Keys(gs))
    requires forall t, j | 0 <= t < |gs| && 0 <= j < |gs[t].members| :: DateSessionKey(gs[t].members[j]) == gs[t].key
    ensures PlansKeyed(gs, GroupPlan)
  {
    forall t | 0 <= t < |gs|
      ensures forall i | 0 <= i < |GroupPlan(gs[t])| :: AssignmentKey(GroupPlan(gs[t])[i]) == gs[t].key
    {
      SeatGroupKey(gs[t].members, gs[t].key);
    }
  }

  /** The assignments for one `examDate-session` key are exactly the plan of
      the sorted records with that key, seated on their own. */
  lemma {:induction false} AllocateByKey(rows: seq<Row>, k: string)
    ensures FilterKey(Allocate(rows), AssignmentKey, k)
            == SeatGroup(FilterKey(SortedStudents(rows), DateSessionKey, k))
  {
    var s, gs := SortedStudents(rows), DateSessionGroups(rows);
    GroupByKeys(SortedStudents(rows), DateSessionKey);
    DateSessionPlansKeyed(rows);
    PlanEachByKey(gs, GroupPlan, k);
    if KeyIndex(gs, k) == |gs| {
      NoGroupNoMembers(rows, k);
    }
  }

  /** A key no group has is carried by no sorted record, and seats nobody. */
  lemma {:induction false} NoGroupNoMembers(rows: seq<Row>, k: string)
    requires KeyIndex(DateSessionGroups(rows), k) == |DateSessionGroups(rows)|
    ensures SeatGroup(FilterKey(SortedStudents(rows), DateSessionKey, k)) == []
  {
    NoGroupNoElement(SortedStudents(rows), DateSessionKey, k);
    SeatGroupNobody();
  }

  /** A group without members gets no seats. */
  lemma {:induction false} SeatGroupNobody()
    ensures SeatGroup([]) == []
  {
    assert MaxLen(ColumnStudents(GroupBy([], DepartmentOf))) == 0;
  }

  /** Each group of the sorted records is itself sorted by register number. */
  lemma {:induction false} GroupsSorted(rows: seq<Row>, k: string)
    ensures SortedBy(FilterKey(SortedStudents(rows), DateSessionKey, k), RegisterOf)
  {
    SortBySorted(ParseRows(rows), RegisterOf);
    FilterKeySorted(SortedStudents(rows), RegisterOf, DateSessionKey, k);
  }

  /** Assignments sharing a key come out row by row, columns `A` to `F`
      within a row. */
  lemma {:induction false} AllocateOrdered(rows: seq<Row>)
    ensures InSeatOrderPerKey(Allocate(rows))
  {
    var gs := DateSessionGroups(rows);
    DateSessionPlansKeyed(rows);
    forall t | 0 <= t < |gs|
      ensures InSeatOrder(GroupPlan(gs[t]))
    {
      GroupSeatsOrder(ColumnStudents(GroupBy(gs[t].members, DepartmentOf)));
    }
    PlanEachOrder(gs, GroupPlan);
  }

  /** No two assignments with the same key share a classroom and seat,
      neither as numbers nor as the stored strings. */
  lemma {:induction false} AllocateUnique(rows: seq<Row>)
    ensures var out := Allocate(rows);
            forall i, j | 0 <= i < j < |out| && AssignmentKey(out[i]) == AssignmentKey(out[j]) ::
              && (out[i].classRoom, out[i].seatNumber) != (out[j].classRoom, out[j].seatNumber)
              && (Stored(out[i]).classRoom, Stored(out[i]).seatNumber)
                 != (Stored(out[j]).classRoom, Stored(out[j]).seatNumber)
  {
    var out := Allocate(rows);
    AllocateOrdered(rows);
    forall i, j | 0 <= i < j < |out| && AssignmentKey(out[i]) == AssignmentKey(out[j])
      ensures (Stored(out[i]).classRoom, Stored(out[i]).seatNumber)
              != (Stored(out[j]).classRoom, Stored(out[j]).seatNumber)
    {
      StoredPlaceDistinct(out[i], out[j]);
    }
  }

  /** Classrooms are reused across keys: the assignments of every
      date-session key use exactly classrooms 101 up to the count its own
      longest department column needs, whatever the other keys use. */
  lemma {:induction false} AllocateRoomsByKey(rows: seq<Row>, k: string)
    ensures var cols := ColumnStudents(GroupBy(FilterKey(SortedStudents(rows), DateSessionKey, k), DepartmentOf));
            forall r: nat :: RoomUsed(FilterKey(Allocate(rows), AssignmentKey, k), r)
                             <==> FirstRoom <= r < FirstRoom + RoomsNeeded(cols)
  {
    AllocateByKey(rows, k);
    GroupSeatsRooms(ColumnStudents(GroupBy(FilterKey(SortedStudents(rows), DateSessionKey, k), DepartmentOf)));
  }

  /** The date-session groups, read one after the other, rearrange the kept records. */
  lemma {:induction false} DateSessionPartition(rows: seq<Row>)
    ensures multiset(Concat(MembersOf(DateSessionGroups(rows)))) == multiset(ParseRows(rows))
  {
    GroupByPartition(SortedStudents(rows), DateSessionKey);
  }

  /** No group has more than six departments. */
  ghost predicate AtMostSix(gs: seq<Group<string, StudentRecord>>) {
    forall t | 0 <= t < |gs| :: |GroupBy(gs[t].members, DepartmentOf)| <= |Columns|
  }

  /** Plans that each seat only members of their group, none twice, together
      seat only members of the groups. */
  lemma {:induction false} PlanEachSub(gs: seq<Group<string, StudentRecord>>, plan: Group<string, StudentRecord> -> seq<SeatAssignment>)
    requires forall t | 0 <= t < |gs| :: multiset(StudentsOf(plan(gs[t]))) <= multiset(gs[t].members)
    ensures multiset(StudentsOf(PlanEach(gs, plan))) <= multiset(Concat(MembersOf(gs)))
  {
    var each, whole := StudentsPerGroup(gs, plan), MembersOf(gs);
    PlanEachStudents(gs, plan);
    assert forall t | 0 <= t < |gs| :: multiset(each[t]) <= multiset(whole[t]);
    ConcatSubMultiset(each, whole);
  }

  /** Plans that each seat every member of their group exactly once together
      seat every member of the groups exactly once. */
  lemma {:induction false} PlanEachSame(gs: seq<Group<string, StudentRecord>>, plan: Group<string, StudentRecord> -> seq<SeatAssignment>)
    requires forall t | 0 <= t < |gs| :: multiset(StudentsOf(plan(gs[t]))) == multiset(gs[t].members)
    ensures multiset(StudentsOf(PlanEach(gs, plan))) == multiset(Concat(MembersOf(gs)))
  {
    var each, whole := StudentsPerGroup(gs, plan), MembersOf(gs);
    PlanEachStudents(gs, plan);
    assert forall t | 0 <= t < |gs| :: multiset(each[t]) == multiset(whole[t]);
    ConcatSameMultiset(each, whole);
  }

  /** The seat plans seat only members of the groups, none twice, and all of
      them when no group has more than six departments. */
  lemma {:induction false} PlanEachWithin(gs: seq<Group<string, StudentRecord>>)
    ensures multiset(StudentsOf(PlanEach(gs, GroupPlan))) <= multiset(Concat(MembersOf(gs)))
    ensures AtMostSix(gs) ==> multiset(StudentsOf(PlanEach(gs, GroupPlan))) == multiset(Concat(MembersOf(gs)))
  {
    forall t | 0 <= t < |gs|
      ensures multiset(StudentsOf(GroupPlan(gs[t]))) <= multiset(gs[t].members)
    {
      SeatGroupWithin(gs[t].members);
    }
    PlanEachSub(gs, GroupPlan);
    if AtMostSix(gs) {
      forall t | 0 <= t < |gs|
        ensures multiset(StudentsOf(GroupPlan(gs[t]))) == multiset(gs[t].members)
      {
        SeatGroupEveryone(gs[t].members);
      }
      PlanEachSame(gs, GroupPlan);
    }
  }

  /** Each date-session group has at most six departments. */
  ghost predicate AtMostSixDepartments(rows: seq<Row>) {
    AtMostSix(DateSessionGroups(rows))
  }

  /** Only kept records are seated, none twice; when no group has more
      than six departments, every kept record is seated exactly once. */
  lemma {:induction false} AllocateStudents(rows: seq<Row>)
    ensures multiset(StudentsOf(Allocate(rows))) <= multiset(ParseRows(rows))
    ensures AtMostSixDepartments(rows) ==> multiset(StudentsOf(Allocate(rows))) == multiset(ParseRows(rows))
  {
    PlanEachWithin(DateSessionGroups(rows));
    DateSessionPartition(rows);
  }

  /** A group whose members all belong to one department fills only column
      `A`: it uses classrooms 101 onwards, one per six students. */
  lemma {:induction false} SeatOneDepartment(members: seq<StudentRecord>, d: string)
    requires forall i | 0 <= i < |members| :: members[i].department == d
    ensures forall r: nat :: RoomUsed(SeatGroup(members), r) <==> FirstRoom <= r < FirstRoom + (|members| + 5) / 6
  {
    var cols: seq<seq<StudentRecord>>;
    if |members| == 0 {
      cols := ColumnStudents([]);
      assert GroupBy(members, DepartmentOf) == [];
    } else {
      GroupByOneKey(members, DepartmentOf, d);
      cols := ColumnStudents([Group(d, members)]);
    }
    assert cols == [members, [], [], [], [], []];
    assert MaxLen(cols) == |members|;
    GroupSeatsRooms(cols);
  }

  /** Thirty-seven students of one department take seven classrooms, 101 to
      107, although they would fit two rooms of six full columns. */
  lemma {:induction false} OneDepartmentOf37(members: seq<StudentRecord>, d: string)
    requires |members| == 37 && forall i | 0 <= i < |members| :: members[i].department == d
    ensures forall r: nat :: RoomUsed(SeatGroup(members), r) <==> 101 <= r <= 107
    ensures |members| <= 2 * (|Columns| * MaxRows)
  {
    SeatOneDepartment(members, d);
  }

  // ---------------------------------------------------------------------
  // A worked sheet

  /** Two `<name> (<reg>)` cells of the same exam parse, in order, to their
      two records. */
  lemma {:induction false} ParseTwoCells(cell1: string, name1: string, reg1: string, branch1: string,
                                         cell2: string, name2: string, reg2: string, branch2: string,
                                         course: string, date: string, session: string)
    requires cell1 == name1 + " (" + reg1 + ")" && '(' !in name1 && |reg1| > 0 && ')' !in reg1
    requires forall m | 0 <= m < |reg1| :: !StudentField.IsLineTerminator(reg1[m])
    requires cell2 == name2 + " (" + reg2 + ")" && '(' !in name2 && |reg2| > 0 && ')' !in reg2
    requires forall m | 0 <= m < |reg2| :: !StudentField.IsLineTerminator(reg2[m])
    ensures ParseRows([Row(Some(cell1), branch1, course, date, session),
                       Row(Some(cell2), branch2, course, date, session)])
            == [StudentRecord(reg1, name1, branch1, course, date, session),
                StudentRecord(reg2, name2, branch2, course, date, session)]
  {
    var r1, r2 := Row(Some(cell1), branch1, course, date, session), Row(Some(cell2), branch2, course, date, session);
    var a, b := StudentRecord(reg1, name1, branch1, course, date, session), StudentRecord(reg2, name2, branch2, course, date, session);
    assert ParseRows([r1]) == [a] by {
      ParseNameAndNumber(cell1, name1, reg1, branch1, course, date, session);
    }
    assert ParseRows([r2]) == [b] by {
      ParseNameAndNumber(cell2, name2, reg2, branch2, course, date, session);
    }
    ParseRowsAppend([r1], [r2]);
    assert [r1] + [r2] == [r1, r2];
    assert [a] + [b] == [a, b];
  }

  lemma {:induction false} SortTwo(a: StudentRecord, b: StudentRecord)
    requires LexLe(a.registerNumber, b.registerNumber)
    ensures SortBy([a, b], RegisterOf) == [a, b]
  {
    assert [a, b][1..] == [b] && [b][1..] == [];
    assert SortBy([b], RegisterOf) == [b];
  }

  lemma {:induction false} GroupTwo(a: StudentRecord, b: StudentRecord, key: StudentRecord -> string)
    ensures key(a) == key(b) ==> GroupBy([a, b], key) == [Group(key(a), [a, b])]
    ensures key(a) != key(b) ==> GroupBy([a, b], key) == [Group(key(a), [a]), Group(key(b), [b])]
  {
    assert [a, b][..1] == [a] && [a][..0] == [];
    var gs := [Group(key(a), [a])];
    assert GroupBy([a], key) == gs;
    assert GroupBy([a, b], key) == Push(gs, b, key);
    if key(a) == key(b) {
      assert KeyIndex(gs, key(b)) == 0;
      assert [a] + [b] == [a, b];
    } else {
      assert KeyIndex(gs[1..], key(b)) == 0;
      assert KeyIndex(gs, key(b)) == 1;
    }
  }

  lemma {:induction false} RegisterOrderExample()
    ensures LexLe("REG001", "REG002")
  {
    assert "REG001"[1..] == "EG001" && "REG002"[1..] == "EG002";
    assert "EG001"[1..] == "G001" && "EG002"[1..] == "G002";
    assert "G001"[1..] == "001" && "G002"[1..] == "002";
    assert "001"[1..] == "01" && "002"[1..] == "02";
    assert "01"[1..] == "1" && "02"[1..] == "2";
  }

  /** Two sorted students of the same exam session but different departments
      take seats `A1` and `B1` of classroom 101. */
  lemma {:induction false} SeatTwoStudents(a: StudentRecord, b: StudentRecord)
    requires DateSessionKey(a) == DateSessionKey(b) && a.department != b.department
    ensures PlanEach(GroupBy([a, b], DateSessionKey), GroupPlan)
            == [Seated(a, 101, Seat('A', 1)), Seated(b, 101, Seat('B', 1))]
  {
    GroupTwo(a, b, DateSessionKey);
    var g := Group(DateSessionKey(a), [a, b]);
    GroupTwo(a, b, DepartmentOf);
    var dgs := [Group(a.department, [a]), Group(b.department, [b])];
    assert GroupBy(g.members, DepartmentOf) == dgs;
    assert ColumnStudents(dgs) == [[a], [b], [], [], [], []];
    TwoColumnsFirstRow(a, b);
    assert [g][..0] == [];
  }

  /** The sample sheet's rows parse and sort to Asha then Badri. */
  lemma {:induction false} TwoStudentRecords()
    ensures SortedStudents([Row(Some("Asha (REG001)"), "CS", "Maths", "2024-05-01", "Forenoon"),
                            Row(Some("Badri (REG002)"), "EC", "Maths", "2024-05-01", "Forenoon")])
            == [StudentRecord("REG001", "Asha", "CS", "Maths", "2024-05-01", "Forenoon"),
                StudentRecord("REG002", "Badri", "EC", "Maths", "2024-05-01", "Forenoon")]
  {
    var r1 := Row(Some("Asha (REG001)"), "CS", "Maths", "2024-05-01", "Forenoon");
    var r2 := Row(Some("Badri (REG002)"), "EC", "Maths", "2024-05-01", "Forenoon");
    var a := StudentRecord("REG001", "Asha", "CS", "Maths", "2024-05-01", "Forenoon");
    var b := StudentRecord("REG002", "Badri", "EC", "Maths", "2024-05-01", "Forenoon");
    ParseTwoCells("Asha (REG001)", "Asha", "REG001", "CS", "Badri (REG002)", "Badri", "REG002", "EC",
                  "Maths", "2024-05-01", "Forenoon");
    RegisterOrderExample();
    SortTwo(a, b);
  }

  /** The whole pipeline on a two-row sheet: two students of different
      departments sitting the same exam session share classroom 101, in the
      first row, columns `A` and `B`. */
  lemma {:induction false} TwoStudentSheet()
    ensures var out := Allocate([Row(Some("Asha (REG001)"), "CS", "Maths", "2024-05-01", "Forenoon"),
                                 Row(Some("Badri (REG002)"), "EC", "Maths", "2024-05-01", "Forenoon")]);
            && out == [SeatAssignment("REG001", "Asha", "CS", "Maths", 101, Seat('A', 1), "2024-05-01", "Forenoon"),
                       SeatAssignment("REG002", "Badri", "EC", "Maths", 101, Seat('B', 1), "2024-05-01", "Forenoon")]
            && Stored(out[0]).classRoom == "Room 101" && Stored(out[0]).seatNumber == "A1"
            && Stored(out[1]).classRoom == "Room 101" && Stored(out[1]).seatNumber == "B1"
  {
    var a := StudentRecord("REG001", "Asha", "CS", "Maths", "2024-05-01", "Forenoon");
    var b := StudentRecord("REG002", "Badri", "EC", "Maths", "2024-05-01", "Forenoon");
    TwoStudentRecords();
    SeatTwoStudents(a, b);
    RenderExamples();
  }
}
