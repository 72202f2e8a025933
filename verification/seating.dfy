/** Seat assignment inside one date-session group (uploadController.js, the
    row/column loop). Loop row `k` (from 1) takes the `k`-th student of every
    column that has one, in column order `A`-`F`; a classroom has six rows, so
    loop row `k` is seat row `(k - 1) % 6 + 1` of classroom `101 + (k - 1) / 6`. */
module Seating {
  import opened Seqs
  import opened Records
  import opened Layout

  /** A seat position: the loop row `row` (from 1) in column number `col`. */
  datatype Slot = Slot(row: nat, col: nat)

  function SlotCol(sl: Slot): nat { sl.col }

  predicate ValidSlot(cols: seq<seq<StudentRecord>>, sl: Slot) {
    sl.col < |cols| && 1 <= sl.row <= |cols[sl.col]|
  }

  /** The seat row that loop row `k` lands on. */
  function SeatRowOf(k: nat): (r: nat)
    requires k >= 1
    ensures 1 <= r <= MaxRows
  {
    (k - 1) % MaxRows + 1
  }

  /** The classroom that loop row `k` lands in. */
  function ClassRoomOf(k: nat): (r: nat)
    requires k >= 1
    ensures r >= FirstRoom
  {
    FirstRoom + (k - 1) / MaxRows
  }

  /** Classroom and seat row together give back the loop row. */
  lemma {:induction false} LoopRowRecovered(k: nat)
    requires k >= 1
    ensures k == (ClassRoomOf(k) - FirstRoom) * MaxRows + SeatRowOf(k)
  {
  }

  /** A later loop row sits in a later classroom, or further back in the same one. */
  lemma {:induction false} LoopRowOrder(k1: nat, k2: nat)
    requires 1 <= k1 < k2
    ensures ClassRoomOf(k1) < ClassRoomOf(k2)
            || (ClassRoomOf(k1) == ClassRoomOf(k2) && SeatRowOf(k1) < SeatRowOf(k2))
  {
    LoopRowRecovered(k1);
    LoopRowRecovered(k2);
  }

  /** The record emitted for a slot. */
  function Place(cols: seq<seq<StudentRecord>>, sl: Slot): (a: SeatAssignment)
    requires |cols| <= |Columns| && ValidSlot(cols, sl)
  {
    Seated(cols[sl.col][sl.row - 1], ClassRoomOf(sl.row), Seat(Columns[sl.col], SeatRowOf(sl.row)))
  }

  function PlaceAll(cols: seq<seq<StudentRecord>>, sls: seq<Slot>): (r: seq<SeatAssignment>)
    requires |cols| <= |Columns| && forall i | 0 <= i < |sls| :: ValidSlot(cols, sls[i])
    ensures |r| == |sls|
  {
    seq(|sls|, i requires 0 <= i < |sls| => Place(cols, sls[i]))
  }

  /** The largest column size (`maxStudentsInColumn`). */
  function MaxLen(cols: seq<seq<StudentRecord>>): (m: nat)
    ensures forall c | 0 <= c < |cols| :: |cols[c]| <= m
    ensures |cols| == 0 ==> m == 0
    ensures |cols| > 0 ==> exists c | 0 <= c < |cols| :: |cols[c]| == m
  {
    if |cols| == 0 then 0
    else
      var rest := MaxLen(cols[1..]);
      assert forall c | 1 <= c < |cols| :: cols[c] == cols[1..][c - 1];
      if |cols[0]| >= rest then |cols[0]| else rest
  }

  /** The slots of loop row `k` among the first `n` columns, in column order. */
  function RowSlots(cols: seq<seq<StudentRecord>>, k: nat, n: nat): (r: seq<Slot>)
    requires 1 <= k && n <= |cols|
    ensures forall i | 0 <= i < |r| :: r[i].row == k && r[i].col < n && ValidSlot(cols, r[i])
  {
    if n == 0 then []
    else RowSlots(cols, k, n - 1) + (if |cols[n - 1]| >= k then [Slot(k, n - 1)] else [])
  }

  /** Slots in strictly increasing column order. */
  predicate LeftToRight(sls: seq<Slot>) {
    forall i, j | 0 <= i < j < |sls| :: sls[i].col < sls[j].col
  }

  /** Slots in lexicographic (row, column) order: row by row, columns left to right. */
  predicate RowMajor(sls: seq<Slot>) {
    forall i, j | 0 <= i < j < |sls| ::
      sls[i].row < sls[j].row || (sls[i].row == sls[j].row && sls[i].col < sls[j].col)
  }

  /** The slots of loop rows 1 through `m`, in the order the loop fills them. */
  function SlotsUpTo(cols: seq<seq<StudentRecord>>, m: nat): (r: seq<Slot>)
    ensures forall i | 0 <= i < |r| :: ValidSlot(cols, r[i]) && r[i].row <= m
  {
    if m == 0 then []
    else SlotsUpTo(cols, m - 1) + RowSlots(cols, m, |cols|)
  }

  lemma {:induction false} RowSlotsLeftToRight(cols: seq<seq<StudentRecord>>, k: nat, n: nat)
    requires 1 <= k && n <= |cols|
    ensures LeftToRight(RowSlots(cols, k, n))
  {
    if n > 0 {
      var prev := RowSlots(cols, k, n - 1);
      var tail: seq<Slot> := if |cols[n - 1]| >= k then [Slot(k, n - 1)] else [];
      var r := RowSlots(cols, k, n);
      assert r == prev + tail;
      RowSlotsLeftToRight(cols, k, n - 1);
      forall i, j | 0 <= i < j < |r|
        ensures r[i].col < r[j].col
      {
        assert r[i] == prev[i];
        if j >= |prev| {
          assert r[j] == tail[j - |prev|] == Slot(k, n - 1);
        } else {
          assert r[j] == prev[j];
        }
      }
    }
  }

  /** The loop fills slots row by row, left to right within a row. */
  lemma {:induction false} SlotsRowMajor(cols: seq<seq<StudentRecord>>, m: nat)
    ensures RowMajor(SlotsUpTo(cols, m))
  {
    if m > 0 {
      var prev, row := SlotsUpTo(cols, m - 1), RowSlots(cols, m, |cols|);
      var r := SlotsUpTo(cols, m);
      assert r == prev + row;
      SlotsRowMajor(cols, m - 1);
      RowSlotsLeftToRight(cols, m, |cols|);
      forall i, j | 0 <= i < j < |r|
        ensures r[i].row < r[j].row || (r[i].row == r[j].row && r[i].col < r[j].col)
      {
        if j < |prev| {
          assert r[i] == prev[i] && r[j] == prev[j];
        } else if i < |prev| {
          assert r[i] == prev[i] && r[j] == row[j - |prev|];
        } else {
          assert r[i] == row[i - |prev|] && r[j] == row[j - |prev|];
        }
      }
    }
  }

  /** The seat plan of a group, in emission order. */
  function GroupSeats(cols: seq<seq<StudentRecord>>): seq<SeatAssignment>
    requires |cols| == |Columns|
  {
    PlaceAll(cols, SlotsUpTo(cols, MaxLen(cols)))
  }

  lemma {:induction false} PlaceAllSnoc(cols: seq<seq<StudentRecord>>, sls: seq<Slot>, sl: Slot)
    requires |cols| <= |Columns| && forall i | 0 <= i < |sls| :: ValidSlot(cols, sls[i])
    requires ValidSlot(cols, sl)
    ensures PlaceAll(cols, sls + [sl]) == PlaceAll(cols, sls) + [Place(cols, sl)]
  {
    var t := sls + [sl];
    assert forall i | 0 <= i < |sls| :: t[i] == sls[i];
  }

  /** The slots filled once loop row `k` has visited its first `c` columns. */
  function Filled(cols: seq<seq<StudentRecord>>, k: nat, c: nat): (r: seq<Slot>)
    requires 1 <= k && c <= |cols|
    ensures forall i | 0 <= i < |r| :: ValidSlot(cols, r[i])
  {
    SlotsUpTo(cols, k - 1) + RowSlots(cols, k, c)
  }

  /** Visiting column `c` in loop row `k` emits that column's `k`-th student, if any. */
  lemma {:induction false} ColumnVisit(cols: seq<seq<StudentRecord>>, k: nat, c: nat)
    requires |cols| == |Columns| && 1 <= k && c < |cols|
    ensures PlaceAll(cols, Filled(cols, k, c + 1)) == PlaceAll(cols, Filled(cols, k, c))
              + (if |cols[c]| >= k
                 then [Seated(cols[c][k - 1], ClassRoomOf(k), Seat(Columns[c], SeatRowOf(k)))]
                 else [])
  {
    var before := Filled(cols, k, c);
    if |cols[c]| >= k {
      PlaceAllSnoc(cols, before, Slot(k, c));
      assert before + [Slot(k, c)] == SlotsUpTo(cols, k - 1) + RowSlots(cols, k, c + 1);
    } else {
      assert RowSlots(cols, k, c + 1) == RowSlots(cols, k, c) + [];
    }
  }

  /** One turn of the counters: the seat row advances, and after the sixth
      row it starts again at 1 in the next classroom. */
  lemma {:induction false} CounterStep(k: nat)
    requires k >= 1
    ensures SeatRowOf(k) + 1 > MaxRows ==> SeatRowOf(k + 1) == 1 && ClassRoomOf(k + 1) == ClassRoomOf(k) + 1
    ensures SeatRowOf(k) + 1 <= MaxRows ==> SeatRowOf(k + 1) == SeatRowOf(k) + 1 && ClassRoomOf(k + 1) == ClassRoomOf(k)
  {
  }

  /** One pass of the inner loop (`columns.forEach`): the `row`-th student of
      every column that has one, left to right, at the counters' seat. */
  method AssignRow(cols: seq<seq<StudentRecord>>, row: nat, rowCounter: nat, classCounter: nat,
                   out0: seq<SeatAssignment>) returns (out: seq<SeatAssignment>)
    requires |cols| == |Columns| && 1 <= row
    requires rowCounter == SeatRowOf(row) && classCounter == ClassRoomOf(row)
    requires out0 == PlaceAll(cols, SlotsUpTo(cols, row - 1))
    ensures out == PlaceAll(cols, SlotsUpTo(cols, row))
  {
    out := out0;
    var c := 0;
    assert Filled(cols, row, 0) == SlotsUpTo(cols, row - 1);
    while c < |Columns|
      invariant 0 <= c <= |Columns|
      invariant out == PlaceAll(cols, Filled(cols, row, c))
    {
      ColumnVisit(cols, row, c);
      if |cols[c]| >= row {
        var student := cols[c][row - 1];
        out := out + [Seated(student, classCounter, Seat(Columns[c], rowCounter))];
      }
      c := c + 1;
    }
  }

  /** The row/column loop with its two counters, as written in the handler. */
  method AssignSeats(cols: seq<seq<StudentRecord>>) returns (out: seq<SeatAssignment>)
    requires |cols| == |Columns|
    ensures out == GroupSeats(cols)
  {
    var maxStudentsInColumn := MaxLen(cols);
    var rowCounter := 1;
    var classCounter := FirstRoom;
    out := [];
    var row := 1;
    while row <= maxStudentsInColumn
      invariant 1 <= row <= maxStudentsInColumn + 1
      invariant rowCounter == SeatRowOf(row)
      invariant classCounter == ClassRoomOf(row)
      invariant out == PlaceAll(cols, SlotsUpTo(cols, row - 1))
    {
      out := AssignRow(cols, row, rowCounter, classCounter, out);
      CounterStep(row);
      rowCounter := rowCounter + 1;
      if rowCounter > MaxRows {
        rowCounter := 1;
        classCounter := classCounter + 1;
      }
      row := row + 1;
    }
  }

  /** `a` comes out of the loop before `b`: an earlier classroom, or an
      earlier seat row of the same classroom, or the same seat row further
      left. */
  predicate SeatBefore(a: SeatAssignment, b: SeatAssignment) {
    || a.classRoom < b.classRoom
    || (a.classRoom == b.classRoom && a.seatNumber.row < b.seatNumber.row)
    || (a.classRoom == b.classRoom && a.seatNumber.row == b.seatNumber.row
        && a.seatNumber.column < b.seatNumber.column)
  }

  /** Every assignment comes before every later one. */
  predicate InSeatOrder(out: seq<SeatAssignment>) {
    forall i, j | 0 <= i < j < |out| :: SeatBefore(out[i], out[j])
  }

  /** The plan is emitted row by row, columns `A` to `F` within a row. */
  lemma {:induction false} GroupSeatsOrder(cols: seq<seq<StudentRecord>>)
    requires |cols| == |Columns|
    ensures InSeatOrder(GroupSeats(cols))
  {
    var sls := SlotsUpTo(cols, MaxLen(cols));
    var out := GroupSeats(cols);
    ColumnLetters();
    SlotsRowMajor(cols, MaxLen(cols));
    forall i, j | 0 <= i < j < |out|
      ensures SeatBefore(out[i], out[j])
    {
      assert out[i] == Place(cols, sls[i]) && out[j] == Place(cols, sls[j]);
      if sls[i].row < sls[j].row {
        LoopRowOrder(sls[i].row, sls[j].row);
      }
    }
  }

  /** Every seat lies in one of the columns `A`-`F`, in seat row 1 to 6, in a
      classroom numbered from 101. */
  lemma {:induction false} GroupSeatsBounds(cols: seq<seq<StudentRecord>>)
    requires |cols| == |Columns|
    ensures forall i | 0 <= i < |GroupSeats(cols)| ::
              && GroupSeats(cols)[i].seatNumber.column in Columns
              && 1 <= GroupSeats(cols)[i].seatNumber.row <= MaxRows
              && GroupSeats(cols)[i].classRoom >= FirstRoom
  {
    var sls := SlotsUpTo(cols, MaxLen(cols));
    var out := GroupSeats(cols);
    forall i | 0 <= i < |out|
      ensures out[i].seatNumber.column in Columns
      ensures 1 <= out[i].seatNumber.row <= MaxRows && out[i].classRoom >= FirstRoom
    {
      assert out[i] == Place(cols, sls[i]);
    }
  }

  /** No two assignments of a group share a classroom and seat, neither as
      numbers nor as the stored strings. */
  lemma {:induction false} GroupSeatsUnique(cols: seq<seq<StudentRecord>>)
    requires |cols| == |Columns|
    ensures var out := GroupSeats(cols);
            forall i, j | 0 <= i < j < |out| ::
              (out[i].classRoom, out[i].seatNumber) != (out[j].classRoom, out[j].seatNumber)
              && (Stored(out[i]).classRoom, Stored(out[i]).seatNumber)
                 != (Stored(out[j]).classRoom, Stored(out[j]).seatNumber)
  {
    var out := GroupSeats(cols);
    GroupSeatsOrder(cols);
    forall i, j | 0 <= i < j < |out|
      ensures (Stored(out[i]).classRoom, Stored(out[i]).seatNumber)
              != (Stored(out[j]).classRoom, Stored(out[j]).seatNumber)
    {
      StoredPlaceDistinct(out[i], out[j]);
    }
  }

  /** Two one-student columns `A` and `B` fill the first row of classroom 101. */
  lemma {:induction false} TwoColumnsFirstRow(x: StudentRecord, y: StudentRecord)
    ensures GroupSeats([[x], [y], [], [], [], []]) == [Seated(x, 101, Seat('A', 1)), Seated(y, 101, Seat('B', 1))]
  {
    var cols := [[x], [y], [], [], [], []];
    assert MaxLen(cols) == 1;
    assert RowSlots(cols, 1, 1) == [Slot(1, 0)];
    assert RowSlots(cols, 1, 2) == [Slot(1, 0), Slot(1, 1)];
    assert RowSlots(cols, 1, 3) == [Slot(1, 0), Slot(1, 1)];
    assert RowSlots(cols, 1, 4) == [Slot(1, 0), Slot(1, 1)];
    assert RowSlots(cols, 1, 5) == [Slot(1, 0), Slot(1, 1)];
    assert RowSlots(cols, 1, 6) == [Slot(1, 0), Slot(1, 1)];
    assert SlotsUpTo(cols, 1) == [Slot(1, 0), Slot(1, 1)];
    ColumnLetters();
  }

  /** Closed form of column `c`: its `k`-th student (from 1) sits at row
      `(k - 1) % 6 + 1` of that column in classroom `101 + (k - 1) / 6`. */
  function ColumnPlan(cols: seq<seq<StudentRecord>>, c: nat): (r: seq<SeatAssignment>)
    requires c < |cols| && c < |Columns|
    ensures |r| == |cols[c]|
  {
    seq(|cols[c]|, i requires 0 <= i < |cols[c]| =>
      Seated(cols[c][i], FirstRoom + i / MaxRows, Seat(Columns[c], i % MaxRows + 1)))
  }

  /** The slots of column `c` in rows 1 through `n`. */
  function ColumnRun(c: nat, n: nat): (r: seq<Slot>)
    ensures |r| == n
  {
    seq(n, i requires 0 <= i < n => Slot(i + 1, c))
  }

  lemma {:induction false} ColumnRunSnoc(c: nat, n: nat)
    ensures ColumnRun(c, n) + [Slot(n + 1, c)] == ColumnRun(c, n + 1)
  {
    var a, b := ColumnRun(c, n) + [Slot(n + 1, c)], ColumnRun(c, n + 1);
    assert forall i | 0 <= i < n + 1 :: a[i] == b[i];
  }

  /** Adding the slot of column `n - 1`, or nothing, to the slots of the
      columns before it. */
  lemma {:induction false} RowSlotStep(prev: seq<Slot>, present: bool, k: nat, n: nat, c: nat, want: bool)
    requires n >= 1
    requires FilterKey(prev, SlotCol, c) == if c < n - 1 && want then [Slot(k, c)] else []
    requires c == n - 1 ==> present == want
    ensures FilterKey(prev + (if present then [Slot(k, n - 1)] else []), SlotCol, c)
            == if c < n && want then [Slot(k, c)] else []
  {
    var tail: seq<Slot> := if present then [Slot(k, n - 1)] else [];
    FilterKeyAppend(prev, tail, SlotCol, c);
    if present {
      FilterKeySingleton(Slot(k, n - 1), SlotCol, c);
      if c == n - 1 {
        assert FilterKey(tail, SlotCol, c) == [Slot(k, c)];
      } else {
        assert FilterKey(tail, SlotCol, c) == [];
      }
    } else {
      FilterKeyNone(tail, SlotCol, c);
    }
  }

  /** Loop row `k` has at most one slot in column `c`: there when the column
      is at least `k` long. */
  lemma {:induction false} RowSlotsOfColumn(cols: seq<seq<StudentRecord>>, k: nat, n: nat, c: nat)
    requires 1 <= k && n <= |cols|
    ensures FilterKey(RowSlots(cols, k, n), SlotCol, c) == if c < n && |cols[c]| >= k then [Slot(k, c)] else []
  {
    if n > 0 {
      var prev := RowSlots(cols, k, n - 1);
      var present := |cols[n - 1]| >= k;
      assert RowSlots(cols, k, n) == prev + (if present then [Slot(k, n - 1)] else []);
      RowSlotsOfColumn(cols, k, n - 1, c);
      RowSlotStep(prev, present, k, n, c, c < n && |cols[c]| >= k);
    }
  }

  /** One more loop row adds the column's next slot, if the column is that long. */
  lemma {:induction false} ColumnRunStep(prev: seq<Slot>, row: seq<Slot>, c: nat, m: nat, len: nat)
    requires m >= 1
    requires FilterKey(prev, SlotCol, c) == ColumnRun(c, if m - 1 < len then m - 1 else len)
    requires FilterKey(row, SlotCol, c) == if len >= m then [Slot(m, c)] else []
    ensures FilterKey(prev + row, SlotCol, c) == ColumnRun(c, if m < len then m else len)
  {
    FilterKeyAppend(prev, row, SlotCol, c);
    if len >= m {
      ColumnRunSnoc(c, m - 1);
    } else {
      assert FilterKey(row, SlotCol, c) == [];
    }
  }

  lemma {:induction false} SlotsOfColumnStep(cols: seq<seq<StudentRecord>>, m: nat, c: nat)
    requires c < |cols| && m >= 1
    requires FilterKey(SlotsUpTo(cols, m - 1), SlotCol, c) == ColumnRun(c, if m - 1 < |cols[c]| then m - 1 else |cols[c]|)
    ensures FilterKey(SlotsUpTo(cols, m), SlotCol, c) == ColumnRun(c, if m < |cols[c]| then m else |cols[c]|)
  {
    var prev, row := SlotsUpTo(cols, m - 1), RowSlots(cols, m, |cols|);
    assert SlotsUpTo(cols, m) == prev + row;
    RowSlotsOfColumn(cols, m, |cols|, c);
    ColumnRunStep(prev, row, c, m, |cols[c]|);
  }

  /** Column `c` is filled top to bottom: its slots among rows 1 through `m`
      are rows 1, 2, ... up to the column's size. */
  lemma {:induction false} SlotsOfColumn(cols: seq<seq<StudentRecord>>, m: nat, c: nat)
    requires c < |cols|
    ensures FilterKey(SlotsUpTo(cols, m), SlotCol, c) == ColumnRun(c, if m < |cols[c]| then m else |cols[c]|)
  {
    if m == 0 {
      assert SlotsUpTo(cols, 0) == [];
      assert ColumnRun(c, 0) == [];
    } else {
      SlotsOfColumn(cols, m - 1, c);
      SlotsOfColumnStep(cols, m, c);
    }
  }

  lemma {:induction false} PlaceAllCons(cols: seq<seq<StudentRecord>>, sls: seq<Slot>)
    requires |cols| <= |Columns| && |sls| > 0 && forall i | 0 <= i < |sls| :: ValidSlot(cols, sls[i])
    ensures PlaceAll(cols, sls) == [Place(cols, sls[0])] + PlaceAll(cols, sls[1..])
  {
    var a, b := PlaceAll(cols, sls), [Place(cols, sls[0])] + PlaceAll(cols, sls[1..]);
    assert forall i | 1 <= i < |sls| :: sls[1..][i - 1] == sls[i];
    assert forall i | 0 <= i < |sls| :: a[i] == b[i];
  }

  /** A placed slot lands in letter `Columns[c]` exactly when it is in column `c`. */
  lemma {:induction false} PlaceColumnLetter(cols: seq<seq<StudentRecord>>, sl: Slot, c: nat)
    requires |cols| <= |Columns| && ValidSlot(cols, sl) && c < |Columns|
    ensures SeatColumnOf(Place(cols, sl)) == Columns[c] <==> SlotCol(sl) == c
  {
    ColumnLetters();
  }

  /** The slots picked from valid slots are valid. */
  lemma {:induction false} FilterSlotsValid(cols: seq<seq<StudentRecord>>, sls: seq<Slot>, c: nat)
    requires forall i | 0 <= i < |sls| :: ValidSlot(cols, sls[i])
    ensures forall i | 0 <= i < |FilterKey(sls, SlotCol, c)| :: ValidSlot(cols, FilterKey(sls, SlotCol, c)[i])
  {
    FilterKeyFrom(sls, SlotCol, c);
  }

  /** Placing commutes with picking one column. */
  lemma {:induction false} PlaceAllOfColumn(cols: seq<seq<StudentRecord>>, sls: seq<Slot>, c: nat)
    requires |cols| == |Columns| && c < |Columns|
    requires forall i | 0 <= i < |sls| :: ValidSlot(cols, sls[i])
    ensures forall i | 0 <= i < |FilterKey(sls, SlotCol, c)| :: ValidSlot(cols, FilterKey(sls, SlotCol, c)[i])
    ensures FilterKey(PlaceAll(cols, sls), SeatColumnOf, Columns[c]) == PlaceAll(cols, FilterKey(sls, SlotCol, c))
  {
    FilterSlotsValid(cols, sls, c);
    if |sls| > 0 {
      var out, rest := PlaceAll(cols, sls), FilterKey(sls[1..], SlotCol, c);
      PlaceAllCons(cols, sls);
      assert out[1..] == PlaceAll(cols, sls[1..]);
      PlaceAllOfColumn(cols, sls[1..], c);
      PlaceColumnLetter(cols, sls[0], c);
      if SlotCol(sls[0]) == c {
        assert FilterKey(sls, SlotCol, c) == [sls[0]] + rest;
        PlaceAllCons(cols, [sls[0]] + rest);
        assert ([sls[0]] + rest)[1..] == rest;
      } else {
        assert FilterKey(sls, SlotCol, c) == rest;
      }
    }
  }

  /** Placing the slots of column `c` top to bottom gives its closed form. */
  lemma {:induction false} PlaceColumnRun(cols: seq<seq<StudentRecord>>, c: nat)
    requires |cols| == |Columns| && c < |Columns|
    ensures PlaceAll(cols, ColumnRun(c, |cols[c]|)) == ColumnPlan(cols, c)
  {
    var run := ColumnRun(c, |cols[c]|);
    var a, b := PlaceAll(cols, run), ColumnPlan(cols, c);
    forall i | 0 <= i < |cols[c]|
      ensures a[i] == b[i]
    {
      assert run[i] == Slot(i + 1, c);
    }
  }

  /** Column `c` of the plan, read in emission order, is exactly the closed
      form: the column's students in order, the `k`-th in classroom
      `101 + (k - 1) / 6` at seat row `(k - 1) % 6 + 1`. */
  lemma {:induction false} GroupSeatsByColumn(cols: seq<seq<StudentRecord>>, c: nat)
    requires |cols| == |Columns| && c < |Columns|
    ensures FilterKey(GroupSeats(cols), SeatColumnOf, Columns[c]) == ColumnPlan(cols, c)
  {
    var m := MaxLen(cols);
    var sls := SlotsUpTo(cols, m);
    PlaceAllOfColumn(cols, sls, c);
    SlotsOfColumn(cols, m, c);
    assert (if m < |cols[c]| then m else |cols[c]|) == |cols[c]|;
    PlaceColumnRun(cols, c);
  }

  /** The closed forms of all six columns, column `A` first. */
  function ColumnPlans(cols: seq<seq<StudentRecord>>): (ps: seq<seq<SeatAssignment>>)
    requires |cols| == |Columns|
    ensures |ps| == |Columns|
  {
    seq(|Columns|, c requires 0 <= c < |Columns| => ColumnPlan(cols, c))
  }

  /** The plan is the six column closed forms, interleaved: nothing else is
      emitted and nothing is emitted twice. */
  lemma {:induction false} GroupSeatsPartition(cols: seq<seq<StudentRecord>>)
    requires |cols| == |Columns|
    ensures multiset(GroupSeats(cols)) == multiset(Concat(ColumnPlans(cols)))
  {
    var out := GroupSeats(cols);
    var sls := SlotsUpTo(cols, MaxLen(cols));
    ColumnLetters();
    forall i | 0 <= i < |out|
      ensures SeatColumnOf(out[i]) in Columns
    {
      assert out[i] == Place(cols, sls[i]);
    }
    PartitionMultiset(out, SeatColumnOf, Columns);
    forall c | 0 <= c < |Columns|
      ensures Partition(out, SeatColumnOf, Columns)[c] == ColumnPlans(cols)[c]
    {
      GroupSeatsByColumn(cols, c);
    }
    assert Partition(out, SeatColumnOf, Columns) == ColumnPlans(cols);
  }

  /** Reading the students back from the column closed forms gives the columns. */
  lemma {:induction false} StudentsOfPlans(cols: seq<seq<StudentRecord>>)
    requires |cols| == |Columns|
    ensures StudentsOfEach(ColumnPlans(cols)) == cols
  {
    var plans := ColumnPlans(cols);
    forall c | 0 <= c < |Columns|
      ensures StudentsOf(plans[c]) == cols[c]
    {
      var p := ColumnPlan(cols, c);
      forall i | 0 <= i < |p|
        ensures StudentOf(p[i]) == cols[c][i]
      {
        StudentOfSeated(cols[c][i], FirstRoom + i / MaxRows, Seat(Columns[c], i % MaxRows + 1));
      }
    }
  }

  /** Every student of the six columns is seated exactly once. */
  lemma {:induction false} GroupSeatsStudents(cols: seq<seq<StudentRecord>>)
    requires |cols| == |Columns|
    ensures multiset(StudentsOf(GroupSeats(cols))) == multiset(Concat(cols))
    ensures |GroupSeats(cols)| == |Concat(cols)|
  {
    var out, plans := GroupSeats(cols), ColumnPlans(cols);
    GroupSeatsPartition(cols);
    StudentsOfPermutation(out, Concat(plans));
    StudentsOfConcat(plans);
    StudentsOfPlans(cols);
    assert |out| == |multiset(StudentsOf(out))|;
  }

  /** The number of classrooms a group needs: one per six loop rows. */
  function RoomsNeeded(cols: seq<seq<StudentRecord>>): nat {
    (MaxLen(cols) + MaxRows - 1) / MaxRows
  }

  /** Some assignment of `out` is in classroom `r`. */
  predicate RoomUsed(out: seq<SeatAssignment>, r: nat) {
    exists i | 0 <= i < |out| :: out[i].classRoom == r
  }

  /** The classrooms used are exactly `101`, `102`, ... one per six rows of
      the longest column. */
  lemma {:induction false} GroupSeatsRooms(cols: seq<seq<StudentRecord>>)
    requires |cols| == |Columns|
    ensures forall r: nat :: RoomUsed(GroupSeats(cols), r) <==> FirstRoom <= r < FirstRoom + RoomsNeeded(cols)
  {
    var out := GroupSeats(cols);
    var m := MaxLen(cols);
    var sls := SlotsUpTo(cols, m);
    forall i | 0 <= i < |out|
      ensures FirstRoom <= out[i].classRoom < FirstRoom + RoomsNeeded(cols)
    {
      assert out[i] == Place(cols, sls[i]);
      var k := sls[i].row;
      assert 1 <= k <= m;
      assert (k - 1) / MaxRows <= (m - 1) / MaxRows;
    }
    forall r: nat | FirstRoom <= r < FirstRoom + RoomsNeeded(cols)
      ensures RoomUsed(out, r)
    {
      var q := r - FirstRoom;
      var c :| 0 <= c < |cols| && |cols[c]| == m;
      ColumnLetters();
      GroupSeatsByColumn(cols, c);
      var f := FilterKey(out, SeatColumnOf, Columns[c]);
      FilterKeyFrom(out, SeatColumnOf, Columns[c]);
      assert q * MaxRows < m;
      assert f[q * MaxRows].classRoom == r;
    }
  }

  /** Each assignment seats a student of the column its seat letter names. */
  lemma {:induction false} GroupSeatsFromColumns(cols: seq<seq<StudentRecord>>)
    requires |cols| == |Columns|
    ensures var out := GroupSeats(cols);
            forall i | 0 <= i < |out| ::
              && 0 <= ColumnIndex(SeatColumnOf(out[i])) < |Columns|
              && StudentOf(out[i]) in cols[ColumnIndex(SeatColumnOf(out[i]))]
  {
    var out := GroupSeats(cols);
    var sls := SlotsUpTo(cols, MaxLen(cols));
    ColumnLetters();
    forall i | 0 <= i < |out|
      ensures 0 <= ColumnIndex(SeatColumnOf(out[i])) < |Columns|
      ensures StudentOf(out[i]) in cols[ColumnIndex(SeatColumnOf(out[i]))]
    {
      var sl := sls[i];
      assert out[i] == Place(cols, sl);
      StudentOfSeated(cols[sl.col][sl.row - 1], ClassRoomOf(sl.row), Seat(Columns[sl.col], SeatRowOf(sl.row)));
    }
  }

  /** A student of any column is seated. */
  lemma {:induction false} GroupSeatsSeatsColumn(cols: seq<seq<StudentRecord>>, c: nat, s: StudentRecord)
    requires |cols| == |Columns| && c < |cols| && s in cols[c]
    ensures s in StudentsOf(GroupSeats(cols))
  {
    GroupSeatsStudents(cols);
    ConcatContains(cols, c);
    assert s in multiset(StudentsOf(GroupSeats(cols)));
  }
}
