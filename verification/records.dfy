/** The records that flow through the upload pipeline: a decoded spreadsheet
    row, the student record parsed from it, and the seat assignment that is
    stored (shape of the `Student` schema in models/studentModel.js). */
module Records {
  import opened Optional
  import opened Seqs
  import Decimal

  /** One decoded spreadsheet row. `student` is the `Student` cell, absent
      when the cell is empty; the other cells are `Branch Name`, `Course`,
      `Exam Date` and `Session`. */
  datatype Row = Row(student: Option<string>, branchName: string, course: string,
                     examDate: string, session: string)

  /** The object built for each row before filtering: `registerNumber` is
      absent when the register-number pattern did not match. */
  datatype Candidate = Candidate(registerNumber: Option<string>, name: string, department: string,
                                 exam: string, examDate: string, session: string)

  /** A student kept by the filter. */
  datatype StudentRecord = StudentRecord(registerNumber: string, name: string, department: string,
                                         exam: string, examDate: string, session: string)

  /** A seat: column letter and row number inside one classroom. */
  datatype Seat = Seat(column: char, row: nat)

  /** A seat assignment, with the classroom kept as its number. */
  datatype SeatAssignment = SeatAssignment(registerNumber: string, name: string, department: string,
                                           subject: string, classRoom: nat, seatNumber: Seat,
                                           examDate: string, session: string)

  /** A seat assignment as the stored document holds it, every field a string. */
  datatype StoredStudent = StoredStudent(registerNumber: string, name: string, department: string,
                                         subject: string, classRoom: string, seatNumber: string,
                                         examDate: string, session: string)

  function RegisterOf(r: StudentRecord): string { r.registerNumber }

  function DepartmentOf(r: StudentRecord): string { r.department }

  /** The key students are grouped by: exam date and session joined by `-`. */
  function DateSessionKey(r: StudentRecord): string { r.examDate + "-" + r.session }

  /** The same key, read off a seat assignment. */
  function AssignmentKey(a: SeatAssignment): string { a.examDate + "-" + a.session }

  function SeatColumnOf(a: SeatAssignment): char { a.seatNumber.column }

  /** The emitted record for `s` in classroom `room` at `seat`; the course
      becomes the subject. */
  function Seated(s: StudentRecord, room: nat, seat: Seat): (a: SeatAssignment)
    ensures a.classRoom == room && a.seatNumber == seat
    ensures AssignmentKey(a) == DateSessionKey(s)
    ensures StudentOf(a) == s
  {
    SeatAssignment(s.registerNumber, s.name, s.department, s.exam, room, seat, s.examDate, s.session)
  }

  /** The student a seat assignment was made for. */
  function StudentOf(a: SeatAssignment): StudentRecord
  {
    StudentRecord(a.registerNumber, a.name, a.department, a.subject, a.examDate, a.session)
  }

  /** Seating copies every student field: the student can be read back. */
  lemma {:induction false} StudentOfSeated(s: StudentRecord, room: nat, seat: Seat)
    ensures StudentOf(Seated(s, room, seat)) == s
  {
  }

  function StudentsOf(seats: seq<SeatAssignment>): (r: seq<StudentRecord>)
    ensures |r| == |seats|
    ensures forall i | 0 <= i < |seats| :: r[i] == StudentOf(seats[i])
  {
    seq(|seats|, i requires 0 <= i < |seats| => StudentOf(seats[i]))
  }

  lemma {:induction false} StudentsOfAppend(a: seq<SeatAssignment>, b: seq<SeatAssignment>)
    ensures StudentsOf(a + b) == StudentsOf(a) + StudentsOf(b)
  {
  }

  function StudentsOfEach(ss: seq<seq<SeatAssignment>>): (ts: seq<seq<StudentRecord>>)
    ensures |ts| == |ss|
  {
    seq(|ss|, i requires 0 <= i < |ss| => StudentsOf(ss[i]))
  }

  /** Reading back the students of each part, then joining, is reading back the whole. */
  lemma {:induction false} StudentsOfConcat(ss: seq<seq<SeatAssignment>>)
    ensures StudentsOf(Concat(ss)) == Concat(StudentsOfEach(ss))
  {
    if |ss| > 0 {
      StudentsOfConcat(ss[1..]);
      assert StudentsOfEach(ss)[1..] == StudentsOfEach(ss[1..]);
      StudentsOfAppend(ss[0], Concat(ss[1..]));
    }
  }

  lemma {:induction false} MultisetRemove<T>(b: seq<T>, j: nat)
    requires j < |b|
    ensures multiset(b) == multiset(b[..j] + b[j + 1..]) + multiset{b[j]}
  {
    assert b == b[..j] + [b[j]] + b[j + 1..];
  }

  lemma {:induction false} MultisetCancel<T>(p: multiset<T>, q: multiset<T>, x: T)
    requires p + multiset{x} == q + multiset{x}
    ensures p == q
  {
    assert forall y :: p[y] == (p + multiset{x})[y] - (if y == x then 1 else 0);
    assert forall y :: q[y] == (q + multiset{x})[y] - (if y == x then 1 else 0);
  }

  /** Taking the same element out of two rearrangements of each other leaves
      two rearrangements of each other. */
  lemma {:induction false} MultisetRemoveBoth<T>(a: seq<T>, b: seq<T>, j: nat)
    requires |a| > 0 && j < |b| && b[j] == a[0] && multiset(a) == multiset(b)
    ensures multiset(a[1..]) == multiset(b[..j] + b[j + 1..])
  {
    MultisetRemove(a, 0);
    MultisetRemove(b, j);
    assert a[..0] + a[1..] == a[1..];
    MultisetCancel(multiset(a[1..]), multiset(b[..j] + b[j + 1..]), a[0]);
  }

  /** Taking one assignment out of a sequence takes its student out of the read-back. */
  lemma {:induction false} StudentsOfRemove(b: seq<SeatAssignment>, j: nat)
    requires j < |b|
    ensures multiset(StudentsOf(b)) == multiset(StudentsOf(b[..j] + b[j + 1..])) + multiset{StudentOf(b[j])}
  {
    var sb := StudentsOf(b);
    assert StudentsOf(b[..j] + b[j + 1..]) == sb[..j] + sb[j + 1..];
    MultisetRemove(sb, j);
  }

  /** Rearranging the assignments rearranges the students read back from them. */
  lemma {:induction false} StudentsOfPermutation(a: seq<SeatAssignment>, b: seq<SeatAssignment>)
    requires multiset(a) == multiset(b)
    ensures multiset(StudentsOf(a)) == multiset(StudentsOf(b))
  {
    if |a| == 0 {
      assert |b| == |multiset(b)| == 0;
    } else {
      var x := a[0];
      assert x in multiset(b);
      var j :| 0 <= j < |b| && b[j] == x;
      var rest := b[..j] + b[j + 1..];
      MultisetRemoveBoth(a, b, j);
      StudentsOfPermutation(a[1..], rest);
      assert a[..0] + a[1..] == a[1..];
      StudentsOfRemove(a, 0);
      StudentsOfRemove(b, j);
      calc {
        multiset(StudentsOf(a));
        multiset(StudentsOf(a[1..])) + multiset{StudentOf(x)};
        multiset(StudentsOf(rest)) + multiset{StudentOf(x)};
        multiset(StudentsOf(b));
      }
    }
  }

  /** A canonical decimal numeral: digits only, no leading zero (except `0`). */
  predicate IsNumeral(s: string) {
    && |s| >= 1
    && (forall i | 0 <= i < |s| :: '0' <= s[i] <= '9')
    && (s[0] == '0' ==> |s| == 1)
  }

  /** `Room <n>`: the word, a space, and the canonical numeral of `n`. */
  function RenderClassRoom(room: nat): (s: string)
    ensures |s| > 5 && s[..5] == "Room "
    ensures IsNumeral(s[5..]) && Decimal.ParseDecimal(s[5..]) == room
  {
    Decimal.ParseNatToString(room);
    var r := "Room " + Decimal.NatToString(room);
    assert r[5..] == Decimal.NatToString(room);
    r
  }

  /** Column letter followed by the canonical numeral of the row, as in `C4`. */
  function RenderSeat(seat: Seat): (s: string)
    ensures |s| >= 2 && s[0] == seat.column
    ensures IsNumeral(s[1..]) && Decimal.ParseDecimal(s[1..]) == seat.row
    ensures 1 <= seat.row <= 9 ==> |s| == 2
  {
    Decimal.ParseNatToString(seat.row);
    var r := [seat.column] + Decimal.NatToString(seat.row);
    assert r[1..] == Decimal.NatToString(seat.row);
    r
  }

  /** The rendered strings for a few counter values. */
  lemma {:induction false} RenderExamples()
    ensures RenderClassRoom(101) == "Room 101"
    ensures RenderClassRoom(1000) == "Room 1000"
    ensures RenderSeat(Seat('C', 4)) == "C4"
    ensures RenderSeat(Seat('F', 6)) == "F6"
    ensures RenderSeat(Seat('A', 1)) == "A1" && RenderSeat(Seat('B', 1)) == "B1"
  {
    assert Decimal.NatToString(1) == "1";
    assert Decimal.NatToString(10) == "10";
    assert Decimal.NatToString(101) == "101";
    assert Decimal.NatToString(100) == "100";
    assert Decimal.NatToString(1000) == "1000";
    assert Decimal.NatToString(4) == "4";
    assert Decimal.NatToString(6) == "6";
  }

  lemma {:induction false} RenderClassRoomInjective(m: nat, n: nat)
    requires RenderClassRoom(m) == RenderClassRoom(n)
    ensures m == n
  {
    var a, b := Decimal.NatToString(m), Decimal.NatToString(n);
    assert a == RenderClassRoom(m)[5..];
    assert b == RenderClassRoom(n)[5..];
    Decimal.NatToStringInjective(m, n);
  }

  lemma {:induction false} RenderSeatInjective(x: Seat, y: Seat)
    requires RenderSeat(x) == RenderSeat(y)
    ensures x == y
  {
    var a, b := Decimal.NatToString(x.row), Decimal.NatToString(y.row);
    assert a == RenderSeat(x)[1..];
    assert b == RenderSeat(y)[1..];
    Decimal.NatToStringInjective(x.row, y.row);
  }

  /** The document written for an assignment: the text fields as they are,
      classroom and seat rendered. */
  function Stored(a: SeatAssignment): (d: StoredStudent)
    ensures d.registerNumber == a.registerNumber && d.name == a.name && d.department == a.department
    ensures d.subject == a.subject && d.examDate == a.examDate && d.session == a.session
    ensures d.classRoom == RenderClassRoom(a.classRoom)
    ensures d.seatNumber == RenderSeat(a.seatNumber)
  {
    StoredStudent(a.registerNumber, a.name, a.department, a.subject,
                  RenderClassRoom(a.classRoom), RenderSeat(a.seatNumber), a.examDate, a.session)
  }

  /** Two stored documents with the same classroom and seat strings came from
      assignments with the same classroom number and seat. */
  lemma {:induction false} StoredPlaceInjective(a: SeatAssignment, b: SeatAssignment)
    requires Stored(a).classRoom == Stored(b).classRoom
    requires Stored(a).seatNumber == Stored(b).seatNumber
    ensures a.classRoom == b.classRoom && a.seatNumber == b.seatNumber
  {
    RenderClassRoomInjective(a.classRoom, b.classRoom);
    RenderSeatInjective(a.seatNumber, b.seatNumber);
  }

  /** The same in the other direction: different places are stored as
      different strings. */
  lemma {:induction false} StoredPlaceDistinct(a: SeatAssignment, b: SeatAssignment)
    requires (a.classRoom, a.seatNumber) != (b.classRoom, b.seatNumber)
    ensures (Stored(a).classRoom, Stored(a).seatNumber) != (Stored(b).classRoom, Stored(b).seatNumber)
  {
    var ra, rb := Stored(a).classRoom, Stored(b).classRoom;
    var sa, sb := Stored(a).seatNumber, Stored(b).seatNumber;
    if a.classRoom != b.classRoom {
      assert Decimal.ParseDecimal(ra[5..]) != Decimal.ParseDecimal(rb[5..]);
    } else if a.seatNumber.column != b.seatNumber.column {
      assert sa[0] != sb[0];
    } else {
      assert Decimal.ParseDecimal(sa[1..]) != Decimal.ParseDecimal(sb[1..]);
    }
  }

  /** The grouping key is plain concatenation, so two different
      (date, session) pairs share a key when a dash can move between them. */
  lemma {:induction false} DateSessionKeyCollides()
    ensures var x := StudentRecord("R1", "N", "CS", "C", "2024-05", "01-Forenoon");
            var y := StudentRecord("R2", "M", "CS", "C", "2024", "05-01-Forenoon");
            DateSessionKey(x) == DateSessionKey(y) && (x.examDate, x.session) != (y.examDate, y.session)
  {
    var x := StudentRecord("R1", "N", "CS", "C", "2024-05", "01-Forenoon");
    var y := StudentRecord("R2", "M", "CS", "C", "2024", "05-01-Forenoon");
    assert x.examDate != y.examDate by { assert |x.examDate| != |y.examDate|; }
  }

  /** Without a dash in either session (the stored schema only admits
      `Forenoon` and `Afternoon`), equal keys mean the same date and session. */
  lemma {:induction false} DateSessionKeyInjective(x: StudentRecord, y: StudentRecord)
    requires '-' !in x.session && '-' !in y.session
    requires DateSessionKey(x) == DateSessionKey(y)
    ensures x.examDate == y.examDate && x.session == y.session
  {
    var kx, ky := DateSessionKey(x), DateSessionKey(y);
    // The date ends right before the last dash of the key.
    assert kx[|x.examDate|] == '-' && forall i | |x.examDate| < i < |kx| :: kx[i] != '-';
    assert ky[|y.examDate|] == '-' && forall i | |y.examDate| < i < |ky| :: ky[i] != '-';
    assert |x.examDate| == |y.examDate|;
    assert x.examDate == kx[..|x.examDate|];
    assert y.examDate == ky[..|y.examDate|];
    assert x.session == kx[|x.examDate| + 1..];
    assert y.session == ky[|y.examDate| + 1..];
  }
}
