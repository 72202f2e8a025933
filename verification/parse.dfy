/** Turning decoded spreadsheet rows into student records: build one candidate
    per row, then keep the candidates whose register number is present and
    non-empty (uploadController.js, the `map` and `filter` over the rows). */
module Parse {
  import opened Optional
  import opened Records
  import opened StudentField

  /** The object built for one row. An empty or missing `Student` cell gives
      no register number and the name `Unknown`. */
  function ExtractCandidate(row: Row): (c: Candidate)
    ensures c.department == row.branchName && c.exam == row.course
    ensures c.examDate == row.examDate && c.session == row.session
    ensures (row.student.None? || row.student.value == "") ==> c.registerNumber.None? && c.name == "Unknown"
    ensures row.student.Some? && row.student.value != "" ==>
              IsNamePart(row.student.value, c.name)
              && (c.registerNumber.None? <==>
                    forall i, j | 0 <= i < j < |row.student.value| :: !CanMatch(row.student.value, i, j))
  {
    match row.student
    case Some(s) =>
      if s == "" then Candidate(None, "Unknown", row.branchName, row.course, row.examDate, row.session)
      else Candidate(RegisterNumberMatch(s), NameBeforeSeparator(s), row.branchName, row.course,
                     row.examDate, row.session)
    case None => Candidate(None, "Unknown", row.branchName, row.course, row.examDate, row.session)
  }

  /** The filter's test: the register number is truthy, so present and non-empty. */
  predicate Kept(c: Candidate) {
    c.registerNumber.Some? && c.registerNumber.value != ""
  }

  /** The `Student` text carries a register number: its first parenthesised
      match has a non-empty capture. */
  predicate HasRegisterNumber(s: string) {
    exists i, j | 0 <= i < j < |s| :: IsFirstMatch(s, i, j) && i + 1 < j
  }

  /** The record a row contributes, if it survives the filter. */
  function ParseRow(row: Row): (r: Option<StudentRecord>)
    ensures r.Some? <==> row.student.Some? && HasRegisterNumber(row.student.value)
    ensures r.Some? ==>
              var s := row.student.value;
              && (exists i, j :: IsFirstMatch(s, i, j) && r.value.registerNumber == s[i + 1..j])
              && r.value.registerNumber != ""
              && IsNamePart(s, r.value.name)
              && r.value.department == row.branchName && r.value.exam == row.course
              && r.value.examDate == row.examDate && r.value.session == row.session
  {
    var c := ExtractCandidate(row);
    if Kept(c) then
      Some(StudentRecord(c.registerNumber.value, c.name, c.department, c.exam, c.examDate, c.session))
    else
      None
  }

  /** All kept records, in row order. */
  function ParseRows(rows: seq<Row>): (r: seq<StudentRecord>)
    ensures |r| <= |rows|
    ensures forall i | 0 <= i < |r| :: r[i].registerNumber != ""
    ensures forall i | 0 <= i < |r| :: exists k | 0 <= k < |rows| :: ParseRow(rows[k]) == Some(r[i])
    ensures forall k | 0 <= k < |rows| && ParseRow(rows[k]).Some? :: ParseRow(rows[k]).value in r
  {
    if |rows| == 0 then []
    else
      var rest := ParseRows(rows[1..]);
      assert forall k | 1 <= k < |rows| :: rows[k] == rows[1..][k - 1];
      match ParseRow(rows[0])
      case Some(s) => [s] + rest
      case None => rest
  }

  /** Parsing distributes over concatenation, so kept rows keep their
      relative order. */
  lemma {:induction false} ParseRowsAppend(a: seq<Row>, b: seq<Row>)
    ensures ParseRows(a + b) == ParseRows(a) + ParseRows(b)
  {
    if |a| == 0 {
      assert a + b == b;
    } else {
      assert (a + b)[1..] == a[1..] + b;
      ParseRowsAppend(a[1..], b);
    }
  }

  /** A cell of the documented shape `<name> (<register number>)` parses to
      that name and register number, provided the name has no `(` and the
      register number is non-empty, single-line and has no `)`; a sheet of
      that one row yields that one record. */
  lemma {:induction false} ParseNameAndNumber(cell: string, name: string, reg: string, branch: string,
                                              course: string, date: string, session: string)
    requires cell == name + " (" + reg + ")"
    requires '(' !in name
    requires |reg| > 0 && ')' !in reg && forall m | 0 <= m < |reg| :: !IsLineTerminator(reg[m])
    ensures ParseRow(Row(Some(cell), branch, course, date, session))
            == Some(StudentRecord(reg, name, branch, course, date, session))
    ensures ParseRows([Row(Some(cell), branch, course, date, session)])
            == [StudentRecord(reg, name, branch, course, date, session)]
  {
    var s := cell;
    var i, j := |name| + 1, |s| - 1;
    assert forall m | 0 <= m < |name| :: s[m] == name[m];
    assert forall m | i < m < j :: s[m] == reg[m - i - 1];
    assert s[i + 1..j] == reg;
    assert s[..|name|] == name;
    assert IsFirstMatch(s, i, j);
    assert IsNamePart(s, name);
    NamePartUnique(s, NameBeforeSeparator(s), name);
    var row := Row(Some(cell), branch, course, date, session);
    assert [row][1..] == [];
    assert ParseRows([row][1..]) == [];
  }

  /** The row `Asha (REG001)` gives register number `REG001` and name `Asha`. */
  lemma {:induction false} ParseExampleRow()
    ensures ParseRow(Row(Some("Asha (REG001)"), "CS", "Maths", "2024-05-01", "Forenoon"))
            == Some(StudentRecord("REG001", "Asha", "CS", "Maths", "2024-05-01", "Forenoon"))
  {
    var s := "Asha (REG001)";
    assert IsFirstMatch(s, 5, 12);
    assert s[6..12] == "REG001";
    NamePartUnique(s, NameBeforeSeparator(s), "Asha");
  }

  /** Only the first parenthesised match counts: an empty `()` before the
      register number drops the row although `(REG001)` follows. */
  lemma {:induction false} EmptyFirstMatchDropsRow()
    ensures ParseRow(Row(Some("Asha () (REG001)"), "CS", "Maths", "2024-05-01", "Forenoon")).None?
  {
    var s := "Asha () (REG001)";
    assert IsFirstMatch(s, 5, 6);
  }
}
