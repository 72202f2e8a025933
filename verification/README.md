# Exam seat allocation — a Dafny model of the upload pipeline

This project models the seat-allocation pipeline of the exam manager's
spreadsheet upload handler (`uploadExcel`). The handler takes the decoded rows
of the uploaded sheet and produces one seat assignment per seated student.
Its steps:

1. **Parse** each row (`Parse`, `StudentField`). The register number is the
   capture of `/\((.*?)\)/` on the `Student` cell. The name is the first piece
   of `split(" (")`. The other cells are copied. Rows whose register number is
   missing or empty are dropped.
2. **Sort** the kept records stably by register number (`RegisterSort`).
   `localeCompare` is abstracted as lexicographic order on characters
   (`LexOrder`).
3. **Group** the records by the key `examDate + "-" + session`. Inside each
   group, group again by department. Both groupings are insertion-ordered
   association lists (`Grouping`).
4. **Lay out** one group (`Layout`). The first six departments get the
   columns `A`-`F`; later departments get none.
5. **Seat** the group (`Seating`). The row/column loop takes the `k`-th
   student of every column, left to right, for `k = 1, 2, ...`. Its two
   counters put that student at seat row `(k - 1) % 6 + 1` in classroom
   `101 + (k - 1) / 6`. The counters restart in every date-session group.

`Allocation` puts the stages together:
- `Allocate` is the functional definition of the whole handler.
- `Upload` chains the stages. Parsing, sorting and grouping are functions
  there, not the handler's `map`, `filter` and `forEach`.
- `SeatAllGroups` is a loop over the date-session groups, and `SeatOneGroup`
  seats one group. The only seat loop proved against an independent
  description is `Seating.AssignSeats`, the row/column loop with its
  counters, whose output `GroupSeatsByColumn` ties to the closed form.
- The contracts of these three methods state the properties of what they
  emit: the order, no shared seat, who is seated, and the per-key split.

`Records` holds the record shapes. The stored document follows the
`Student` schema. A classroom is kept as its number and a seat as a
(column, row) pair. `Stored` renders both as the strings the handler stores
(`Room 101`, `C4`); `Decimal` supplies the numeral rendering and its inverse.

## Model

| member | source | states |
|---|---|---|
| StudentField.RegisterNumberMatch | controllers/uploadController.js:19-22 | No value exactly when no `(` is followed by a `)` with no line terminator between them; otherwise the value is the text strictly inside the leftmost, shortest such match |
| StudentField.NameBeforeSeparator | controllers/uploadController.js:23 | The name is the prefix of the cell before the first ` (`, or the whole cell when there is none; it is not trimmed |
| Parse.ExtractCandidate | controllers/uploadController.js:17-28 | An empty or missing cell gives no register number and the name `Unknown`; branch, course, date and session are copied verbatim |
| Parse.ParseRow | controllers/uploadController.js:17-29 | A row is kept exactly when the first regular-expression match has a non-empty capture; a kept record carries that capture, the name prefix and the copied cells |
| Parse.ParseRows | controllers/uploadController.js:17-29 | Every kept record comes from some row, every row that parses contributes its record, and no kept record has an empty register number |
| Parse.ParseRowsAppend | controllers/uploadController.js:17-29 | Parsing distributes over concatenation of the rows, so kept rows keep their input order |
| Parse.ParseNameAndNumber | controllers/uploadController.js:17-29 | A cell `<name> (<register number>)` whose name has no `(` and whose register number is non-empty, single-line and free of `)` gives exactly that name and register number, and a one-row sheet of it yields that one record |
| Parse.ParseExampleRow | controllers/uploadController.js:19-23 | `Asha (REG001)` yields register number `REG001` and name `Asha` |
| Parse.EmptyFirstMatchDropsRow | controllers/uploadController.js:19-29 | Only the first match counts: `Asha () (REG001)` is dropped although a later parenthesis holds a register number |
| LexOrder.LexLeTotal | controllers/uploadController.js:34 | The comparison used for sorting is total |
| LexOrder.LexLeTransitive | controllers/uploadController.js:34 | The comparison used for sorting is transitive |
| LexOrder.LexLeAntisymmetric | controllers/uploadController.js:34 | Strings that compare both ways are equal |
| RegisterSort.SortBy | controllers/uploadController.js:34 | The sorted list is a permutation of its input |
| RegisterSort.SortBySorted | controllers/uploadController.js:34 | The sorted list is ascending by register number |
| RegisterSort.SortByStable | controllers/uploadController.js:34 | Records with the same register number keep their relative order |
| RegisterSort.FilterKeySorted | controllers/uploadController.js:34-44 | Any sub-list picked by key from a sorted list is still sorted |
| Grouping.GroupByIsGrouping | controllers/uploadController.js:39-44 | Keys are distinct; each group holds exactly the elements with its key, in input order; no group is empty; every element has a group; groups appear in first-seen key order |
| Grouping.GroupByPartition | controllers/uploadController.js:39-44 | Read one after the other, the groups are a permutation of the input |
| Grouping.GroupByKeys | controllers/uploadController.js:58-62 | Every member carries its group's key and every element's key has a group |
| Grouping.GroupByOneKey | controllers/uploadController.js:58-62 | Elements that all share one key form a single group holding all of them, in input order |
| Grouping.NoGroupNoElement | controllers/uploadController.js:39-44 | A key that has no group is carried by no element |
| Records.DateSessionKeyCollides | controllers/uploadController.js:41 | The key is plain concatenation: two different (date, session) pairs can share it when a dash moves between them |
| Records.DateSessionKeyInjective | controllers/uploadController.js:41 | When neither session contains a dash, equal keys mean equal date and session |
| Layout.FirstColumnsSpec | controllers/uploadController.js:73-75 | Exactly the listed departments get a letter, and the i-th gets the i-th letter of `ABCDEF` |
| Layout.FirstColumnsInjective | controllers/uploadController.js:73-75 | Different departments get different letters |
| Layout.DepartmentColumns | controllers/uploadController.js:65-75 | The i-th department met gets letter i when i < 6; departments from the seventh on get no letter; the map is injective |
| Layout.ColumnStudentsFollowMap | controllers/uploadController.js:78-86 | Each column holds the members of the department mapped to its letter; a letter nobody maps to gets an empty column |
| Layout.ColumnStudentsConcat | controllers/uploadController.js:78-86 | Read `A` to `F`, the columns are the first six departments' members in department order |
| Seating.MaxLen | controllers/uploadController.js:89 | The result bounds every column and is the size of one of them |
| Seating.LoopRowRecovered | controllers/uploadController.js:114-120 | Classroom and seat row together determine the loop row |
| Seating.CounterStep | controllers/uploadController.js:114-120 | The seat row advances by one and wraps to 1 after row 6, moving to the next classroom |
| Seating.AssignRow | controllers/uploadController.js:93-112 | One pass of the column loop appends exactly the slots of that loop row, `A` to `F`, at the counters' room and seat |
| Seating.AssignSeats | controllers/uploadController.js:88-121 | The loop with its wrapping counters emits the slot-by-slot plan `GroupSeats`, which `GroupSeatsByColumn` ties to the closed form |
| Seating.GroupSeatsByColumn | controllers/uploadController.js:92-97 | Column `c` of the plan is its students in order, the `k`-th at seat row `(k-1)%6+1` in classroom `101+(k-1)/6` |
| Seating.GroupSeatsBounds | controllers/uploadController.js:93-97 | Every seat is in a column `A`-`F`, in seat row 1 to 6, in a classroom numbered 101 or more |
| Seating.GroupSeatsOrder | controllers/uploadController.js:92-112 | Output is ordered: earlier classroom, or earlier seat row, or the same row further left |
| Seating.GroupSeatsUnique | controllers/uploadController.js:96-97 | No two assignments of a group share classroom and seat, as numbers or as stored strings |
| Seating.GroupSeatsStudents | controllers/uploadController.js:92-112 | The students seated are a permutation of the column contents: each emitted exactly once |
| Seating.GroupSeatsRooms | controllers/uploadController.js:88-121 | The classrooms used are exactly 101 through 100 + ceil(longest column / 6) |
| Seating.TwoColumnsFirstRow | controllers/uploadController.js:92-121 | Two one-student columns `A` and `B` are seated at `A1` and `B1` of classroom 101, in that order |
| Seating.GroupSeatsFromColumns | controllers/uploadController.js:93-95 | Each seated student comes from the column whose letter the seat carries |
| Records.StudentOfSeated | controllers/uploadController.js:99-108 | The emitted record copies register number, name, department, date and session, and its subject is the course |
| Records.Seated | controllers/uploadController.js:94-108 | The emitted record holds the classroom and seat it is given and the student's date-session key, and reading the student back from it gives the student |
| Records.RenderClassRoom | controllers/uploadController.js:97 | The stored classroom is `Room ` followed by a decimal numeral with no leading zero that reads back as the counter |
| Records.RenderSeat | controllers/uploadController.js:96 | The stored seat is the column letter followed by a decimal numeral with no leading zero that reads back as the seat row; one digit for rows 1 to 9 |
| Records.RenderExamples | controllers/uploadController.js:96-97 | Counters 101 and 1000 give `Room 101` and `Room 1000`; seats (`C`, 4), (`F`, 6), (`A`, 1) and (`B`, 1) give `C4`, `F6`, `A1` and `B1` |
| Records.Stored | controllers/uploadController.js:99-108 | The stored document keeps register number, name, department, subject, date and session as they are, and holds the rendered classroom and seat |
| Records.StoredPlaceDistinct | controllers/uploadController.js:96-97 | Different classrooms or seats are stored as different strings |
| Records.StoredPlaceInjective | controllers/uploadController.js:96-97 | Equal stored classroom and seat strings come from equal classroom numbers and seats |
| Decimal.ParseNatToString | controllers/uploadController.js:96-97 | Reading back the rendered counter gives the counter |
| Allocation.SeatOneGroup | controllers/uploadController.js:55-121 | One group's seats come out row by row, `A` to `F` within a row; no two share classroom and seat; only members are seated, each at most once, and every member when the group has at most six departments |
| Allocation.SeatAllGroups | controllers/uploadController.js:52-122 | The students seated are each group's, in group order; only members are seated, and all of them when no group has more than six departments; with distinct group keys, selecting one key gives exactly that group's seats |
| Allocation.PlanEachSeats | controllers/uploadController.js:52-122 | The same four facts about the groups' plans laid one after the other |
| Allocation.Upload | controllers/uploadController.js:17-122 | For every date-session key, the output with that key is that key's sorted records seated on their own; within a key, output is row by row and no classroom and seat repeat; only kept records are seated, each at most once, and all of them when no group has more than six departments |
| Allocation.SeatGroupColumns | controllers/uploadController.js:84-95 | Every student seated in a group is a member, and sits in the column its department maps to |
| Allocation.SeatGroupSeated | controllers/uploadController.js:65-95 | A member is seated exactly when its department is one of the first six |
| Allocation.SeatGroupUnmapped | controllers/uploadController.js:67-75 | A department the map leaves out gets no seat |
| Allocation.SeatGroupStudents | controllers/uploadController.js:65-112 | A group seats the members of its first six departments, each once; the count of assignments is their total size |
| Allocation.SeatGroupEveryone | controllers/uploadController.js:58-112 | With at most six departments, every member of the group is seated exactly once |
| Allocation.AllocateByKey | controllers/uploadController.js:52-122 | The assignments with one date-session key are exactly that key's sorted records seated on their own |
| Allocation.GroupsSorted | controllers/uploadController.js:34-44 | Each date-session group is sorted by register number |
| Allocation.AllocateOrdered | controllers/uploadController.js:92-112 | Within one date-session key, output is row by row, columns `A` to `F` in a row |
| Allocation.AllocateUnique | controllers/uploadController.js:52-121 | No two assignments with the same key share classroom and seat, as numbers or as stored strings |
| Allocation.AllocateRoomsByKey | controllers/uploadController.js:52-121 | Classrooms are reused across keys: the assignments of each date-session key use exactly classrooms 101 to 100 + ceil(longest department column of that key / 6) |
| Allocation.DateSessionPartition | controllers/uploadController.js:39-44 | The date-session groups are a permutation of the kept records |
| Allocation.AllocateStudents | controllers/uploadController.js:29-122 | Only kept records are seated, none twice; with at most six departments per group, every kept record is seated exactly once |
| Allocation.SeatOneDepartment | controllers/uploadController.js:58-121 | A group whose members all share one department uses exactly classrooms 101 to 100 + ceil(n / 6) for its n members |
| Allocation.OneDepartmentOf37 | controllers/uploadController.js:58-121 | Thirty-seven students of one department use classrooms 101 to 107, although two rooms of six full columns hold them |
| Allocation.ParseTwoCells | controllers/uploadController.js:17-29 | Two `<name> (<reg>)` cells of the same exam are both kept and parse, in order, to their two records |
| Allocation.SeatTwoStudents | controllers/uploadController.js:52-121 | Two sorted students of the same date and session but different departments get `A1` and `B1` of classroom 101 |
| Allocation.TwoStudentSheet | controllers/uploadController.js:17-122 | The sheet `Asha (REG001)` (CS) and `Badri (REG002)` (EC), same date and session, yields Asha at `Room 101`, `A1` and Badri at `Room 101`, `B1`, in that order |
| Allocation.PlanEachByKey | controllers/uploadController.js:52-55 | For keyed plans of distinctly keyed groups, selecting one key gives that group's plan, or nothing |
| Allocation.PlanEachOrder | controllers/uploadController.js:52-55 | Appending plans keyed by distinct groups keeps each group's own order |
| Allocation.PlanEachStudents | controllers/uploadController.js:52-55 | The students seated by all the plans are those of each plan, in group order |

## Left out

- Spreadsheet decoding (`xlsx.readFile`, `sheet_to_json`) is a foreign library. The input is a sequence of already-decoded rows. The `Student` cell is modelled as an optional string, and the other cells as strings; a non-string `Student` cell, which would make `.match` throw, is not modelled.
- Persistence (`Student.insertMany`) is left out. It is a plain insert, so uploading twice stores duplicates; the model claims no idempotence and no insert/update counts.
- Schema validation (the required fields and the `Forenoon`/`Afternoon` enum in models/studentModel.js) belongs to the database library, and the schema is used only for the record shape. The model keeps rows the schema would reject: the cell ` (R1)` gives a record with an empty name, and a session such as `FN` passes through unchanged. The handler answers 201 (line 146) whether or not any row was kept. If the schema rejects a record (an empty field, or a session other than Forenoon/Afternoon), `insertMany` fails and the handler answers 500 from the catch at lines 150-152.
- The HTTP response, the missing-file check, the error handler, and logging (`console.log`, `console.warn`) are left out. So is the commented-out Excel export.
- Authentication, routing and the filesystem helper are plumbing outside the pipeline.
- The report renderer (`downloadSeatAllocation`) is not part of this model.
- RegisterSort.SortBy: `localeCompare` is locale-dependent; the model sorts by plain lexicographic order on characters.
- Layout.DepartmentColumns: `Object.keys` lists integer-like property names (such as `"12"`) first, in numeric order, before the others. The model uses first-seen order for all department names. Date-session keys always contain a dash, so they are never integer-like and their first-seen order is exact.
- Department names inherited from `Object.prototype`, such as `constructor`, `toString` or `__proto__`, are treated like any other name. The model seats these students. In the handler, `groupedByDepartment[dept]` is already truthy for such a name, so the `push` at line 61 throws a TypeError. The catch at lines 150-152 then answers 500, and nothing is inserted.
- The number of classrooms follows the code: ceil(longest column / 6), as `Seating.GroupSeatsRooms` states. One might expect a group of N students in at most six departments to need ceil(N / 36) classrooms. The code can use more when the columns are uneven: one department of 37 students takes 7 classrooms, not 2 (`Allocation.OneDepartmentOf37`). Nothing here promises ceil(N / 36).
- Allocation.AllocateStudents: promises every kept record a seat only when no group has more than six departments; beyond six, the handler seats the first six and silently drops the rest, and the lemma states exactly that bound.
- The handler does not trim the name or the register number, has no fallback that searches for a bare alphanumeric token, does no upsert with inserted/updated/unchanged counts, and gives no "no valid records" result; the model does none of these either.
