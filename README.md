# Student portal data layer

This is a Dafny model of the data layer of a single-file PHP student portal, `StudentTrack.php`. The portal keeps three MySQL tables:

- `students`: auto-increment id, unique roll number, name, class and skills;
- `attendance`: one row per student and date, status Present or Absent;
- `marks`: any number of rows per student, subject and term, each a non-negative mark.

Three POST handlers write to these tables:

- `add_student` inserts a student;
- `add_attendance` upserts an attendance row;
- `add_marks` appends a mark row.

On the read side, `get_students` lists the students with an optional search and an optional class filter, newest first. `get_dashboard_rows` adds each listed student's attendance percentage and average mark. The CSV export runs the same aggregation over every student. The dashboard also sorts each row into one of three health tiers.

Modules:

- `Text`: the `clean` helper (PHP `trim` with its default character set, and a missing field reads as `""`). It also holds the comparisons the `utf8mb4_unicode_ci` collation makes: equality, and the `LIKE '%q%'` substring search.
- `Schema`: the rows, the database as a value (`Tables`), and `Valid`. `Valid` states the constraints of the table definitions:
  - ids are issued by the counter and increase;
  - rolls are unique under the collation;
  - `(student_id, date)` is unique;
  - both foreign keys hold;
  - `CHECK (marks >= 0)` holds.
- `Metrics`: the figures derived from the tables. These are the per-student counts and sums, the attendance percentage with its zero-total guard, the average mark with its default of 0, `round(x, 2)`, and the health tiers.
- `Commands`: each handler as a function from the tables to an outcome and new tables. The lemmas prove that each handler keeps `Valid`, and state exactly when it writes and what it writes. A statement that violates a constraint raises an exception that the request catches (`StudentTrack.php:182-184`), so it writes nothing.
- `Queries`: the WHERE clause of the listing, the listing itself, the dashboard/report rows, and the CSV export query.
- `Portal`: the class `Database`. Its fields are the three tables and the AUTO_INCREMENT counter:
  - the handlers are methods that update the fields in place;
  - `get_dashboard_rows` is a method with the source's loops: `AttendanceAggregates` and `MarkAggregates` each make one pass over the raw `attendance` or `marks` rows, doing in that pass both the `GROUP BY ... SUM/COUNT/AVG` query (`StudentTrack.php:220-221`, `228-229`) and the `foreach` that fills `$attMap` or `$markMap` (`223-225`, `231-233`); `ComposeRows` is the `foreach` over the listed students;
  - `get_students` has no loop in the source: its two `if`s that build the WHERE clause are `Queries.Conditions`, and the loop in `GetStudents` stands for the database's scan behind `SELECT ... ORDER BY id DESC`;
  - the handlers, `GetStudents`, `ComposeRow`, `ComposeRows` and `DashboardRows` are proved against the matching function of `Commands` or `Queries`;
  - the two aggregate loops, `AttendanceAggregates` and `MarkAggregates`, are proved against the counts and sums of `Metrics` (`PresentCount`, `TotalCount`, `MarkSum`, `MarkCount`).

Collation and SQL-mode assumptions:

- The collation is modelled by ASCII case folding (`Text.Fold`). It applies to the UNIQUE roll, to `class = ?`, to `LIKE`, and to matching the status against the ENUM labels.
- The server is taken to run in strict SQL mode, so a status that is not an ENUM label is an error and nothing is written.
- `CHECK (marks >= 0)` is taken to be enforced, as MySQL does from 8.0.16.

Numeric behaviour:

- The export computes the percentage in SQL and the dashboard computes it in PHP. Both are modelled by one exact formula, `Round2(present * 100 / total)`. MySQL's decimal division keeps four decimals and rounds half up; multiplying by 100 and rounding to two decimals then gives the same value as rounding the exact value.

## Model

| member | source | states |
|---|---|---|
| Text.Trim | StudentTrack.php:83-85 | PHP `trim` with its default character set; specified by `Text.TrimSpec` and `Text.TrimKeeps` |
| Text.Clean | StudentTrack.php:83-85 | `clean`: a missing field is the empty string, a posted one is trimmed; specified by `Text.CleanBlank` and `Text.CleanIdempotent` |
| Text.TrimLeftSpec | StudentTrack.php:83-85 | dropping leading whitespace keeps a suffix of the input, removes only whitespace, and stops at a non-whitespace character |
| Text.TrimRightSpec | StudentTrack.php:83-85 | dropping trailing whitespace keeps a prefix, removes only whitespace, and stops at a non-whitespace character |
| Text.TrimSpec | StudentTrack.php:83-85 | `trim` removes whitespace only, and only at the two ends; the result has no whitespace at either end |
| Text.CleanBlank | StudentTrack.php:83-85 | a cleaned field is empty exactly when the field is missing or holds only whitespace |
| Text.TrimKeeps | StudentTrack.php:83-85 | a string with no whitespace at either end is left as it is by `trim` |
| Text.CleanIdempotent | StudentTrack.php:83-85 | cleaning a cleaned value changes nothing |
| Text.Fold | StudentTrack.php:30 | the collation key of a string; what it is for is stated by `Text.SameTextIgnoresCase` and `Text.SameTextOnlyCase`: two strings have equal keys exactly when they differ at most in letter case |
| Text.SameText | StudentTrack.php:30 | equality under the `utf8mb4_unicode_ci` collation, modelled as equal case-folded keys; what the UNIQUE roll (line 53), the ENUM (line 65) and `class = ?` (line 196) compare by; see `Text.SameTextIgnoresCase` and `Text.SameTextOnlyCase` |
| Text.SameTextIgnoresCase | StudentTrack.php:30 | two strings are equal under the collation exactly when they have the same length and agree at every position up to letter case |
| Text.SameTextOnlyCase | StudentTrack.php:30 | equal strings under the collation agree exactly at every position that does not hold a letter |
| Text.Like | StudentTrack.php:192-193 | `LIKE '%q%'` under the collation: the folded search text occurs in the folded column; see `Text.ContainsAt`, `Text.LikeExample` |
| Text.ContainsAt | StudentTrack.php:192-193 | the substring search used for `LIKE '%q%'` holds exactly when `q` occurs at some offset of the column value |
| Text.ContainsOccurs | StudentTrack.php:192-193 | a match found by the substring search starts at some offset of the column value |
| Text.OccursContains | StudentTrack.php:192-193 | an occurrence of the search text at any offset is found by the substring search |
| Text.LikeExample | StudentTrack.php:30 | under the case-insensitive collation, the search "ana" matches the name "Ananya" and does not match "Bikram" |
| Schema.Valid | StudentTrack.php:50-79 | the constraints of the three table definitions; kept by every handler (`Commands.AddStudentValid`, `Commands.AddAttendanceValid`, `Commands.AddMarksValid`) and met by the empty schema (`Schema.EmptyValid`) |
| Schema.StatusOf | StudentTrack.php:65 | the ENUM's reading of a status text, under the collation; specified by `Schema.StatusRoundTrip` |
| Schema.EmptyValid | StudentTrack.php:50-79 | the freshly created empty tables satisfy every constraint of the table definitions |
| Schema.StatusRoundTrip | StudentTrack.php:65 | each ENUM label is read back as its own status; a text is accepted exactly when it equals a label under the collation (so "absent" or "PRESENT" is accepted), and then as that label |
| Schema.RollTaken | StudentTrack.php:53 | the duplicate-key test of the UNIQUE roll: some student's roll equals the given one under the collation; used by `Commands.AddStudentOutcome` and `Commands.AddStudentTwice` |
| Schema.FindKey | StudentTrack.php:67 | the lookup through `uniq_att` returns the first row with key (student, date), or reports that no row has the key |
| Metrics.TotalCount | StudentTrack.php:162 | `COUNT(*)` of one student's attendance rows; zero exactly when none refers to the student (`Metrics.TotalCountZero`) |
| Metrics.MarkCount | StudentTrack.php:166 | the number of one student's mark rows, the divisor of `AVG`; see `Metrics.AverageMarks` |
| Metrics.MarkSum | StudentTrack.php:166 | the sum of one student's marks; bounded by `Metrics.MarkSumAtLeast` and `Metrics.MarkSumAtMost`, zero without marks (`Metrics.MarkSumZero`) |
| Metrics.PresentCount | StudentTrack.php:161-162 | a student's present days never exceed their total attendance rows |
| Metrics.TotalCountZero | StudentTrack.php:238 | a student has a total of 0 exactly when no attendance row refers to them (the default `total_cnt` of 0) |
| Metrics.MarkCountZero | StudentTrack.php:239 | a student's mark count is 0 exactly when no mark row refers to them (the default `avg_marks` of 0 applies) |
| Metrics.MarkSumZero | StudentTrack.php:239 | a student with no mark rows has a sum of 0 |
| Metrics.AttendancePercent | StudentTrack.php:238-241 | the percentage times the total equals present times 100 when the total is positive; it is 0 when the total is 0; it lies in [0, 100] whenever present does not exceed total |
| Metrics.AverageMarks | StudentTrack.php:228-233 | the average times the count equals the sum of the student's marks when there are any; otherwise it is 0 |
| Metrics.MarkSumAtLeast | StudentTrack.php:166 | a lower bound on every mark of a student bounds their sum from below by bound times count |
| Metrics.MarkSumAtMost | StudentTrack.php:166 | an upper bound on every mark of a student bounds their sum from above by bound times count |
| Metrics.AverageBetween | StudentTrack.php:166 | the average lies between any lower and upper bound of the student's marks, hence between their minimum and maximum |
| Metrics.AverageNonNegative | StudentTrack.php:77 | under `CHECK (marks >= 0)` every average is non-negative |
| Metrics.Round2 | StudentTrack.php:241 | `round(x, 2)` on the exact value; specified by `Metrics.Round2Near`, `Metrics.Round2Monotone` and `Metrics.Round2Percent` |
| Metrics.HundredthsNear | StudentTrack.php:241 | the number of hundredths `round(x, 2)` lands on is within half a unit of `100 * x`, and not negative for non-negative `x` |
| Metrics.Round2Near | StudentTrack.php:241 | `round(x, 2)` is within 0.005 of `x`, is non-negative for non-negative `x`, and is a whole number of hundredths |
| Metrics.Round2Monotone | StudentTrack.php:250 | rounding to two decimals never reverses the order of two values |
| Metrics.Round2Percent | StudentTrack.php:155 | a percentage in [0, 100] stays in [0, 100] after rounding |
| Metrics.HealthOf | StudentTrack.php:399-400 | the health expression; specified by `Metrics.HealthTiers` and `Metrics.HealthMonotone` |
| Metrics.HealthTiers | StudentTrack.php:399-400 | Good exactly when attendance is at least 75 and average at least 60; Needs Attention exactly when attendance is below 60 and average below 50; Average exactly otherwise |
| Metrics.HealthMonotone | StudentTrack.php:399-400 | better attendance and a better average never give a worse tier |
| Commands.AddStudent | StudentTrack.php:96-109 | the `add_student` request on the tables; specified by `Commands.AddStudentOutcome`, `Commands.AddStudentSaved`, `Commands.AddStudentTwice` and `Commands.AddStudentValid` |
| Commands.Upsert | StudentTrack.php:119-120 | `INSERT ... ON DUPLICATE KEY UPDATE status`; specified by `Commands.UpsertUnique`, `Commands.UpsertEffect` and `Commands.UpsertOverwrites` |
| Commands.StatusText | StudentTrack.php:115 | the status sent: "Present" for a missing field, otherwise the trimmed value; used by `Commands.AddAttendanceEffect` |
| Commands.AddAttendance | StudentTrack.php:112-125 | the `add_attendance` request on the tables; specified by `Commands.AddAttendanceEffect`, `Commands.AddAttendanceResubmit` and `Commands.AddAttendanceValid` |
| Commands.AddMarks | StudentTrack.php:127-141 | the `add_marks` request on the tables; specified by `Commands.AddMarksEffect` and `Commands.AddMarksValid` |
| Commands.AppendStudentValid | StudentTrack.php:51-53 | inserting a student with the next id and an unused roll keeps every table constraint |
| Commands.AddStudentValid | StudentTrack.php:96-109 | `add_student` keeps every table constraint |
| Commands.AddStudentOutcome | StudentTrack.php:97-106 | `add_student` is refused exactly when the trimmed name, roll or class is empty; it saves exactly when they are non-empty and no student has the roll; a request that does not save leaves the tables unchanged |
| Commands.AddStudentSaved | StudentTrack.php:105-106 | a saved `add_student` appends exactly one student holding the cleaned fields (skills may be empty), with an id above every existing id, and leaves the other tables unchanged |
| Commands.AddStudentTwice | StudentTrack.php:53 | after a saved `add_student`, a second request with the same roll fails and leaves the tables unchanged |
| Commands.UpsertUnique | StudentTrack.php:119-120 | the upsert keeps `(student_id, date)` unique, and the submitted row is in the table |
| Commands.AddAttendanceValid | StudentTrack.php:112-125 | `add_attendance` keeps every table constraint |
| Commands.UpsertEffect | StudentTrack.php:119-120 | after the upsert the submitted row is present, every row with its key equals it, and rows with other keys are exactly those before |
| Commands.AddAttendanceEffect | StudentTrack.php:113-121 | `add_attendance` is refused exactly when the id is 0 or the date is blank; it saves exactly when the student exists and the status is an ENUM label; a saved request leaves exactly the submitted status for (student, date), with every other key's rows and the other tables unchanged; any other request changes nothing |
| Commands.UpsertOverwrites | StudentTrack.php:119-120 | two upserts for the same key leave the same table as the second one alone |
| Commands.AddAttendanceResubmit | StudentTrack.php:112-125 | whatever the first submission for a student and date did, a saved second submission leaves the tables as if only it had been made |
| Commands.AppendMarkValid | StudentTrack.php:77-78 | appending a non-negative mark of an existing student keeps every table constraint |
| Commands.AddMarksValid | StudentTrack.php:127-141 | `add_marks` keeps every table constraint |
| Commands.AddMarksEffect | StudentTrack.php:128-137 | `add_marks` is refused exactly when the id is 0 or any field is blank; it saves exactly when the value is non-negative and the student exists; a saved request appends exactly one row and changes nothing else; any other request changes nothing |
| Queries.Conditions | StudentTrack.php:189-198 | the WHERE clause: one condition per non-empty filter, in order; its meaning is `Queries.MatchesFilters` |
| Queries.Listing | StudentTrack.php:188-205 | the listing query; specified by `Queries.ListingMembers`, `Queries.ListingDescending` and `Queries.ListingUnfiltered` |
| Queries.MatchesFilters | StudentTrack.php:188-200 | a student is listed exactly when the search is empty or occurs in the name or roll, and the class filter is empty or equals the class |
| Queries.ListingMembers | StudentTrack.php:188-205 | the listing holds exactly the students that match both filters |
| Queries.ListingDescending | StudentTrack.php:201 | the listing is in strictly descending id order |
| Queries.ListingUnfiltered | StudentTrack.php:191-201 | with both filters empty the listing is the whole table, newest first |
| Queries.RowBounds | StudentTrack.php:238-250 | in every row the rounded attendance percentage lies in [0, 100], and the rounded average is non-negative |
| Queries.RowDefaults | StudentTrack.php:238-240 | a student with no attendance rows shows 0 percent; one with no marks shows an average of 0 |
| Queries.RowFor | StudentTrack.php:238-252 | one student's row; bounded by `Queries.RowBounds`, defaults in `Queries.RowDefaults` |
| Queries.RowHealth | StudentTrack.php:398-400 | the health column of a row, judged on the row's rounded figures |
| Queries.RowHealthRounded | StudentTrack.php:399-400 | the tier is judged on the figure rounded at line 241, not on the exact value: an exact 74.996 percent would be Average, but its row shows 75.00 and is Good |
| Queries.ClassFilterExample | StudentTrack.php:195-197 | the class filter "CSE-3A" excludes a student of class "ECE-2B" |
| Queries.Report | StudentTrack.php:236-254 | one row per listed student, row `k` being the row of the `k`-th listed student |
| Queries.Export | StudentTrack.php:153-171 | the export query: every student, newest first, each with its row; specified by `Queries.ExportRows` |
| Queries.ExportRows | StudentTrack.php:153-171 | the export has one row per student whatever the dashboard's filters are, row `k` being the `k`-th newest student; it equals the dashboard rows with both filters empty |
| Queries.PercentExample | StudentTrack.php:155 | three days present out of four gives 75.00 percent |
| Portal.Database.constructor | StudentTrack.php:49-80 | a new database has empty tables that satisfy every constraint |
| Portal.Database.AddStudent | StudentTrack.php:96-109 | the method keeps the constraints; its outcome and new state are those of `Commands.AddStudent` on the old state |
| Portal.Database.AddAttendance | StudentTrack.php:112-125 | the method keeps the constraints; its outcome and new state are those of `Commands.AddAttendance` on the old state |
| Portal.Database.AddMarks | StudentTrack.php:127-141 | the method keeps the constraints; its outcome and new state are those of `Commands.AddMarks` on the old state |
| Portal.Database.GetStudents | StudentTrack.php:188-205 | the result is the listing: exactly the matching students, in strictly descending id order |
| Portal.Database.AttendanceAggregates | StudentTrack.php:219-225 | the map has an entry exactly for the requested students with attendance rows, holding their present and total counts |
| Portal.Database.MarkAggregates | StudentTrack.php:227-233 | the map has an entry exactly for the requested students with mark rows, holding their sum and count |
| Portal.Database.ComposeRow | StudentTrack.php:238-252 | a row built from the two maps, with the defaults for missing entries, equals the student's specified row |
| Portal.Database.ComposeRows | StudentTrack.php:236-254 | the compose loop yields the specified report of the listed students |
| Portal.Database.DashboardRows | StudentTrack.php:211-255 | the dashboard rows are the report of the listing, one per listed student in order, and empty when no student matches |

## Left out

- The PDO connection, database bootstrap and `die` on failure are I/O against an external server, so they are not modelled. A new `Database` stands for the schema right after it is created.
- Running the `CREATE TABLE` statements is not modelled. Only the constraints they impose are, as `Schema.Valid`.
- Flash messages, the session, redirects and headers are HTTP and session plumbing. The handlers' outcome (`Saved`, `FieldsMissing`, `DatabaseError`) stands for the flash message.
- HTML rendering, `number_format`, and the options lists (`get_student_options` and the class list) are presentation, so they are left out.
- CSV byte formatting by `fputcsv`, the timestamped file name and the `Last Updated` column are output formatting, so they are left out.
- `created_at` is carried through the dashboard rows and the export (`StudentTrack.php:157`, `175`, `251`); `Queries.Row` omits it, because its value comes from the server's clock.
- The row ids of `attendance` and `marks` are never read by the modelled logic, so they are left out.
- Floating point is not modelled. PHP's division and `round` are modelled exactly on reals, with halves rounded away from zero. MySQL's scale of `AVG` over `DECIMAL(5,2)` is left out; its double rounding can differ from exact rounding when the average of very many marks lies within a millionth of a half hundredth.
- `Commands.AddMarks`: the value is not rounded to the two decimals of `DECIMAL(5,2)` before the CHECK, so a posted "-0.001", which MySQL stores as 0.00 and saves, is a `DatabaseError` in the model; `Commands.AddMarksEffect` states its non-negativity condition on the unrounded value, and the stored mark keeps every decimal of `toNumber`'s result.
- The range of `DECIMAL(5,2)` and the `VARCHAR` lengths are left out. Exceeding them is a server-side truncation or error that depends on SQL mode.
- The `(int)` cast of `student_id` is left out: the handlers take the integer. The `(float)` cast of the marks text is the parameter `toNumber`.
- `Portal.Database.AddStudent` and `Commands.AddStudent`: the AUTO_INCREMENT counter advances only on a saved insert, so the gaps that failed inserts can leave are not modelled, and neither is `INT` overflow.
- The collation is modelled only as ASCII case folding. Full Unicode case and accent folding, and trailing-space padding, are not modelled.
- `%`, `_` and the escape character `\` inside the search text are taken literally. In `LIKE` the first two are wildcards and `\` escapes the next character, so the search `a\b` finds "ab" and not "a\b"; the model does the reverse.
- `date` is kept as the cleaned text. Parsing and normalising it as a `DATE`, and rejecting invalid dates, are not modelled.
- Non-strict SQL mode, where an invalid status is stored as the empty ENUM value, is not modelled. Numeric ENUM indices are not modelled either.
- `ON DELETE CASCADE` is not modelled, because the portal has no delete operation.
- Concurrent requests are left out: each request is one atomic step.
