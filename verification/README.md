# Student records: the record store and the two table pages

This project models the core of a small student-records app.

- The backend is `main1.py`, a FastAPI service over one SQL table. In the model, its
  insert, update, delete, filter and list endpoints are pure transformers of that table.
  The table is held as a sequence of rows in storage order, together with the next
  auto-increment id.
- There are two browser pages, `frontend/script.js` and `static/main.js`. The model
  covers their table rendering, the request body and URLs they build, and their edit
  session.

Modules, by file:

| file | module | what it holds |
|---|---|---|
| records.dfy | `Records` | the stored row, the request body `StudentIn`, grades |
| grading.dfy | `Grading` | `get_grade`, sum and average of the marks |
| store.dfy | `Store` | the endpoints of `main1.py`, course renumbering, the primary-key invariant |
| query.dfy | `Query` | how the backend reads a query string: split at `&` and `=`, `+` and `%XX` decoded, last value wins; plus `%XX` escaping |
| jsobject.dfy | `JsObject` | plain JavaScript objects: property creation order, `Object.entries`/`for..in` order (array-index keys first, ascending) |
| text.dfy, decimal.dfy | `Text`, `Decimal` | `String.prototype.trim`, `join`, `String(n)`, the global `parseInt` |
| client.dfy | `Client` | `frontend/script.js` |
| static_main.dfy | `StaticMain` | `static/main.js`, which has a ninth (course) column |
| wrappers.dfy, seqs.dfy, ordering.dfy, sorting.dfy | helpers | `Option`/`Result`, sequence facts, code-point order, a stable insertion sort |

Modelling choices:

- **Marks.** A mark map is an ordered list of (subject, score) entries.
  - The request body's `mark` holds the members of the JSON object as sent, and may repeat
    a subject.
  - The backend works on the dict built from those members (`Records.DictOf`). It keeps one
    entry per subject, in order of first occurrence, with the subject's last score. Averages
    and the stored row use that dict.
  - A stored row lists its subjects in that dict's order. The order in which the database
    returns them is not modelled (see "Left out").
- **Reading order on the client.** The client reads an object's entries in ECMAScript
  own-key order. So a subject such as `"2"` is listed before `"Math"`, whatever order
  the entries were created in.
- **Sort keys.** Name and course ordering are parameters. Insert's parameter is the
  database collation and update's is Python's `str.lower`. Ties keep storage order; the
  roll-number contracts hold for any tie order.
- **Averages.** `avg` is an exact rational.
- **Failures.**
  - An empty mark map raises a division error, and 404 is a status. Either way the reply
    carries the table unchanged, because the session is never committed.
  - The page sees two kinds of reply to a write (`Client.WriteReply`). Success, 404 and 422
    replies are JSON. The division error is an unhandled exception, which is a plain-text
    500 without CORS headers; on that reply the page's `.then` callbacks never run.
  - On the client, `grouped[course].push` throws a TypeError when a course is named like
    an `Object.prototype` member (`"constructor"`, say). `renderTable` then returns
    `Failure`.
- **Client side effects.**
  - A `fetch` becomes the `Request` value it would send.
  - `confirm` becomes a boolean input.
  - The page's globals `editing`, `editingId` and `editingCourse` become a `Session`.
  - The form's inputs become a `Form`.
- **URLs.** They are checked against the backend's reading of them (`Query.Params`).
  For example, an update URL is read back as `course` and `student_id`.

## Model

| member | source | states |
|---|---|---|
| Grading.GetGrade | main1.py:69-77 | the grade is A iff avg ≥ 90, B iff 75 ≤ avg < 90, C iff 60 ≤ avg < 75, D iff avg < 60 |
| Grading.GradeMonotone | main1.py:69-77 | a higher average never gets a lower grade |
| Grading.Average | main1.py:86 | for a non-empty mark map, avg times the number of marks is the sum of the scores |
| Grading.GradeOfMarks | main1.py:86-87 | the grade as integer comparisons: A iff sum ≥ 90·n, B iff 75·n ≤ sum < 90·n, C iff 60·n ≤ sum < 75·n, D iff sum < 60·n |
| Store.Renumber | main1.py:103-113 | renumbering a course gives its students roll numbers that are in 1..n, distinct, cover 1..n, and never put a later-sorting name before an earlier one; all other students and all other fields are unchanged |
| Store.AssignRollsNumbersByName | main1.py:112-113 | the enumerate-from-1 assignment over the name-sorted course gives a numbering by name |
| Records.DictOf | main1.py:60 | the dict built from a JSON object's members has each subject once, reads as the score of the subject's last member, and is empty iff there are no members |
| Records.DictOfDistinct | main1.py:60 | members with distinct subjects give a dict equal to them, in the same order |
| Records.DictOfRepeat | main1.py:60 | a subject given twice keeps one entry, with the later score |
| Store.Insert | main1.py:80-117 | succeeds iff the mark map is non-empty; otherwise the division error, with the store unchanged. On success: exactly one row is added, with the next id and the input's fields; its marks are the dict of the sent members; avg = sum/n over that dict and grade = get_grade(avg); the course grows by one and is numbered by name; other courses' rows are unchanged; the course's old rows change only in roll number |
| Store.InsertRepeatedSubject | main1.py:85-86 | a subject sent twice is stored once, and the average is its later score |
| Store.InsertFacts | main1.py:99-113 | appending a row of course c and renumbering c grows c by one; the other rows change at most in roll number |
| Store.Locate | main1.py:139 | `first()` of the (course, id) query: the first matching position, or none |
| Store.Update | main1.py:134-165 | 404 iff no row has (course, id); the division error iff the row exists and the marks are empty; either failure leaves the store unchanged. On success: the first matching row keeps its id and takes the input's fields; its marks are the dict of the sent members, with avg = sum/n over that dict and grade = get_grade(avg); the new course is numbered by lower-cased name; other rows outside the new course are unchanged; rows in it change only in roll number |
| Store.UpdateAccepted | main1.py:139-151 | an update of a stored (course, id) with at least one mark succeeds |
| Store.UpdateLeavesGapInOldCourse | main1.py:156-160 | in a course numbered 1, 2, 3, moving student 1 to another course leaves the old course with two students and no roll number 1 |
| Store.Delete | main1.py:169-180 | never the division error; 404 iff no row has (id, course), with the store unchanged; on success, exactly the first matching row is removed (as a multiset too), in order, and nothing is renumbered |
| Store.DeleteRemovesTheRecord | main1.py:173-178 | with unique ids, after delete no row has that (id, course), and ids stay unique |
| Store.InsertKeepsValid | main1.py:42 | insert keeps ids unique and below the auto-increment counter |
| Store.UpdateKeepsValid | main1.py:42 | update keeps ids unique and below the counter |
| Store.Filter | main1.py:183-192 | the listing holds every row that passes each given, non-empty filter, as often as stored, and no other row; it is ordered by course, then by roll number |
| Store.ViewAll | main1.py:124-129 | the listing is a permutation of the table, ordered by course, then by roll number |
| Store.FilterWithoutFiltersIsViewAll | main1.py:188-192 | absent or empty filters give exactly the full listing of /view/ |
| Store.FilterAgree | main1.py:187-192 | filters that pass the same rows give the same listing |
| Query.DecodeEscape | main1.py:184 | the backend's reading of a query value undoes `%XX` escaping of `%`, `&`, `+` and `#` |
| Query.DecodeChangesPlus | main1.py:184 | an unescaped value containing `+` and no `%` is not read back as written |
| Query.ReadIntOfIntToString | main1.py:135 | the `student_id: int` parameter reads an integer's decimal text back as that integer |
| Text.TrimIdempotent | frontend/script.js:97 | trimming a trimmed input changes nothing |
| Text.TrimSlice | frontend/script.js:97 | the trim is a slice of the input with only white space before and after it |
| Decimal.ParseIntOfIntToString | frontend/script.js:98 | parseInt reads back the decimal text of any integer |
| Decimal.ParseIntOfEmpty | frontend/script.js:103 | an empty score input parses to NaN |
| Decimal.ParseIntStopsAtNonDigit | frontend/script.js:103 | parseInt stops at the first non-digit: "12abc" reads as 12 |
| Decimal.ParseIntRejectsNonNumbers | frontend/script.js:103 | text without a digit ("abc", "-") reads as NaN |
| Decimal.ParseIntReadsHex | frontend/script.js:103 | a `0x` prefix reads hexadecimal: "0x1A" is 26 |
| JsObject.Put | frontend/script.js:108-109 | after `o[k] = v`, k reads v and every other key reads as before |
| JsObject.PutKeys | frontend/script.js:22 | assignment keeps the key order and appends a new key last |
| JsObject.Entries | frontend/script.js:54 | `Object.entries` lists every own property exactly once |
| JsObject.EntriesOrder | frontend/script.js:27 | the array-index properties come first, all of them and in ascending numeric order; then the other properties, in creation order |
| JsObject.OwnKeysSplit | frontend/script.js:27 | in key terms: first a rearrangement of the array-index keys in ascending numeric order, then exactly the other keys in creation order |
| JsObject.EntriesInCreationOrder | frontend/script.js:54 | without array-index keys, the entries are in creation order |
| Client.GroupKeys | frontend/script.js:19-25 | `grouped` has one key per course, in order of first occurrence |
| Client.GroupValues | frontend/script.js:19-25 | a course's key holds exactly that course's students, in input order; other keys are undefined |
| Client.GroupedLinesAreSections | frontend/script.js:27-38 | the emitted lines are, for each course in `for..in` order, a heading and then that course's students |
| Client.CourseOrderCourses | frontend/script.js:27 | the `for..in` order lists each course once and nothing else |
| Client.CourseOrderFirstSeen | frontend/script.js:27 | when no course name is an array index, courses are visited in order of first occurrence |
| Client.CourseOrderIndicesFirst | frontend/script.js:27 | array-index course names are visited first, in ascending numeric order |
| Client.CourseOrderMixed | frontend/script.js:27 | for any data: the array-index courses first, each once and in ascending numeric order, then every other course in order of first occurrence |
| Client.GroupingLayout | frontend/script.js:19-38 | one heading per distinct course, each course visited iff some student takes it; every student appears exactly as often as in the input, under their own course |
| Client.RenderWith | frontend/script.js:14-93 | the shared rendering: a TypeError iff some course is an inherited name, otherwise one row per line of the course sections |
| Client.RenderTable | frontend/script.js:14-93 | a TypeError iff some course is an inherited name. Otherwise one row per line: headings span 8 columns, and data rows hold roll, name, age, gender, marks, avg, grade and actions in that order; the delete button names the student's course |
| Client.MarksCellInCreationOrder | frontend/script.js:53-56 | the marks cell is `sub: mark` per entry, in creation order, joined by `<br>`, when no subject is an array index |
| Client.MarksCellEmpty | frontend/script.js:53-56 | the marks cell is empty iff there are no marks |
| Client.MarksCellAppend | frontend/script.js:53-56 | a new last subject adds `<br>sub: mark` at the end |
| Client.BuildMarks | frontend/script.js:107-109 | a subject is present iff it is non-empty, not `__proto__`, and its score parses; sub2's score wins when sub2 equals sub1; keys are in order of first assignment |
| Client.BuildMarksOfEntries | frontend/script.js:107-109 | from the fields of at most two distinct clean entries, the marks object is the kept entries in order |
| Client.SubmitForm | frontend/script.js:96-136 | a PUT iff editing, a POST iff not; the body is the trimmed form with parsed age and the marks object; a POST goes to the insert endpoint; a PUT's URL is read back as the session's course and id |
| Client.UpdateUrlParams | frontend/script.js:114 | for a plain course, the update URL is read back as exactly `course` and `student_id`, in that order |
| Client.ReplyTo | main1.py:86 | the write's reply fails to parse as JSON iff the backend's outcome is the division error |
| Client.AfterWrite | frontend/script.js:119-123 | after a JSON reply: an idle session, blank inputs, and a GET of /view/. After a failed reply: the screen unchanged and no request |
| Client.ResetForm | frontend/script.js:169-177 | back to idle with null id and course, blank inputs, and the button reading "Add Student" |
| Client.LoadEdit | frontend/script.js:139-156 | editing the student's id and course; the button reads "Update Student"; the inputs show name, gender and course, and an age that parses back; sub1 and sub2 come from the first two entries (blank when absent); a score input is blank iff the entry is absent or scores 0, and otherwise parses back to the score |
| Client.ScoreFieldReads | frontend/script.js:151 | a score input is blank iff the score is 0, and otherwise parses back to the score |
| Client.EditTargetsLoadedStudent | frontend/script.js:113-114 | for a student with a plain course (no `&`, `#`, `+` or `%`), after loadEdit submitForm updates that student's course and id, whatever the inputs now say |
| Client.IdleSubmitInserts | frontend/script.js:170-173 | after resetForm, or after a JSON reply to a write, submitForm inserts; after a failed reply an edit stays an edit |
| Client.UpdateTargetOfSession | frontend/script.js:114 | for a plain course, the backend reads the update URL as the session's course and integer id |
| Client.UpdateUrlMisreadsPlus | frontend/script.js:114 | a captured course containing `+` (no `%`, `&` or `#`) reaches the backend decoded, so the update addresses another course |
| Client.UpdateUrlMisreadsPlusNotFound | main1.py:139-141 | with unique ids, the misread update URL of frontend/script.js:114 (Client.UpdateUrlMisreadsPlus) finds no row: the backend answers 404 and changes nothing, and the JSON reply resets the page as if the update had succeeded |
| Client.SubmitFormEscaped | frontend/script.js:113-118 | corrected submitForm: the same requests and body; while editing, the backend reads the session's course and id back, whatever the course's text |
| Client.EditRoundTrip | frontend/script.js:139-156 | editing and submitting unchanged inputs sends an update whose marks are the student's marks without the entries scored 0 |
| Client.DeleteStudent | frontend/script.js:158-167 | no request iff not confirmed; otherwise a DELETE, read back as `course` and `roll_number` |
| Client.DeleteUrlParams | frontend/script.js:162 | for a plain course, the delete URL is read back as exactly `course` and `roll_number`, in that order |
| Client.FilterQueryParams | frontend/script.js:184-187 | the filter URL carries `course` only if the course is non-empty, then `gender` only if the gender is non-empty |
| Client.ApplyFilter | frontend/script.js:179-192 | a GET of the filter endpoint; for plain values, exactly the non-empty trimmed filters, course first |
| Client.FilterLookups | frontend/script.js:186-187 | the backend finds each filter applyFilter writes, and nothing for one it leaves out |
| Client.ServerFilterAgrees | frontend/script.js:184-189 | the listing for a filter URL with plain values is the backend's filter on the trimmed inputs |
| Client.ApplyFilterSelects | frontend/script.js:180-189 | applyFilter with plain values lists what the backend's filter gives for the trimmed inputs |
| Client.ZeroScoreSendsNoMarks | frontend/script.js:151 | editing a student whose only mark is 0 sends an update with an empty marks object |
| Client.ZeroScoreLostOnEdit | frontend/script.js:151 | for a stored student with a plain course whose only mark is 0, the edit sends an update without marks. The backend reads the URL as that student's course and id, answers with the division error and keeps the row. That reply is not JSON, so the page stays in the edit and sends nothing more |
| Client.LoadEditKeepingZero | frontend/script.js:150-153 | with `??` in place of `\|\|`, every present score input parses back to its score, 0 included |
| Client.EditRoundTripKeepingZero | frontend/script.js:149-153 | with zero scores kept, an unchanged edit sends the student's marks back as stored |
| Client.ZeroScoreKeptOnEdit | frontend/script.js:149-153 | with zero scores kept, the edit of a stored student with a plain course and one or two clean entries sends the marks as stored. The update at the URL's target succeeds with a JSON reply and stores those marks unchanged |
| Client.ReceivedClean | frontend/script.js:111 | a body with a parsed age and no array-index subjects reaches the backend's `StudentIn` as written |
| Client.DeleteSendsNoStudentId | frontend/script.js:162 | for a plain course (no `&`, `#`, `+` or `%`), the delete request has no `student_id` parameter |
| Client.DeleteUrlMisreadsPlus | frontend/script.js:162 | a course containing `+` (no `%`, `&` or `#`) reaches the delete endpoint decoded, not as stored |
| Client.DeleteStudentById | frontend/script.js:159-162 | corrected delete, naming `student_id` with the course escaped: no request iff not confirmed; otherwise a DELETE read back as the student's `course` and `student_id`, for every course text |
| Client.DeleteByIdRemovesRecord | frontend/script.js:162 | for every course text, the backend reads the corrected delete URL of a stored student as that student's course and integer id, and its delete succeeds |
| Client.ApplyFilterMisreadsPlus | frontend/script.js:186 | a course filter whose trimmed text contains `+` and no `%`, `&` or `#`, with a gender filter without `&` or `#`, reaches the backend decoded, not as typed |
| Client.ApplyFilterEscaped | frontend/script.js:184-187 | corrected applyFilter: the backend reads every non-empty trimmed filter exactly as typed |
| Client.ApplyFilterEscapedSelects | frontend/script.js:179-191 | with escaping, the listing is the backend's filter on the trimmed inputs, for every input text |
| StaticMain.RenderTable | static/main.js:14-54 | a TypeError iff some course is an inherited name. Otherwise one row per line: headings span 9 columns, and data rows hold roll, name, age, gender, course, marks, avg, grade and actions; the course cell and delete button name the row's own course |
| StaticMain.PagesAgree | static/main.js:29-50 | both pages fail on the same data and otherwise give the same number of rows. Row by row, the headings are the same, over 9 columns instead of 8. A data row shows the same roll, name, age, gender and grade, written as markup rather than text; a course cell equal to the delete button's course follows gender; the marks, avg and buttons cells are the same |
| StaticMain.MarksOfForm | static/main.js:68-70 | a subject is present iff it is non-empty, not `__proto__`, and its score parses; the second pair wins for a repeated subject |
| StaticMain.SubmitForm | static/main.js:57-97 | a PUT iff editing, a POST iff not. The body is the trimmed inputs with parsed age, and its marks object reads each subject's score as the inputs give it (the second pair wins, `__proto__` and unparsed scores dropped). A POST goes to insert; for a plain captured course (no `&`, `#`, `+` or `%`) a PUT is read as that course and id |
| StaticMain.AfterWrite | static/main.js:80-84 | after a JSON reply: idle, blank inputs, and a GET with no query. After a failed reply: the screen unchanged and no request |
| StaticMain.LoadEdit | static/main.js:100-117 | editing the student's id and course; the inputs show the student; sub1/sub2 come from the first two entries; a score input is blank iff the entry is absent or scores 0, and otherwise parses back to the score |
| StaticMain.DeleteStudent | static/main.js:120-128 | no request iff not confirmed; otherwise a DELETE, which for a plain course (no `&`, `#`, `+` or `%`) is read as `course` and `roll_number`, with no `student_id` |
| StaticMain.ResetForm | static/main.js:131-138 | idle with null id and course, blank inputs, "Add Student" |
| StaticMain.ApplyFilter | static/main.js:141-153 | a GET; for plain values the backend reads the trimmed course iff it is non-empty, and the same for gender |

## Left out

- The network, promises, `window.onload`, `fetchStudents` and its `catch`, and the reply bodies. A request is the value sent.
- The DOM.
  - Rows are values.
  - `innerHTML` is a markup cell.
  - HTML injection is not modelled. In static/main.js the course heading is written with `innerHTML` (static/main.js:32), while frontend/script.js:33 sets `textContent`, so a course holding markup differs between the pages. In static/main.js the course is also placed in an inline `onclick` attribute inside a JavaScript string literal (static/main.js:48): a `"` ends the attribute, a `'` or `\` breaks the string, and a `&…;` entity is decoded first. Names holding markup and the inline `onclick` JSON breaking on an apostrophe are not modelled either.
- SQLAlchemy sessions, commit and refresh. Each endpoint is one atomic step that either commits or leaves the table as it was.
- MySQL collation and case-insensitive equality in `filter_by`. Sort keys are parameters, and equality is exact.
- Rounding of `avg`: Python's double-precision division, then storage in the `avg = Column(Float)` column (main1.py:50), which MySQL keeps as a single-precision FLOAT of about 7 significant digits, and JavaScript's number formatting. The average is exact, and the cell holds it as a number.
- Unicode case mapping. `str.lower` is an abstract key.
- parseInt of numbers beyond 2^53, and exponent-form number text.
- `form.reset()` restoring non-empty default values. Every input is taken to reset to "".
- FastAPI's request validation beyond a null `age`, which is rejected. Type coercion of other fields is not modelled.
- Non-ASCII percent escapes, and the browser's own URL normalisation.
- CORS, dotenv, the database URL, the Jinja template and static-file mount (main1.py:16-52, main1.py:197-209).
- Store.Insert: the new row is appended at the end of storage order; the database's physical row order is not modelled.
- Store.Insert: the stored marks keep the dict's subject order. MySQL's JSON type sorts an object's keys, so a row read back may list its subjects in another order; that order is not modelled.
- Store.Insert: the column widths (name 50, gender 10, course 20 characters) and the range of the integer `age` column are not modelled. Under MySQL's strict mode a longer text or an out-of-range age makes the commit fail, and the model's insert does not.
- Store.Update: the same two omissions as Store.Insert: the database's order of the stored subjects, and the failures from column widths and the `age` range.
- Query.ReadInt: reads an optional sign followed by ASCII digits. Other texts the validator may accept as integers (surrounding white space, say) are not modelled.
- Client.SubmitForm: states the PUT URL's parameters only when the editing course is plain text (no `&`, `#`, `+`, `%`). A `+` is covered by the update-URL finding below. A course with `&`, `#` or `%` also breaks the URL, and no member states what the backend then reads.
- Client.ZeroScoreLostOnEdit: stated for a plain course only. For other courses the update URL does not address the student, as Client.UpdateUrlMisreadsPlus shows for `+`.
- Client.ZeroScoreKeptOnEdit: stated for a plain course only, for the same reason.
- A failed reply ends the page's promise chain; the unhandled rejection this logs is not modelled.
- Client.ApplyFilter: states the parameters only for plain values, for the same reason.
- Client.DeleteStudent: states the parameters only for a plain course. A course with `&` can add parameters of its own: course "a&student_id=3" makes the URL carry `student_id` "3", which the backend then reads.
- Client.DeleteSendsNoStudentId: stated for a plain course only, for the reason above.
- Client.EditTargetsLoadedStudent: stated for a plain course only. Other courses are covered by Client.UpdateUrlMisreadsPlus and the corrected Client.SubmitFormEscaped.
- StaticMain.SubmitForm: states what the backend reads from the PUT URL only for a plain captured course, as Client.SubmitForm does.
- StaticMain.DeleteStudent: states the parameters only for a plain course, as Client.DeleteStudent does.
- Client.EditRoundTrip: stated for at most two entries with clean subjects (non-empty, trimmed, distinct, not `__proto__`, not array indices). Further entries are dropped by loadEdit, which the LoadEdit contract states.
- StaticMain.MarksOfForm: states the marks object through the same Client definition. It adds no proof of its own.

## Findings

| source | as written | input that shows it | evidently intended | confidence | as-written member | corrected member |
|---|---|---|---|---|---|---|
| frontend/script.js:151-153 (also static/main.js:112-114) | `subs[0]?.[1] \|\| ""` writes a score of 0 as a blank input, so an unchanged edit submits without it | a stored student whose only mark is ("Math", 0): the update carries an empty mark map and fails with a division error | a 0 score is kept (`??`), and the edit sends the marks back as stored | high, not executed | Client.ZeroScoreLostOnEdit | Client.ZeroScoreKeptOnEdit |
| frontend/script.js:186-187 (also static/main.js:147-148) | filter values are placed in the URL unescaped | course filter "C++": the backend reads course "C  " and matches no C++ student | each value is percent-escaped, so the backend reads it as typed | high, not executed | Client.ApplyFilterMisreadsPlus | Client.ApplyFilterEscaped |
| frontend/script.js:114 (also static/main.js:75) | the captured course is placed in the update URL unescaped | editing a student of course "C++": the backend looks up course "C  ", so the student is not updated | the course is percent-escaped, so the backend reads it as stored | high, not executed | Client.UpdateUrlMisreadsPlus | Client.SubmitFormEscaped |
| frontend/script.js:162 (also static/main.js:123) | the course is placed in the delete URL unescaped | deleting a student of course "C++": the backend reads course "C  " | the course is percent-escaped | high, not executed | Client.DeleteUrlMisreadsPlus | Client.DeleteStudentById |
| frontend/script.js:162 (also static/main.js:123) with main1.py:170 | the delete request sends `roll_number`, while the endpoint requires `student_id` | any confirmed delete of a student with a plain course: the URL has no `student_id`, so the backend rejects it and the student stays stored | the request names the student's id as `student_id` | high, not executed | Client.DeleteSendsNoStudentId | Client.DeleteByIdRemovesRecord |
