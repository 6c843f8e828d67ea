/**
 * The view logic of frontend/script.js: grouping the student list into table rows,
 * the marks cell, the request body built from the form, the edit session and the
 * URLs of the requests. DOM nodes become values (rows and cells are datatypes), a
 * `fetch` becomes the `Request` it would send, and `confirm` is a boolean input.
 */
module Client {
  import opened Wrappers
  import opened Seqs
  import opened Text
  import opened Decimal
  import opened JsObject
  import opened Records
  import Query
  import Store

  // ---------------------------------------------------------------------------
  // Grouping by course

  /** The names a fresh `{}` inherits from `Object.prototype`; each reads as a truthy value. */
  const InheritedNames: set<string> := {
    "constructor", "hasOwnProperty", "isPrototypeOf", "propertyIsEnumerable",
    "toLocaleString", "toString", "valueOf", "__proto__",
    "__defineGetter__", "__defineSetter__", "__lookupGetter__", "__lookupSetter__"}

  /**
   * Some course is an inherited name: `grouped[course]` is then already truthy, the
   * list is never created, and `.push` on it throws a TypeError.
   */
  predicate HasInheritedCourse(data: seq<Student>) {
    exists i :: 0 <= i < |data| && data[i].course in InheritedNames
  }

  /** The `grouped` object: a list of students per course. */
  type Groups = Props<seq<Student>>

  /** One step of the `forEach`: create the course's list on first sight, then push. */
  function AddToGroup(g: Groups, st: Student): Groups {
    match Get(g, st.course)
    case None => Put(g, st.course, [st])
    case Some(v) => Put(g, st.course, v + [st])
  }

  /** `grouped` after the `forEach` over `data`. */
  function Group(data: seq<Student>): Groups {
    if |data| == 0 then [] else AddToGroup(Group(data[..|data| - 1]), data[|data| - 1])
  }

  /** The course of every student, in input order. */
  function CoursesOf(data: seq<Student>): (r: seq<string>)
    ensures |r| == |data|
    ensures forall i :: 0 <= i < |data| ==> r[i] == data[i].course
  {
    if |data| == 0 then [] else CoursesOf(data[..|data| - 1]) + [data[|data| - 1].course]
  }

  /** The first occurrence of every value, in order. */
  function Dedup(s: seq<string>): (r: seq<string>)
    ensures Distinct(r)
    ensures forall x :: x in r <==> x in s
  {
    if |s| == 0 then []
    else
      var p := Dedup(s[..|s| - 1]);
      assert forall x :: x in s <==> x in s[..|s| - 1] || x == s[|s| - 1] by {
        FrontLast(s);
      }
      if s[|s| - 1] in p then p else p + [s[|s| - 1]]
  }

  /** The students of course `c` in input order: the grouping defined by selection. */
  function InCourse(data: seq<Student>, c: string): (r: seq<Student>)
    ensures forall i :: 0 <= i < |r| ==> r[i].course == c
    ensures forall x :: multiset(r)[x] == if x.course == c then multiset(data)[x] else 0
  {
    if |data| == 0 then []
    else
      var p := InCourse(data[..|data| - 1], c);
      FrontLast(data);
      if data[|data| - 1].course == c then p + [data[|data| - 1]] else p
  }

  /** A course no student takes has no students. */
  lemma {:induction false} InCourseOfAbsent(data: seq<Student>, c: string)
    requires c !in CoursesOf(data)
    ensures InCourse(data, c) == []
  {
    if |data| > 0 {
      assert CoursesOf(data) == CoursesOf(data[..|data| - 1]) + [data[|data| - 1].course];
      InCourseOfAbsent(data[..|data| - 1], c);
    }
  }

  /** One `forEach` step adds the course as the last key when it is new. */
  lemma AddToGroupKeys(g: Groups, st: Student)
    ensures KeysOf(AddToGroup(g, st))
            == if st.course in KeysOf(g) then KeysOf(g) else KeysOf(g) + [st.course]
  {
    match Get(g, st.course)
    case None => PutKeys(g, st.course, [st]);
    case Some(v) => PutKeys(g, st.course, v + [st]);
  }

  /** One `forEach` step appends the student to its course's list and leaves the others. */
  lemma AddToGroupGet(g: Groups, st: Student)
    ensures Get(AddToGroup(g, st), st.course) == Some(Get(g, st.course).GetOr([]) + [st])
    ensures forall k :: k != st.course ==> Get(AddToGroup(g, st), k) == Get(g, k)
  {
    if Get(g, st.course).None? {
      assert [] + [st] == [st];
    }
  }

  /** `grouped` has one key per course, in order of first occurrence. */
  lemma {:induction false} GroupKeys(data: seq<Student>)
    ensures KeysOf(Group(data)) == Dedup(CoursesOf(data))
  {
    if |data| > 0 {
      var d, x := data[..|data| - 1], data[|data| - 1];
      GroupKeys(d);
      AddToGroupKeys(Group(d), x);
      var cs := CoursesOf(data);
      assert cs[..|cs| - 1] == CoursesOf(d);
    }
  }

  /** The key of a course holds exactly the students of that course, in input order. */
  lemma {:induction false} GroupValues(data: seq<Student>)
    ensures forall k :: Get(Group(data), k) == if k in CoursesOf(data) then Some(InCourse(data, k)) else None
  {
    if |data| > 0 {
      var d, x := data[..|data| - 1], data[|data| - 1];
      GroupValues(d);
      AddToGroupGet(Group(d), x);
      var cs := CoursesOf(data);
      assert cs == CoursesOf(d) + [x.course];
      forall k
        ensures Get(Group(data), k) == if k in cs then Some(InCourse(data, k)) else None
      {
        assert k in cs <==> k in CoursesOf(d) || k == x.course;
        if k == x.course && k !in CoursesOf(d) {
          InCourseOfAbsent(d, k);
        }
      }
    }
  }

  /** A row of the table before it becomes DOM: a course heading, or a student under a course key. */
  datatype Line = Heading(course: string) | Item(student: Student, group: string)

  /** A course's students, each under the key `k`. */
  function Items(v: seq<Student>, k: string): (r: seq<Line>)
    ensures |r| == |v|
    ensures forall i :: 0 <= i < |v| ==> r[i] == Item(v[i], k)
  {
    seq(|v|, i requires 0 <= i < |v| => Item(v[i], k))
  }

  /** The `for..in` over `grouped`, given its entries in visiting order. */
  function LinesOf(e: Groups): seq<Line> {
    if |e| == 0 then [] else [Heading(e[0].0)] + Items(e[0].1, e[0].0) + LinesOf(e[1..])
  }

  /** A course's heading followed by its students. */
  function Section(c: string, data: seq<Student>): seq<Line> {
    [Heading(c)] + Items(InCourse(data, c), c)
  }

  /** The reference layout: the section of every course of `order`, in that order. */
  function Sections(order: seq<string>, data: seq<Student>): seq<Line> {
    if |order| == 0 then [] else Section(order[0], data) + Sections(order[1..], data)
  }

  /** The courses in the order `for..in` visits the keys of `grouped`. */
  function CourseOrder(data: seq<Student>): seq<string> {
    OwnKeys(Group(data))
  }

  /** The lines renderTable emits, in order. */
  function GroupedLines(data: seq<Student>): seq<Line> {
    LinesOf(Entries(Group(data)))
  }

  lemma {:induction false} LinesOfSelected(e: Groups, data: seq<Student>)
    requires forall j :: 0 <= j < |e| ==> e[j].1 == InCourse(data, e[j].0)
    ensures LinesOf(e) == Sections(KeysOf(e), data)
  {
    if |e| > 0 {
      assert KeysOf(e)[1..] == KeysOf(e[1..]);
      LinesOfSelected(e[1..], data);
    }
  }

  /** Reading a property that an object with unique keys has returns its value. */
  lemma GetMember<V>(o: Props<V>, p: (string, V))
    requires Distinct(KeysOf(o))
    requires p in o
    ensures Get(o, p.0) == Some(p.1)
  {
    var i :| 0 <= i < |o| && o[i] == p;
    var r := Get(o, p.0);
    var j :| 0 <= j < |o| && o[j] == (p.0, r.value);
    var keys := KeysOf(o);
    assert keys[i] == p.0 == keys[j];
    assert i == j;
  }

  /** The emitted lines are the reference layout over the visiting order. */
  lemma GroupedLinesAreSections(data: seq<Student>)
    ensures GroupedLines(data) == Sections(CourseOrder(data), data)
  {
    var g := Group(data);
    var e := Entries(g);
    GroupKeys(data);
    GroupValues(data);
    forall j | 0 <= j < |e|
      ensures e[j].1 == InCourse(data, e[j].0)
    {
      assert e[j] in multiset(g);
      GetMember(g, e[j]);
    }
    LinesOfSelected(e, data);
  }

  /** The visiting order lists every course once, and nothing else. */
  lemma CourseOrderCourses(data: seq<Student>)
    ensures Distinct(CourseOrder(data))
    ensures forall c :: c in CourseOrder(data) <==> c in CoursesOf(data)
  {
    var g := Group(data);
    GroupKeys(data);
    OwnKeysPermutation(g);
    forall c
      ensures c in CourseOrder(data) <==> c in CoursesOf(data)
    {
      assert c in CourseOrder(data) <==> c in multiset(KeysOf(g));
    }
  }

  /** When no course name is an array index, courses are visited in order of first occurrence. */
  lemma CourseOrderFirstSeen(data: seq<Student>)
    requires forall i :: 0 <= i < |data| ==> !IsArrayIndex(data[i].course)
    ensures CourseOrder(data) == Dedup(CoursesOf(data))
  {
    var g := Group(data);
    GroupKeys(data);
    EntriesInCreationOrder(g);
  }

  /**
   * Course names that are array indices ("2024", say) are visited first, in ascending
   * numeric order: any such course comes after array-index courses only.
   */
  lemma CourseOrderIndicesFirst(data: seq<Student>)
    ensures var order := CourseOrder(data);
      forall i, j :: 0 <= i < j < |order| && IsArrayIndex(order[j]) ==>
        IsArrayIndex(order[i]) && IndexValue(order[i]) <= IndexValue(order[j])
  {
    EntriesOrder(Group(data));
  }

  /**
   * The visiting order in general: the courses that are array indices come first,
   * each once and in ascending numeric order, then every other course in order of
   * first occurrence.
   */
  lemma CourseOrderMixed(data: seq<Student>)
    ensures var order, cs := CourseOrder(data), Dedup(CoursesOf(data)); var n := |IndexKeys(cs)|;
      && n <= |order|
      && multiset(order[..n]) == multiset(IndexKeys(cs))
      && (forall i, j :: 0 <= i < j < n ==> IndexValue(order[i]) <= IndexValue(order[j]))
      && order[n..] == NonIndexKeys(cs)
  {
    GroupKeys(data);
    OwnKeysSplit(Group(data));
  }

  // ---------------------------------------------------------------------------
  // What the lines show

  /** The course headings, in order. */
  function HeadingsOf(lines: seq<Line>): seq<string> {
    if |lines| == 0 then []
    else (if lines[0].Heading? then [lines[0].course] else []) + HeadingsOf(lines[1..])
  }

  /** The students of the data lines, in order. */
  function StudentsOf(lines: seq<Line>): seq<Student> {
    if |lines| == 0 then []
    else (if lines[0].Item? then [lines[0].student] else []) + StudentsOf(lines[1..])
  }

  lemma {:induction false} LinesConcat(a: seq<Line>, b: seq<Line>)
    ensures HeadingsOf(a + b) == HeadingsOf(a) + HeadingsOf(b)
    ensures StudentsOf(a + b) == StudentsOf(a) + StudentsOf(b)
  {
    if |a| > 0 {
      assert (a + b)[0] == a[0];
      assert (a + b)[1..] == a[1..] + b;
      LinesConcat(a[1..], b);
    } else {
      assert a + b == b;
    }
  }

  lemma {:induction false} ItemsShow(v: seq<Student>, k: string)
    ensures HeadingsOf(Items(v, k)) == []
    ensures StudentsOf(Items(v, k)) == v
  {
    if |v| > 0 {
      assert Items(v, k)[1..] == Items(v[1..], k);
      ItemsShow(v[1..], k);
      assert [v[0]] + v[1..] == v;
    }
  }

  lemma {:induction false} SectionsHeadings(order: seq<string>, data: seq<Student>)
    ensures HeadingsOf(Sections(order, data)) == order
  {
    if |order| > 0 {
      var c, rest := order[0], order[1..];
      assert Sections(order, data) == Section(c, data) + Sections(rest, data);
      SectionsHeadings(rest, data);
      SectionShows(c, data);
      LinesConcat(Section(c, data), Sections(rest, data));
      assert HeadingsOf(Sections(order, data)) == [c] + rest;
      HeadRest(order);
    }
  }

  /** A section shows its course once and the course's students. */
  lemma SectionShows(c: string, data: seq<Student>)
    ensures HeadingsOf(Section(c, data)) == [c]
    ensures StudentsOf(Section(c, data)) == InCourse(data, c)
  {
    var items := Items(InCourse(data, c), c);
    LinesConcat([Heading(c)], items);
    ItemsShow(InCourse(data, c), c);
    assert HeadingsOf([Heading(c)]) == [c];
    assert StudentsOf([Heading(c)]) == [];
  }

  lemma DistinctTail(order: seq<string>)
    requires |order| > 0 && Distinct(order)
    ensures Distinct(order[1..]) && order[0] !in order[1..]
    ensures forall k :: k in order <==> k == order[0] || k in order[1..]
  {
    HeadRest(order);
  }

  lemma {:induction false} SectionsStudents(order: seq<string>, data: seq<Student>)
    requires Distinct(order)
    ensures forall x :: multiset(StudentsOf(Sections(order, data)))[x]
                        == if x.course in order then multiset(data)[x] else 0
  {
    if |order| > 0 {
      var c := order[0];
      DistinctTail(order);
      SectionsStudents(order[1..], data);
      SectionShows(c, data);
      LinesConcat(Section(c, data), Sections(order[1..], data));
      var v := InCourse(data, c);
      var rest := StudentsOf(Sections(order[1..], data));
      assert multiset(StudentsOf(Sections(order, data))) == multiset(v) + multiset(rest);
    }
  }

  /** Every data line sits under its own student's course. */
  predicate UnderOwnCourse(lines: seq<Line>) {
    forall i :: 0 <= i < |lines| && lines[i].Item? ==> lines[i].group == lines[i].student.course
  }

  lemma SectionUnderOwnCourse(c: string, data: seq<Student>)
    ensures UnderOwnCourse(Section(c, data))
  {
    var v := InCourse(data, c);
    var head := Section(c, data);
    forall i | 0 <= i < |head| && head[i].Item?
      ensures head[i].group == head[i].student.course
    {
      assert head[i] == Items(v, c)[i - 1];
    }
  }

  lemma UnderOwnCourseConcat(head: seq<Line>, rest: seq<Line>)
    requires UnderOwnCourse(head) && UnderOwnCourse(rest)
    ensures UnderOwnCourse(head + rest)
  {
    var lines := head + rest;
    forall i | 0 <= i < |lines| && lines[i].Item?
      ensures lines[i].group == lines[i].student.course
    {
      if i < |head| {
        assert lines[i] == head[i];
      } else {
        assert lines[i] == rest[i - |head|];
      }
    }
  }

  lemma {:induction false} SectionsGroupByCourse(order: seq<string>, data: seq<Student>)
    ensures UnderOwnCourse(Sections(order, data))
  {
    if |order| > 0 {
      SectionsGroupByCourse(order[1..], data);
      SectionUnderOwnCourse(order[0], data);
      UnderOwnCourseConcat(Section(order[0], data), Sections(order[1..], data));
    }
  }

  /**
   * renderTable's lines: a heading per distinct course, in `for..in` order, each
   * followed by exactly that course's students in input order, every student once,
   * each under its own course.
   */
  lemma GroupingLayout(data: seq<Student>)
    ensures GroupedLines(data) == Sections(CourseOrder(data), data)
    ensures HeadingsOf(GroupedLines(data)) == CourseOrder(data)
    ensures Distinct(CourseOrder(data))
    ensures forall c :: c in CourseOrder(data) <==> exists i :: 0 <= i < |data| && data[i].course == c
    ensures multiset(StudentsOf(GroupedLines(data))) == multiset(data)
    ensures UnderOwnCourse(GroupedLines(data))
  {
    var order := CourseOrder(data);
    GroupedLinesAreSections(data);
    CourseOrderCourses(data);
    SectionsHeadings(order, data);
    SectionsGroupByCourse(order, data);
    CourseOrderListsCourses(data);
    GroupedStudents(data);
  }

  /** A course is visited exactly when some student takes it. */
  lemma CourseOrderListsCourses(data: seq<Student>)
    ensures forall c :: c in CourseOrder(data) <==> exists i :: 0 <= i < |data| && data[i].course == c
  {
    CourseOrderCourses(data);
    forall c
      ensures c in CourseOrder(data) <==> exists i :: 0 <= i < |data| && data[i].course == c
    {
      if c in CourseOrder(data) {
        var i :| 0 <= i < |data| && CoursesOf(data)[i] == c;
      }
      if exists i :: 0 <= i < |data| && data[i].course == c {
        var i :| 0 <= i < |data| && data[i].course == c;
        assert CoursesOf(data)[i] == c;
      }
    }
  }

  /** The table shows every student exactly as often as the data holds it. */
  lemma GroupedStudents(data: seq<Student>)
    ensures multiset(StudentsOf(GroupedLines(data))) == multiset(data)
  {
    var order := CourseOrder(data);
    GroupedLinesAreSections(data);
    CourseOrderCourses(data);
    SectionsStudents(order, data);
    forall x
      ensures multiset(StudentsOf(Sections(order, data)))[x] == multiset(data)[x]
    {
      if x in multiset(data) {
        var i :| 0 <= i < |data| && data[i] == x;
        assert CoursesOf(data)[i] == x.course;
      }
    }
  }

  // ---------------------------------------------------------------------------
  // Rows and cells

  /** A table cell as the page fills it. */
  datatype Cell =
    | NumCell(n: int)            // `textContent` set to a number
    | TextCell(text: string)     // `textContent` set to a string
    | MarkupCell(html: string)   // `innerHTML`
    | AvgCell(avg: real)         // `textContent` set to the average
    | ActionsCell(edit: Student, deleteRoll: int, deleteCourse: string)
      // the edit button calls loadEdit(edit), the delete button deleteStudent(deleteRoll, deleteCourse)

  /** A table row: a course heading spanning the table, or a student's cells. */
  datatype Row = HeaderRow(title: string, colSpan: nat) | DataRow(cells: seq<Cell>)

  /** The thrown error that ends renderTable. */
  datatype JsError = TypeError

  /** The row of one line, given the page's column count and data-row cells. */
  function RenderLine(cells: (Student, string) -> seq<Cell>, columns: nat, l: Line): Row {
    match l
    case Heading(c) => HeaderRow(c, columns)
    case Item(st, g) => DataRow(cells(st, g))
  }

  function RenderLines(cells: (Student, string) -> seq<Cell>, columns: nat, lines: seq<Line>): (r: seq<Row>)
    ensures |r| == |lines|
    ensures forall i :: 0 <= i < |lines| ==> r[i] == RenderLine(cells, columns, lines[i])
  {
    seq(|lines|, i requires 0 <= i < |lines| => RenderLine(cells, columns, lines[i]))
  }

  /**
   * renderTable with a given column count and data-row cells, as both pages share it:
   * it throws when a course is an inherited name, and otherwise renders the reference
   * layout over the `for..in` course order.
   */
  function RenderWith(cells: (Student, string) -> seq<Cell>, columns: nat, data: seq<Student>): (r: Result<seq<Row>, JsError>)
    ensures r.Failure? <==> HasInheritedCourse(data)
    ensures r.Success? ==> r.value == RenderLines(cells, columns, Sections(CourseOrder(data), data))
  {
    if HasInheritedCourse(data) then Failure(TypeError)
    else
      GroupedLinesAreSections(data);
      Success(RenderLines(cells, columns, GroupedLines(data)))
  }

  /** `${sub}: ${mark}` for one mark entry. */
  function MarkText(e: (string, int)): string {
    e.0 + ": " + IntToString(e.1)
  }

  /** The marks cell: every entry in `Object.entries` order as `sub: mark`, joined by `<br>`. */
  function MarksCell(mark: Marks): string {
    Join(Map(MarkText, Entries(mark)), "<br>")
  }

  /** The eight cells of a data row: roll, name, age, gender, marks, avg, grade, actions. */
  function ScriptCells(st: Student, group: string): seq<Cell> {
    [NumCell(st.rollNumber), TextCell(st.name), NumCell(st.age), TextCell(st.gender),
     MarkupCell(MarksCell(st.mark)), AvgCell(st.avg), TextCell(GradeText(st.grade)),
     ActionsCell(st, st.rollNumber, group)]
  }

  /** The row frontend/script.js shows for a line: a heading over 8 columns, or 8 cells in order. */
  predicate ScriptRow(l: Line, row: Row) {
    match l
    case Heading(c) => row == HeaderRow(c, 8)
    case Item(st, g) =>
      row == DataRow(
        [NumCell(st.rollNumber), TextCell(st.name), NumCell(st.age), TextCell(st.gender),
         MarkupCell(MarksCell(st.mark)), AvgCell(st.avg), TextCell(GradeText(st.grade)),
         ActionsCell(st, st.rollNumber, st.course)])
  }

  /**
   * renderTable of frontend/script.js: a TypeError when some course is an inherited
   * name; otherwise one row per line of the course sections, in the 8-column layout,
   * with each delete button aimed at its student's own course.
   */
  function RenderTable(data: seq<Student>): (r: Result<seq<Row>, JsError>)
    ensures r.Failure? <==> HasInheritedCourse(data)
    ensures r.Success? ==>
      var lines := Sections(CourseOrder(data), data);
      |r.value| == |lines| && forall i :: 0 <= i < |lines| ==> ScriptRow(lines[i], r.value[i])
  {
    var r := RenderWith(ScriptCells, 8, data);
    var lines := Sections(CourseOrder(data), data);
    SectionsGroupByCourse(CourseOrder(data), data);
    ScriptLayout(lines);
    r
  }

  lemma ScriptRowOfLine(l: Line)
    requires l.Item? ==> l.group == l.student.course
    ensures ScriptRow(l, RenderLine(ScriptCells, 8, l))
  {
    match l
    case Heading(c) =>
    case Item(st, g) =>
      assert RenderLine(ScriptCells, 8, l) == DataRow(ScriptCells(st, g));
  }

  lemma ScriptLayout(lines: seq<Line>)
    requires UnderOwnCourse(lines)
    ensures forall i :: 0 <= i < |lines| ==> ScriptRow(lines[i], RenderLines(ScriptCells, 8, lines)[i])
  {
    forall i | 0 <= i < |lines|
      ensures ScriptRow(lines[i], RenderLines(ScriptCells, 8, lines)[i])
    {
      ScriptRowOfLine(lines[i]);
    }
  }

  /** Entries are listed in creation order when no subject is an array index. */
  lemma MarksCellInCreationOrder(mark: Marks)
    requires forall i :: 0 <= i < |mark| ==> !IsArrayIndex(mark[i].0)
    ensures MarksCell(mark) == Join(Map(MarkText, mark), "<br>")
  {
    EntriesInCreationOrder(mark);
  }

  /** The marks cell is empty exactly when the student has no marks. */
  lemma MarksCellEmpty(mark: Marks)
    ensures MarksCell(mark) == "" <==> |mark| == 0
  {
    var parts := Map(MarkText, Entries(mark));
    if |mark| > 0 {
      assert parts[0] <= MarksCell(mark);
      assert |parts[0]| >= 2;
    }
  }

  /** A new last subject that is not an array index adds `<br>sub: mark` at the end. */
  lemma MarksCellAppend(mark: Marks, sub: string, score: int)
    requires |mark| > 0
    requires forall i :: 0 <= i < |mark| ==> !IsArrayIndex(mark[i].0)
    requires !IsArrayIndex(sub)
    ensures MarksCell(mark + [(sub, score)]) == MarksCell(mark) + "<br>" + sub + ": " + IntToString(score)
  {
    var m := mark + [(sub, score)];
    var parts, last := Map(MarkText, mark), MarkText((sub, score));
    EntriesInCreationOrder(mark);
    NoIndexSnoc(mark, sub, score);
    EntriesInCreationOrder(m);
    MapConcat(MarkText, mark, [(sub, score)]);
    assert Map(MarkText, [(sub, score)]) == [last];
    assert Map(MarkText, Entries(m)) == parts + [last];
    JoinSnoc(parts, last, "<br>");
    assert MarksCell(m) == Join(parts, "<br>") + "<br>" + last;
    assert MarksCell(mark) == Join(parts, "<br>");
    AppendAssoc(MarksCell(mark) + "<br>", sub, ": ", IntToString(score));
  }

  lemma AppendAssoc(a: string, b: string, c: string, d: string)
    ensures a + (b + c + d) == a + b + c + d
  {
  }

  lemma NoIndexSnoc(mark: Marks, sub: string, score: int)
    requires forall i :: 0 <= i < |mark| ==> !IsArrayIndex(mark[i].0)
    requires !IsArrayIndex(sub)
    ensures var m := mark + [(sub, score)]; forall i :: 0 <= i < |m| ==> !IsArrayIndex(m[i].0)
  {
    var m := mark + [(sub, score)];
    forall i | 0 <= i < |m|
      ensures !IsArrayIndex(m[i].0)
    {
      if i < |mark| {
        assert m[i] == mark[i];
      }
    }
  }

  // ---------------------------------------------------------------------------
  // The form and the request body

  /** The text of the form's eight inputs. */
  datatype Form = Form(name: string, age: string, gender: string, course: string,
                       sub1: string, mark1: string, sub2: string, mark2: string)

  /** The inputs after `form.reset()`, every default value taken to be empty. */
  const BlankForm := Form("", "", "", "", "", "", "", "")

  /**
   * A subject and score become a property of `marks`: the subject is non-empty and the
   * score parses. Assigning a number to `__proto__` creates no property at all.
   */
  predicate Kept(sub: string, score: Option<int>) {
    sub != "" && score.Some? && sub != "__proto__"
  }

  /** `if (sub && !isNaN(score)) marks[sub] = score;` */
  function AddMark(m: Props<int>, sub: string, score: Option<int>): Props<int> {
    if sub != "" && score.Some? then
      if sub == "__proto__" then m else Put(m, sub, score.value)
    else m
  }

  /**
   * The marks object of submitForm, from the two trimmed subjects and parsed scores:
   * a subject is present only if kept, the second score wins when both subjects are
   * the same, and the keys appear in the order first assigned.
   */
  function BuildMarks(sub1: string, mark1: Option<int>, sub2: string, mark2: Option<int>): (m: Props<int>)
    ensures forall k ::
              Get(m, k) == if k == sub2 && Kept(sub2, mark2) then mark2
                           else if k == sub1 && Kept(sub1, mark1) then mark1
                           else None
    ensures KeysOf(m) ==
      (if Kept(sub1, mark1) then [sub1] else [])
      + (if Kept(sub2, mark2) && !(Kept(sub1, mark1) && sub2 == sub1) then [sub2] else [])
  {
    var m1 := AddMark([], sub1, mark1);
    AddMarkKeys([], sub1, mark1);
    AddMarkKeys(m1, sub2, mark2);
    AddMark(m1, sub2, mark2)
  }

  lemma AddMarkKeys(m: Props<int>, sub: string, score: Option<int>)
    ensures KeysOf(AddMark(m, sub, score))
            == if Kept(sub, score) && sub !in KeysOf(m) then KeysOf(m) + [sub] else KeysOf(m)
  {
    if Kept(sub, score) {
      PutKeys(m, sub, score.value);
    }
  }

  /** The JSON body `{ name, age, gender, course, mark }`; `age` is `None` for NaN, sent as null. */
  datatype Payload = Payload(name: string, age: Option<int>, gender: string, course: string, mark: Props<int>)

  /** The body submitForm builds from the trimmed inputs. */
  function ReadForm(f: Form): Payload {
    Payload(Trim(f.name), ParseInt(Trim(f.age)), Trim(f.gender), Trim(f.course),
            BuildMarks(Trim(f.sub1), ParseInt(Trim(f.mark1)), Trim(f.sub2), ParseInt(Trim(f.mark2))))
  }

  /**
   * What the backend's `StudentIn` receives from the JSON body: the marks in the order
   * `JSON.stringify` lists them; nothing when `age` was null, which validation rejects.
   */
  function Received(p: Payload): Option<StudentIn> {
    if p.age.None? then None
    else Some(StudentIn(p.name, p.age.value, p.gender, p.course, Entries(p.mark), None))
  }

  // ---------------------------------------------------------------------------
  // The edit session and the requests

  /** The globals `editing`, `editingId` and `editingCourse`. */
  datatype Session = Session(editing: bool, editingId: Option<int>, editingCourse: Option<string>)

  /** The session at page load and after resetForm. */
  const Idle := Session(false, None, None)

  /** The two states: idle with null id and course, or editing with both set. */
  predicate Wellformed(s: Session) {
    if s.editing then s.editingId.Some? && s.editingCourse.Some?
    else s.editingId.None? && s.editingCourse.None?
  }

  /** The page state the view functions read and write: session, form inputs, button text. */
  datatype Screen = Screen(session: Session, form: Form, submitLabel: string)

  /** A `fetch` the page issues. */
  datatype Request =
    | GetRequest(url: string)
    | PostRequest(url: string, body: Payload)
    | PutRequest(url: string, body: Payload)
    | DeleteRequest(url: string)

  const ViewUrl: string := "http://127.0.0.1:8000/view/"
  const InsertUrl: string := "http://127.0.0.1:8000/insert/"
  const UpdatePath: string := "http://127.0.0.1:8000/update/"
  const DeletePath: string := "http://127.0.0.1:8000/delete/"
  const FilterPath: string := "http://127.0.0.1:8000/students/filter"

  /** One `name=value` query parameter, as a template literal writes it. */
  function Param(name: string, value: string): string {
    name + "=" + value
  }

  /** `${v}` for a string that may be null. */
  function TemplateText(v: Option<string>): string {
    if v.Some? then v.value else "null"
  }

  /** `${v}` for a number that may be null. */
  function TemplateNumber(v: Option<int>): string {
    if v.Some? then IntToString(v.value) else "null"
  }

  function UpdateUrl(s: Session): string {
    UpdatePath + "?" + Param("course", TemplateText(s.editingCourse)) + "&"
    + Param("student_id", TemplateNumber(s.editingId))
  }

  lemma PathsHaveNoQuery()
    ensures '?' !in UpdatePath && '?' !in DeletePath && '?' !in FilterPath
  {
  }

  lemma NamesArePlain()
    ensures Query.Plain("course") && '=' !in "course"
    ensures Query.Plain("gender") && '=' !in "gender"
    ensures Query.Plain("student_id") && '=' !in "student_id"
    ensures Query.Plain("roll_number") && '=' !in "roll_number"
  {
  }

  lemma IntToStringPlain(n: int)
    ensures Query.Plain(IntToString(n))
  {
  }

  /**
   * The backend reads `path?n1=w1&n2=w2` as the two parameters with the written values
   * decoded, when the names are plain and neither value ends its part.
   */
  lemma TwoParamsRead(path: string, n1: string, w1: string, n2: string, w2: string)
    requires '?' !in path
    requires Query.Plain(n1) && '=' !in n1 && Query.Unbroken(w1)
    requires Query.Plain(n2) && '=' !in n2 && Query.Unbroken(w2)
    ensures Query.Params(path + "?" + Param(n1, w1) + "&" + Param(n2, w2))
            == [(n1, Query.Decode(w1)), (n2, Query.Decode(w2))]
  {
    var query := Param(n1, w1) + "&" + Param(n2, w2);
    assert path + "?" + Param(n1, w1) + "&" + Param(n2, w2) == path + "?" + query;
    Query.ParamsOfQuery(path, query);
    Query.PartsCons(n1, w1, Param(n2, w2));
    Query.PartsLast(n2, w2);
    Query.DecodePlain(n1);
    Query.DecodePlain(n2);
  }

  /** The backend reads both parameters back from `path?n1=v1&n2=v2` when all four texts are plain. */
  lemma TwoParams(path: string, n1: string, v1: string, n2: string, v2: string)
    requires '?' !in path
    requires Query.Plain(n1) && '=' !in n1 && Query.Plain(v1)
    requires Query.Plain(n2) && '=' !in n2 && Query.Plain(v2)
    ensures Query.Params(path + "?" + Param(n1, v1) + "&" + Param(n2, v2)) == [(n1, v1), (n2, v2)]
  {
    TwoParamsRead(path, n1, v1, n2, v2);
    Query.DecodePlain(v1);
    Query.DecodePlain(v2);
  }

  /** The backend reads `course` and `student_id` back from an update URL. */
  lemma UpdateUrlParams(s: Session)
    ensures s.editingId.Some? && s.editingCourse.Some? && Query.Plain(s.editingCourse.value) ==>
      Query.Params(UpdateUrl(s)) == [("course", s.editingCourse.value), ("student_id", IntToString(s.editingId.value))]
  {
    if s.editingId.Some? && s.editingCourse.Some? && Query.Plain(s.editingCourse.value) {
      PathsHaveNoQuery();
      NamesArePlain();
      IntToStringPlain(s.editingId.value);
      TwoParams(UpdatePath, "course", s.editingCourse.value, "student_id", IntToString(s.editingId.value));
    }
  }

  /**
   * submitForm: an update addressed to the session's captured course and id while
   * editing, an insert otherwise; the body is read from the form either way.
   */
  function SubmitForm(screen: Screen): (r: Request)
    ensures r.PutRequest? <==> screen.session.editing
    ensures r.PostRequest? <==> !screen.session.editing
    ensures (r.PutRequest? || r.PostRequest?) && r.body == ReadForm(screen.form)
    ensures r.PostRequest? ==> r.url == InsertUrl
    ensures r.PutRequest? && Wellformed(screen.session) && Query.Plain(screen.session.editingCourse.value) ==>
      Query.Params(r.url) == [("course", screen.session.editingCourse.value),
                              ("student_id", IntToString(screen.session.editingId.value))]
  {
    var body := ReadForm(screen.form);
    UpdateUrlParams(screen.session);
    if screen.session.editing then PutRequest(UpdateUrl(screen.session), body)
    else PostRequest(InsertUrl, body)
  }

  /** resetForm: back to idle, the inputs cleared and the button reading "Add Student". */
  function ResetForm(screen: Screen): (r: Screen)
    ensures r.session == Idle && Wellformed(r.session)
    ensures r.form == BlankForm && r.submitLabel == "Add Student"
  {
    Screen(Idle, BlankForm, "Add Student")
  }

  /**
   * How the reply of a write reaches the page: a JSON body (success, and the 404 and
   * 422 errors the framework answers), or a failure `res.json()` never gets past (the
   * plain-text 500 of an unhandled exception, sent without the CORS headers).
   */
  datatype WriteReply = JsonReply | FailedReply

  /** The reply the backend's outcome gives: only the division error is unhandled. */
  function ReplyTo(status: Store.Status): (r: WriteReply)
    ensures r == FailedReply <==> status == Store.ZeroDivision
  {
    if status == Store.ZeroDivision then FailedReply else JsonReply
  }

  /**
   * What follows the reply of an insert or update: after a JSON reply, resetForm and
   * then fetchStudents; after a failed one, nothing at all, so the page keeps its
   * session and inputs and sends no further request.
   */
  function AfterWrite(screen: Screen, reply: WriteReply): (r: (Screen, Option<Request>))
    ensures reply == JsonReply ==>
      r.0.session == Idle && r.0.form == BlankForm && r.1 == Some(GetRequest(ViewUrl))
    ensures reply == FailedReply ==> r.0 == screen && r.1 == None
  {
    match reply
    case JsonReply => (ResetForm(screen), Some(GetRequest(ViewUrl)))
    case FailedReply => (screen, None)
  }

  /** `subs[i]?.[0] || ""`: the subject of entry `i`, blank when there is none. */
  function SubjectField(subs: Marks, i: nat): string {
    if i < |subs| then subs[i].0 else ""
  }

  /** `subs[i]?.[1] || ""` written into an input: blank when there is no entry and when the score is 0. */
  function ScoreField(subs: Marks, i: nat): string {
    if i < |subs| && subs[i].1 != 0 then IntToString(subs[i].1) else ""
  }

  /** A score input that is not blank reads back as the score. */
  lemma ScoreFieldReads(subs: Marks, i: nat)
    ensures i < |subs| ==> (ScoreField(subs, i) == "" <==> subs[i].1 == 0)
    ensures i < |subs| && subs[i].1 != 0 ==> ParseInt(Trim(ScoreField(subs, i))) == Some(subs[i].1)
  {
    if i < |subs| {
      IntToStringUntrimmed(subs[i].1);
      ParseIntOfIntToString(subs[i].1);
    }
  }

  /** No character of a number's text is white space. */
  lemma IntToStringUntrimmed(n: int)
    ensures Trim(IntToString(n)) == IntToString(n)
    ensures IntToString(n) != ""
  {
    var t := IntToString(n);
    assert forall i :: 0 <= i < |t| ==> !IsJsSpace(t[i]);
    TrimTrimmed(t);
  }

  /**
   * loadEdit: the session moves to editing the student's id and course, the inputs
   * show the student, and the subject inputs show the first two entries of the marks
   * only, blank where there is no entry, and a score of 0 as a blank input.
   */
  function LoadEdit(screen: Screen, st: Student): (r: Screen)
    ensures r.session == Session(true, Some(st.id), Some(st.course)) && Wellformed(r.session)
    ensures r.submitLabel == "Update Student"
    ensures r.form.name == st.name && r.form.gender == st.gender && r.form.course == st.course
    ensures ParseInt(Trim(r.form.age)) == Some(st.age)
    ensures var subs := Entries(st.mark);
      && (|subs| > 0 ==> r.form.sub1 == subs[0].0 && (r.form.mark1 == "" <==> subs[0].1 == 0))
      && (|subs| > 0 && subs[0].1 != 0 ==> ParseInt(Trim(r.form.mark1)) == Some(subs[0].1))
      && (|subs| > 1 ==> r.form.sub2 == subs[1].0 && (r.form.mark2 == "" <==> subs[1].1 == 0))
      && (|subs| > 1 && subs[1].1 != 0 ==> ParseInt(Trim(r.form.mark2)) == Some(subs[1].1))
      && (|subs| == 0 ==> r.form.sub1 == "" && r.form.mark1 == "")
      && (|subs| <= 1 ==> r.form.sub2 == "" && r.form.mark2 == "")
  {
    var subs := Entries(st.mark);
    IntToStringUntrimmed(st.age);
    ParseIntOfIntToString(st.age);
    ScoreFieldReads(subs, 0);
    ScoreFieldReads(subs, 1);
    Screen(Session(true, Some(st.id), Some(st.course)),
           Form(st.name, IntToString(st.age), st.gender, st.course,
                SubjectField(subs, 0), ScoreField(subs, 0), SubjectField(subs, 1), ScoreField(subs, 1)),
           "Update Student")
  }

  function DeleteUrl(rollNumber: int, course: string): string {
    DeletePath + "?" + Param("course", course) + "&" + Param("roll_number", IntToString(rollNumber))
  }

  /** The backend reads `course` and `roll_number` back from a delete URL. */
  lemma DeleteUrlParams(rollNumber: int, course: string)
    ensures Query.Plain(course) ==>
      Query.Params(DeleteUrl(rollNumber, course)) == [("course", course), ("roll_number", IntToString(rollNumber))]
  {
    if Query.Plain(course) {
      PathsHaveNoQuery();
      NamesArePlain();
      IntToStringPlain(rollNumber);
      TwoParams(DeletePath, "course", course, "roll_number", IntToString(rollNumber));
    }
  }

  /** deleteStudent: nothing unless confirmed; then a DELETE naming the course and the roll number. */
  function DeleteStudent(rollNumber: int, course: string, confirmed: bool): (r: Option<Request>)
    ensures r.None? <==> !confirmed
    ensures r.Some? ==> r.value.DeleteRequest?
    ensures r.Some? && Query.Plain(course) ==>
      Query.Params(r.value.url) == [("course", course), ("roll_number", IntToString(rollNumber))]
  {
    DeleteUrlParams(rollNumber, course);
    if confirmed then Some(DeleteRequest(DeleteUrl(rollNumber, course))) else None
  }

  /** `name=…&` when the filter value is non-empty, writing `w` for it; nothing otherwise. */
  function FilterPart(name: string, value: string, w: string): string {
    if value != "" then Param(name, w) + "&" else ""
  }

  /** The query of applyFilter: the course part, then the gender part, writing `wc` and `wg` for their values. */
  function FilterQuery(course: string, gender: string, wc: string, wg: string): string {
    FilterPart("course", course, wc) + FilterPart("gender", gender, wg)
  }

  lemma FilterPartParams(name: string, value: string, w: string, rest: string)
    requires Query.Plain(name) && '=' !in name
    requires Query.Unbroken(w)
    ensures '#' !in FilterPart(name, value, w)
    ensures Query.ParseParts(Query.SplitAmp(FilterPart(name, value, w) + rest))
            == (if value != "" then [(name, Query.Decode(w))] else []) + Query.ParseParts(Query.SplitAmp(rest))
  {
    var part := FilterPart(name, value, w);
    if value != "" {
      Query.PartsCons(name, w, rest);
      Query.DecodePlain(name);
      assert part + rest == name + "=" + w + "&" + rest;
    } else {
      assert part + rest == rest;
    }
  }

  /** What the backend reads from a filter URL whose written values stay within their parts. */
  lemma FilterQueryParams(course: string, gender: string, wc: string, wg: string)
    requires Query.Unbroken(wc) && Query.Unbroken(wg)
    ensures Query.Params(FilterPath + "?" + FilterQuery(course, gender, wc, wg))
            == (if course != "" then [("course", Query.Decode(wc))] else [])
               + (if gender != "" then [("gender", Query.Decode(wg))] else [])
  {
    PathsHaveNoQuery();
    NamesArePlain();
    var cp, gp := FilterPart("course", course, wc), FilterPart("gender", gender, wg);
    FilterPartParams("gender", gender, wg, "");
    FilterPartParams("course", course, wc, gp);
    Query.PartsEmpty();
    assert gp + "" == gp;
    Query.ParamsOfQuery(FilterPath, cp + gp);
  }

  /** applyFilter: a GET of the filter endpoint carrying only the non-empty trimmed filters, course first. */
  function ApplyFilter(courseField: string, genderField: string): (r: Request)
    ensures r.GetRequest?
    ensures var c, g := Trim(courseField), Trim(genderField);
      Query.Plain(c) && Query.Plain(g) ==>
        Query.Params(r.url) == (if c != "" then [("course", c)] else []) + (if g != "" then [("gender", g)] else [])
  {
    var c, g := Trim(courseField), Trim(genderField);
    PlainFilterParams(c, g);
    GetRequest(FilterPath + "?" + FilterQuery(c, g, c, g))
  }

  /** Plain filter values written as they are reach the backend unchanged. */
  lemma PlainFilterParams(c: string, g: string)
    ensures Query.Plain(c) && Query.Plain(g) ==>
      Query.Params(FilterPath + "?" + FilterQuery(c, g, c, g))
      == (if c != "" then [("course", c)] else []) + (if g != "" then [("gender", g)] else [])
  {
    if Query.Plain(c) && Query.Plain(g) {
      FilterQueryParams(c, g, c, g);
      Query.DecodePlain(c);
      Query.DecodePlain(g);
    }
  }

  // ---------------------------------------------------------------------------
  // Across calls, and what the backend makes of the requests

  /** While editing, submitForm updates the loaded student whatever the inputs now say. */
  lemma EditTargetsLoadedStudent(screen: Screen, st: Student, form: Form, button: string)
    requires Query.Plain(st.course)
    ensures var r := SubmitForm(Screen(LoadEdit(screen, st).session, form, button));
      && r.PutRequest?
      && Query.Params(r.url) == [("course", st.course), ("student_id", IntToString(st.id))]
      && r.body == ReadForm(form)
  {
  }

  /**
   * After resetForm, or after a JSON reply to any write, the next submitForm is an
   * insert; after a failed reply an edit in progress stays an edit.
   */
  lemma IdleSubmitInserts(screen: Screen, form: Form, button: string)
    ensures SubmitForm(Screen(ResetForm(screen).session, form, button)) == PostRequest(InsertUrl, ReadForm(form))
    ensures SubmitForm(Screen(AfterWrite(screen, JsonReply).0.session, form, button))
            == PostRequest(InsertUrl, ReadForm(form))
    ensures screen.session.editing ==>
      SubmitForm(Screen(AfterWrite(screen, FailedReply).0.session, form, button)).PutRequest?
  {
    assert ResetForm(screen).session == Idle;
    assert AfterWrite(screen, JsonReply).0.session == Idle;
    assert AfterWrite(screen, FailedReply).0.session == screen.session;
  }

  /**
   * The course and id the update and delete endpoints read from their URL: the
   * `course` and `student_id` parameters, the id read as an integer; nothing when
   * either is missing or the id does not read as one (a 422 reply).
   */
  function CourseAndId(url: string): Option<(string, int)> {
    var ps := Query.Params(url);
    var course, id := Query.Lookup(ps, "course"), Query.Lookup(ps, "student_id");
    if course.Some? && id.Some? && Query.ReadInt(id.value).Some? then
      Some((course.value, Query.ReadInt(id.value).value))
    else None
  }

  /** A URL whose parameters are a course and an id's text targets that course and id. */
  lemma TargetOfParams(url: string, c: string, id: int)
    requires Query.Params(url) == [("course", c), ("student_id", IntToString(id))]
    ensures CourseAndId(url) == Some((c, id))
  {
    Query.LookupPair("course", c, "student_id", IntToString(id), "course");
    Query.ReadIntOfIntToString(id);
  }

  /** The update URL of an edit session on a plain course targets the session's course and id. */
  lemma UpdateTargetOfSession(s: Session)
    requires s.editingId.Some? && s.editingCourse.Some? && Query.Plain(s.editingCourse.value)
    ensures CourseAndId(UpdateUrl(s)) == Some((s.editingCourse.value, s.editingId.value))
  {
    UpdateUrlParams(s);
    TargetOfParams(UpdateUrl(s), s.editingCourse.value, s.editingId.value);
  }

  /**
   * The captured course is written into the update URL unescaped, so a `+` in it
   * reaches the backend as a space: editing a student of "C++" updates course "C  ".
   */
  lemma UpdateUrlMisreadsPlus(s: Session)
    requires s.editingId.Some? && s.editingCourse.Some?
    requires var c := s.editingCourse.value; Query.Unbroken(c) && '%' !in c && '+' in c
    ensures var c := s.editingCourse.value;
      && CourseAndId(UpdateUrl(s)) == Some((Query.Decode(c), s.editingId.value))
      && Query.Decode(c) != c
  {
    var c, id := s.editingCourse.value, s.editingId.value;
    PathsHaveNoQuery();
    NamesArePlain();
    IntToStringPlain(id);
    TwoParamsRead(UpdatePath, "course", c, "student_id", IntToString(id));
    Query.DecodePlain(IntToString(id));
    TargetOfParams(UpdateUrl(s), Query.Decode(c), id);
    Query.DecodeChangesPlus(c);
  }

  /**
   * With unique ids, the misread update finds no row to change: the backend answers
   * 404, a JSON reply, so the page resets as if the update had succeeded.
   */
  lemma UpdateUrlMisreadsPlusNotFound(db: Store.Db, s: Session, st: Student, input: StudentIn, lower: Store.Collation)
    requires Store.Valid(db) && st in db.students
    requires s.editingId == Some(st.id) && s.editingCourse == Some(st.course)
    requires Query.Unbroken(st.course) && '%' !in st.course && '+' in st.course
    ensures CourseAndId(UpdateUrl(s)).Some?
    ensures var target := CourseAndId(UpdateUrl(s)).value;
      var u := Store.Update(db, target.0, target.1, input, lower);
      && u.status == Store.NotFound && u.db == db
      && ReplyTo(u.status) == JsonReply
  {
    UpdateUrlMisreadsPlus(s);
    var c := Query.Decode(st.course);
    var j :| 0 <= j < |db.students| && db.students[j] == st;
    forall i | 0 <= i < |db.students| && db.students[i].id == st.id
      ensures db.students[i].course != c
    {
      assert i == j;
    }
    assert !Store.Exists(db.students, c, st.id);
  }

  /** The update URL with the captured course escaped. */
  function UpdateUrlEscaped(s: Session): string {
    UpdatePath + "?" + Param("course", Query.Escape(TemplateText(s.editingCourse))) + "&"
    + Param("student_id", TemplateNumber(s.editingId))
  }

  lemma UpdateTargetEscaped(s: Session)
    ensures s.editingId.Some? && s.editingCourse.Some? ==>
      CourseAndId(UpdateUrlEscaped(s)) == Some((s.editingCourse.value, s.editingId.value))
  {
    if s.editingId.Some? && s.editingCourse.Some? {
      var c, id := s.editingCourse.value, s.editingId.value;
      PathsHaveNoQuery();
      NamesArePlain();
      IntToStringPlain(id);
      TwoParamsRead(UpdatePath, "course", Query.Escape(c), "student_id", IntToString(id));
      Query.DecodeEscape(c);
      Query.DecodePlain(IntToString(id));
      TargetOfParams(UpdateUrlEscaped(s), c, id);
    }
  }

  /**
   * submitForm with the course escaped in the update URL: the same requests, and while
   * editing the backend reads the captured course and id back whatever the course's text.
   */
  function SubmitFormEscaped(screen: Screen): (r: Request)
    ensures r.PutRequest? <==> screen.session.editing
    ensures r.PostRequest? <==> !screen.session.editing
    ensures (r.PutRequest? || r.PostRequest?) && r.body == ReadForm(screen.form)
    ensures r.PostRequest? ==> r.url == InsertUrl
    ensures r.PutRequest? && Wellformed(screen.session) ==>
      CourseAndId(r.url) == Some((screen.session.editingCourse.value, screen.session.editingId.value))
  {
    var body := ReadForm(screen.form);
    UpdateTargetEscaped(screen.session);
    if screen.session.editing then PutRequest(UpdateUrlEscaped(screen.session), body)
    else PostRequest(InsertUrl, body)
  }

  /** The backend finds each filter that applyFilter lists, and nothing for one it leaves out. */
  lemma FilterLookups(c: string, g: string, vc: string, vg: string)
    ensures var ps := (if c != "" then [("course", vc)] else []) + (if g != "" then [("gender", vg)] else []);
      Query.Lookup(ps, "course") == (if c != "" then Some(vc) else None)
      && Query.Lookup(ps, "gender") == (if g != "" then Some(vg) else None)
  {
    var front := if c != "" then [("course", vc)] else [];
    var ps := front + (if g != "" then [("gender", vg)] else []);
    assert "gender"[0] != "course"[0];
    assert Query.Lookup(front, "gender") == None;
    if g != "" {
      assert ps[..|ps| - 1] == front;
    } else {
      assert ps == front;
    }
  }

  /** The backend's listing for the parameters of a filter URL carrying plain values. */
  lemma ServerFilterAgrees(db: Store.Db, c: string, g: string, collate: Store.Collation)
    ensures var ps := (if c != "" then [("course", c)] else []) + (if g != "" then [("gender", g)] else []);
      Store.Filter(db, Query.Lookup(ps, "course"), Query.Lookup(ps, "gender"), collate)
      == Store.Filter(db, Some(c), Some(g), collate)
  {
    var ps := (if c != "" then [("course", c)] else []) + (if g != "" then [("gender", g)] else []);
    FilterLookups(c, g, c, g);
    var lc, lg := Query.Lookup(ps, "course"), Query.Lookup(ps, "gender");
    Store.FilterAgree(db, lc, lg, Some(c), Some(g), collate);
  }

  /** applyFilter with plain values lists what the backend's filter gives for the trimmed inputs. */
  lemma ApplyFilterSelects(db: Store.Db, courseField: string, genderField: string, collate: Store.Collation)
    requires Query.Plain(Trim(courseField)) && Query.Plain(Trim(genderField))
    ensures var ps := Query.Params(ApplyFilter(courseField, genderField).url);
      Store.Filter(db, Query.Lookup(ps, "course"), Query.Lookup(ps, "gender"), collate)
      == Store.Filter(db, Some(Trim(courseField)), Some(Trim(genderField)), collate)
  {
    ServerFilterAgrees(db, Trim(courseField), Trim(genderField), collate);
  }

  /** Subjects an edit can carry through the form: present, trimmed, unique, and not array indices. */
  predicate CleanSubjects(m: Marks) {
    && Distinct(KeysOf(m))
    && forall i :: 0 <= i < |m| ==>
         m[i].0 != "" && m[i].0 != "__proto__" && Trim(m[i].0) == m[i].0 && !IsArrayIndex(m[i].0)
  }

  /** The entries whose score is not 0, in order. */
  function NonZero(m: Marks): (r: Marks)
    ensures multiset(r) <= multiset(m)
    ensures forall i :: 0 <= i < |r| ==> r[i].1 != 0
  {
    if |m| == 0 then []
    else
      HeadRest(m);
      (if m[0].1 != 0 then [m[0]] else []) + NonZero(m[1..])
  }

  /** The score an input holding `text` submits. */
  function ScoreRead(m: Marks, i: nat, zero: bool): Option<int> {
    if i < |m| && (zero || m[i].1 != 0) then Some(m[i].1) else None
  }

  lemma SubjectFieldReads(m: Marks, i: nat)
    requires CleanSubjects(m)
    ensures Trim(SubjectField(m, i)) == SubjectField(m, i)
  {
    if i >= |m| {
      TrimTrimmed("");
    }
  }

  lemma BlankScoreReads()
    ensures ParseInt(Trim("")) == None
  {
    TrimTrimmed("");
    ParseIntOfEmpty();
  }

  /** Adding a clean subject to an object without it appends the entry. */
  lemma AddMarkNew(o: Props<int>, k: string, v: Option<int>)
    requires k != "" && k != "__proto__" && k !in KeysOf(o)
    ensures AddMark(o, k, v) == if v.Some? then o + [(k, v.value)] else o
  {
    if v.Some? {
      PutNew(o, k, v.value);
    }
  }

  /** The first entry alone gives an object with that entry when its score is kept. */
  lemma FirstMarkAdded(m: Marks, zero: bool)
    requires 0 < |m| && CleanSubjects(m)
    ensures AddMark([], SubjectField(m, 0), ScoreRead(m, 0, zero))
            == if ScoreRead(m, 0, zero).Some? then [m[0]] else []
  {
    AddMarkNew([], m[0].0, ScoreRead(m, 0, zero));
  }

  lemma BuildMarksOfOne(m: Marks, zero: bool)
    requires |m| == 1 && CleanSubjects(m)
    ensures BuildMarks(SubjectField(m, 0), ScoreRead(m, 0, zero), SubjectField(m, 1), ScoreRead(m, 1, zero))
            == if zero then m else NonZero(m)
  {
    FirstMarkAdded(m, zero);
    assert m == [m[0]];
    assert NonZero(m) == (if m[0].1 != 0 then [m[0]] else []) + NonZero(m[1..]);
  }

  /** Two distinct clean subjects give an object holding the kept ones, first subject first. */
  lemma BuildMarksOfPair(a: string, o0: Option<int>, b: string, o1: Option<int>)
    requires a != "" && a != "__proto__" && b != "" && b != "__proto__" && a != b
    ensures BuildMarks(a, o0, b, o1)
            == (if o0.Some? then [(a, o0.value)] else []) + (if o1.Some? then [(b, o1.value)] else [])
  {
    AddMarkNew([], a, o0);
    var m1 := AddMark([], a, o0);
    assert b !in KeysOf(m1);
    AddMarkNew(m1, b, o1);
  }

  lemma NonZeroPair(p: (string, int), q: (string, int))
    ensures NonZero([p, q]) == (if p.1 != 0 then [p] else []) + (if q.1 != 0 then [q] else [])
  {
    assert [p, q][1..] == [q];
    assert [q][1..] == [];
  }

  lemma BuildMarksOfTwo(m: Marks, zero: bool)
    requires |m| == 2 && CleanSubjects(m)
    ensures BuildMarks(SubjectField(m, 0), ScoreRead(m, 0, zero), SubjectField(m, 1), ScoreRead(m, 1, zero))
            == if zero then m else NonZero(m)
  {
    var p, q := m[0], m[1];
    assert m == [p, q];
    assert KeysOf(m)[0] == p.0 && KeysOf(m)[1] == q.0;
    var o0, o1 := ScoreRead(m, 0, zero), ScoreRead(m, 1, zero);
    assert o0 == if zero || p.1 != 0 then Some(p.1) else None;
    assert o1 == if zero || q.1 != 0 then Some(q.1) else None;
    assert SubjectField(m, 0) == p.0 && SubjectField(m, 1) == q.0;
    BuildMarksOfPair(p.0, o0, q.0, o1);
    var built := BuildMarks(p.0, o0, q.0, o1);
    if zero {
      assert built == [p] + [q];
    } else {
      NonZeroPair(p, q);
      assert built == NonZero([p, q]);
    }
  }

  /** The marks object built from the first two entries, with the given scores kept. */
  lemma BuildMarksOfEntries(m: Marks, zero: bool)
    requires |m| <= 2 && CleanSubjects(m)
    ensures BuildMarks(SubjectField(m, 0), ScoreRead(m, 0, zero), SubjectField(m, 1), ScoreRead(m, 1, zero))
            == if zero then m else NonZero(m)
  {
    if |m| == 1 {
      BuildMarksOfOne(m, zero);
    } else if |m| == 2 {
      BuildMarksOfTwo(m, zero);
    }
  }

  /**
   * Editing a student and submitting unchanged inputs sends an update of that student
   * whose marks are the student's marks without the entries scored 0 (for at most two
   * clean subjects).
   */
  lemma EditRoundTrip(screen: Screen, st: Student)
    requires |st.mark| <= 2 && CleanSubjects(st.mark)
    ensures var r := SubmitForm(LoadEdit(screen, st));
      && r.PutRequest?
      && r.body == Payload(Trim(st.name), Some(st.age), Trim(st.gender), Trim(st.course), NonZero(st.mark))
  {
    var m := st.mark;
    EntriesInCreationOrder(m);
    var f := LoadEdit(screen, st).form;
    SubjectFieldReads(m, 0);
    SubjectFieldReads(m, 1);
    BlankScoreReads();
    assert ParseInt(Trim(f.mark1)) == ScoreRead(m, 0, false);
    assert ParseInt(Trim(f.mark2)) == ScoreRead(m, 1, false);
    BuildMarksOfEntries(m, false);
  }

  /**
   * Editing a stored student whose only mark is a 0 and submitting the unchanged
   * inputs sends no marks at all, and the backend answers that update with the
   * division error, keeping the student as stored.
   */
  lemma ZeroScoreLostOnEdit(db: Store.Db, screen: Screen, st: Student, lower: Store.Collation)
    requires |st.mark| == 1 && st.mark[0].1 == 0 && CleanSubjects(st.mark)
    requires Query.Plain(st.course) && Store.Exists(db.students, st.course, st.id)
    ensures var edit := LoadEdit(screen, st); var r := SubmitForm(edit);
      && r.PutRequest? && r.body.mark == []
      && Received(r.body) == Some(StudentIn(Trim(st.name), st.age, Trim(st.gender), Trim(st.course), [], None))
      && CourseAndId(r.url) == Some((st.course, st.id))
      && var target := CourseAndId(r.url).value;
         var u := Store.Update(db, target.0, target.1, Received(r.body).value, lower);
         && u.status == Store.ZeroDivision && u.db == db
         && AfterWrite(edit, ReplyTo(u.status)) == (edit, None)
  {
    var edit := LoadEdit(screen, st);
    var r := SubmitForm(edit);
    ZeroScoreSendsNoMarks(screen, st);
    UpdateTargetOfSession(edit.session);
    var u := Store.Update(db, st.course, st.id, Received(r.body).value, lower);
    assert u.status == Store.ZeroDivision;
  }

  /** The edit of a student whose only mark is a 0 sends an empty marks object. */
  lemma ZeroScoreSendsNoMarks(screen: Screen, st: Student)
    requires |st.mark| == 1 && st.mark[0].1 == 0 && CleanSubjects(st.mark)
    ensures var r := SubmitForm(LoadEdit(screen, st));
      && r.PutRequest? && r.body.mark == []
      && Received(r.body) == Some(StudentIn(Trim(st.name), st.age, Trim(st.gender), Trim(st.course), [], None))
  {
    EditRoundTrip(screen, st);
    var m := st.mark;
    assert m[1..] == [];
    assert NonZero(m) == [] + NonZero(m[1..]);
    var r := SubmitForm(LoadEdit(screen, st));
    assert |Entries(r.body.mark)| == 0;
  }

  /** `subs[i]?.[1] ?? ""` written into an input: blank only when there is no entry. */
  function ScoreFieldKeepingZero(subs: Marks, i: nat): string {
    if i < |subs| then IntToString(subs[i].1) else ""
  }

  /** loadEdit with the score inputs filled whenever the entry exists, 0 included. */
  function LoadEditKeepingZero(screen: Screen, st: Student): (r: Screen)
    ensures r.session == Session(true, Some(st.id), Some(st.course))
    ensures var subs := Entries(st.mark);
      && (|subs| > 0 ==> r.form.sub1 == subs[0].0 && ParseInt(Trim(r.form.mark1)) == Some(subs[0].1))
      && (|subs| > 1 ==> r.form.sub2 == subs[1].0 && ParseInt(Trim(r.form.mark2)) == Some(subs[1].1))
  {
    var subs := Entries(st.mark);
    if |subs| > 0 then
      IntToStringUntrimmed(subs[0].1);
      ParseIntOfIntToString(subs[0].1);
      if |subs| > 1 then
        IntToStringUntrimmed(subs[1].1);
        ParseIntOfIntToString(subs[1].1);
        LoadEditKeepingZeroScreen(screen, st)
      else LoadEditKeepingZeroScreen(screen, st)
    else LoadEditKeepingZeroScreen(screen, st)
  }

  function LoadEditKeepingZeroScreen(screen: Screen, st: Student): Screen {
    var subs := Entries(st.mark);
    Screen(Session(true, Some(st.id), Some(st.course)),
           Form(st.name, IntToString(st.age), st.gender, st.course,
                SubjectField(subs, 0), ScoreFieldKeepingZero(subs, 0),
                SubjectField(subs, 1), ScoreFieldKeepingZero(subs, 1)),
           "Update Student")
  }

  /** With zero scores kept, editing and submitting unchanged inputs sends the student's marks back as they were. */
  lemma EditRoundTripKeepingZero(screen: Screen, st: Student)
    requires |st.mark| <= 2 && CleanSubjects(st.mark)
    ensures var r := SubmitForm(LoadEditKeepingZero(screen, st));
      && r.PutRequest?
      && r.body == Payload(Trim(st.name), Some(st.age), Trim(st.gender), Trim(st.course), st.mark)
  {
    var m := st.mark;
    EntriesInCreationOrder(m);
    var f := LoadEditKeepingZero(screen, st).form;
    SubjectFieldReads(m, 0);
    SubjectFieldReads(m, 1);
    BlankScoreReads();
    IntToStringUntrimmed(st.age);
    ParseIntOfIntToString(st.age);
    assert ParseInt(Trim(f.mark1)) == ScoreRead(m, 0, true);
    assert ParseInt(Trim(f.mark2)) == ScoreRead(m, 1, true);
    BuildMarksOfEntries(m, true);
  }

  /**
   * With zero scores kept, the edit of a stored student with one or two clean subjects
   * sends the marks back as stored, 0 scores included, and the backend accepts it and
   * stores those marks again.
   */
  lemma ZeroScoreKeptOnEdit(db: Store.Db, screen: Screen, st: Student, lower: Store.Collation)
    requires 0 < |st.mark| <= 2 && CleanSubjects(st.mark)
    requires Query.Plain(st.course) && Store.Exists(db.students, st.course, st.id)
    ensures var r := SubmitForm(LoadEditKeepingZero(screen, st));
      && r.PutRequest? && r.body.mark == st.mark
      && Received(r.body) == Some(StudentIn(Trim(st.name), st.age, Trim(st.gender), Trim(st.course), st.mark, None))
      && CourseAndId(r.url) == Some((st.course, st.id))
      && var target := CourseAndId(r.url).value;
         var u := Store.Update(db, target.0, target.1, Received(r.body).value, lower);
         && u.status == Store.Ok && ReplyTo(u.status) == JsonReply
         && u.db.students[Store.Locate(db.students, target.0, target.1)].mark == st.mark
  {
    UpdateTargetOfSession(LoadEditKeepingZero(screen, st).session);
    EditRoundTripKeepingZero(screen, st);
    var body := Payload(Trim(st.name), Some(st.age), Trim(st.gender), Trim(st.course), st.mark);
    ReceivedClean(body);
    DictOfDistinct(st.mark);
    Store.UpdateAccepted(db, st.course, st.id, Received(body).value, lower);
  }

  /** A body whose age parsed and whose subjects are no array indices reaches the backend as written. */
  lemma ReceivedClean(p: Payload)
    requires p.age.Some? && forall i :: 0 <= i < |p.mark| ==> !IsArrayIndex(p.mark[i].0)
    ensures Received(p) == Some(StudentIn(p.name, p.age.value, p.gender, p.course, p.mark, None))
  {
    EntriesInCreationOrder(p.mark);
  }

  /** The delete request carries no `student_id`, the parameter the backend's delete requires. */
  lemma DeleteSendsNoStudentId(rollNumber: int, course: string)
    requires Query.Plain(course)
    ensures var r := DeleteStudent(rollNumber, course, true);
      r.Some? && Query.Lookup(Query.Params(r.value.url), "student_id") == None
  {
    Query.LookupPair("course", course, "roll_number", IntToString(rollNumber), "student_id");
  }

  /** The delete URL naming the student's id, with the course escaped. */
  function DeleteByIdUrl(id: int, course: string): string {
    DeletePath + "?" + Param("course", Query.Escape(course)) + "&" + Param("student_id", IntToString(id))
  }

  lemma DeleteByIdParams(id: int, course: string)
    ensures Query.Params(DeleteByIdUrl(id, course)) == [("course", course), ("student_id", IntToString(id))]
  {
    PathsHaveNoQuery();
    NamesArePlain();
    IntToStringPlain(id);
    TwoParamsRead(DeletePath, "course", Query.Escape(course), "student_id", IntToString(id));
    Query.DecodeEscape(course);
    Query.DecodePlain(IntToString(id));
  }

  /** deleteStudent sending the student's id under the name the backend reads, the course escaped. */
  function DeleteStudentById(st: Student, confirmed: bool): (r: Option<Request>)
    ensures r.None? <==> !confirmed
    ensures r.Some? ==>
      && r.value.DeleteRequest?
      && Query.Lookup(Query.Params(r.value.url), "course") == Some(st.course)
      && Query.Lookup(Query.Params(r.value.url), "student_id") == Some(IntToString(st.id))
  {
    DeleteByIdParams(st.id, st.course);
    Query.LookupPair("course", st.course, "student_id", IntToString(st.id), "course");
    if confirmed then Some(DeleteRequest(DeleteByIdUrl(st.id, st.course))) else None
  }

  /**
   * The corrected delete of a stored student reaches its record: the backend reads the
   * student's course and integer id from the URL, and its delete succeeds.
   */
  lemma DeleteByIdRemovesRecord(db: Store.Db, st: Student)
    requires st in db.students
    ensures var r := DeleteStudentById(st, true);
      var ps := Query.Params(r.value.url);
      && Query.Lookup(ps, "student_id") == Some(IntToString(st.id))
      && CourseAndId(r.value.url) == Some((st.course, st.id))
      && var target := CourseAndId(r.value.url).value;
         Store.Delete(db, target.1, target.0).status == Store.Ok
  {
    DeleteByIdParams(st.id, st.course);
    TargetOfParams(DeleteByIdUrl(st.id, st.course), st.course, st.id);
    var i :| 0 <= i < |db.students| && db.students[i] == st;
    assert Store.Exists(db.students, st.course, st.id);
  }

  /**
   * The course is written into the delete URL unescaped, so a `+` in it reaches the
   * backend as a space.
   */
  lemma DeleteUrlMisreadsPlus(rollNumber: int, course: string)
    requires Query.Unbroken(course) && '%' !in course && '+' in course
    ensures var r := DeleteStudent(rollNumber, course, true);
      && r.Some?
      && Query.Lookup(Query.Params(r.value.url), "course") == Some(Query.Decode(course))
      && Query.Decode(course) != course
  {
    PathsHaveNoQuery();
    NamesArePlain();
    IntToStringPlain(rollNumber);
    TwoParamsRead(DeletePath, "course", course, "roll_number", IntToString(rollNumber));
    Query.DecodePlain(IntToString(rollNumber));
    Query.LookupPair("course", Query.Decode(course), "roll_number", IntToString(rollNumber), "course");
    Query.DecodeChangesPlus(course);
  }

  /** An unescaped `+` reaches the backend as a space: filtering by "C++" asks for course "C  ". */
  lemma ApplyFilterMisreadsPlus(courseField: string, genderField: string)
    requires var c := Trim(courseField); Query.Unbroken(c) && '%' !in c && '+' in c
    requires Query.Unbroken(Trim(genderField))
    ensures var c := Trim(courseField);
      && Query.Lookup(Query.Params(ApplyFilter(courseField, genderField).url), "course") == Some(Query.Decode(c))
      && Query.Decode(c) != c
  {
    var c, g := Trim(courseField), Trim(genderField);
    FilterQueryParams(c, g, c, g);
    FilterLookups(c, g, Query.Decode(c), Query.Decode(g));
    Query.DecodeChangesPlus(c);
  }

  /** applyFilter with each value escaped. */
  function ApplyFilterEscaped(courseField: string, genderField: string): (r: Request)
    ensures r.GetRequest?
    ensures var c, g := Trim(courseField), Trim(genderField);
      Query.Params(r.url) == (if c != "" then [("course", c)] else []) + (if g != "" then [("gender", g)] else [])
  {
    var c, g := Trim(courseField), Trim(genderField);
    FilterQueryParams(c, g, Query.Escape(c), Query.Escape(g));
    Query.DecodeEscape(c);
    Query.DecodeEscape(g);
    GetRequest(FilterPath + "?" + FilterQuery(c, g, Query.Escape(c), Query.Escape(g)))
  }

  /** With escaping, every filter text reaches the backend's filter as typed (after trimming). */
  lemma ApplyFilterEscapedSelects(db: Store.Db, courseField: string, genderField: string, collate: Store.Collation)
    ensures var ps := Query.Params(ApplyFilterEscaped(courseField, genderField).url);
      Store.Filter(db, Query.Lookup(ps, "course"), Query.Lookup(ps, "gender"), collate)
      == Store.Filter(db, Some(Trim(courseField)), Some(Trim(genderField)), collate)
  {
    ServerFilterAgrees(db, Trim(courseField), Trim(genderField), collate);
  }
}
