/**
 * The view logic of static/main.js. Its renderTable writes each row as one HTML
 * template with a ninth column, the student's course, between gender and marks;
 * every other function of the page is the same code as in frontend/script.js, so
 * the members here are that page's functions under their own contracts, defined
 * through the Client model.
 */
module StaticMain {
  import opened Wrappers
  import opened Text
  import opened Decimal
  import opened JsObject
  import opened Records
  import Query
  import Client

  // ---------------------------------------------------------------------------
  // The table

  /**
   * The nine cells of a data row, each written into the row's markup: roll, name,
   * age, gender, course, marks, avg, grade, and the two buttons, whose delete call
   * names the student's own course.
   */
  function MainCells(st: Student, group: string): seq<Client.Cell> {
    [Client.MarkupCell(IntToString(st.rollNumber)), Client.MarkupCell(st.name),
     Client.MarkupCell(IntToString(st.age)), Client.MarkupCell(st.gender),
     Client.MarkupCell(st.course), Client.MarkupCell(Client.MarksCell(st.mark)),
     Client.AvgCell(st.avg), Client.MarkupCell(GradeText(st.grade)),
     Client.ActionsCell(st, st.rollNumber, st.course)]
  }

  /**
   * The row static/main.js shows for a line: a heading over 9 columns, or 9 cells in
   * order whose course column shows the course of the section the row sits in.
   */
  predicate MainRow(l: Client.Line, row: Client.Row) {
    match l
    case Heading(c) => row == Client.HeaderRow(c, 9)
    case Item(st, g) =>
      row == Client.DataRow(
        [Client.MarkupCell(IntToString(st.rollNumber)), Client.MarkupCell(st.name),
         Client.MarkupCell(IntToString(st.age)), Client.MarkupCell(st.gender),
         Client.MarkupCell(g), Client.MarkupCell(Client.MarksCell(st.mark)),
         Client.AvgCell(st.avg), Client.MarkupCell(GradeText(st.grade)),
         Client.ActionsCell(st, st.rollNumber, g)])
  }

  /**
   * renderTable of static/main.js: a TypeError when some course is an inherited name;
   * otherwise one row per line of the course sections, in the 9-column layout.
   */
  function RenderTable(data: seq<Student>): (r: Result<seq<Client.Row>, Client.JsError>)
    ensures r.Failure? <==> Client.HasInheritedCourse(data)
    ensures r.Success? ==>
      var lines := Client.Sections(Client.CourseOrder(data), data);
      |r.value| == |lines| && forall i :: 0 <= i < |lines| ==> MainRow(lines[i], r.value[i])
  {
    var r := Client.RenderWith(MainCells, 9, data);
    var lines := Client.Sections(Client.CourseOrder(data), data);
    Client.SectionsGroupByCourse(Client.CourseOrder(data), data);
    MainLayout(lines);
    r
  }

  lemma MainRowOfLine(l: Client.Line)
    requires l.Item? ==> l.group == l.student.course
    ensures MainRow(l, Client.RenderLine(MainCells, 9, l))
  {
    match l
    case Heading(c) =>
    case Item(st, g) =>
      assert Client.RenderLine(MainCells, 9, l) == Client.DataRow(MainCells(st, g));
  }

  lemma MainLayout(lines: seq<Client.Line>)
    requires Client.UnderOwnCourse(lines)
    ensures forall i :: 0 <= i < |lines| ==> MainRow(lines[i], Client.RenderLines(MainCells, 9, lines)[i])
  {
    forall i | 0 <= i < |lines|
      ensures MainRow(lines[i], Client.RenderLines(MainCells, 9, lines)[i])
    {
      MainRowOfLine(lines[i]);
    }
  }

  /**
   * Row `b` of this page shows what row `a` of the other page shows: the same
   * heading over 9 columns instead of 8; or the same student, with roll, name, age,
   * gender and grade written as markup instead of text, the course the delete button
   * names added after gender, and the marks, avg and buttons cells unchanged.
   */
  predicate Corresponds(a: Client.Row, b: Client.Row) {
    match a
    case HeaderRow(t, _) => b == Client.HeaderRow(t, 9)
    case DataRow(cells) =>
      && |cells| == 8
      && cells[0].NumCell? && cells[1].TextCell? && cells[2].NumCell? && cells[3].TextCell?
      && cells[6].TextCell? && cells[7].ActionsCell?
      && b == Client.DataRow(
           [Client.MarkupCell(IntToString(cells[0].n)), Client.MarkupCell(cells[1].text),
            Client.MarkupCell(IntToString(cells[2].n)), Client.MarkupCell(cells[3].text),
            Client.MarkupCell(cells[7].deleteCourse), cells[4], cells[5],
            Client.MarkupCell(cells[6].text), cells[7]])
  }

  /**
   * The two pages agree on which data they can show and on the row count, and each
   * row of this page shows what the other page's row at the same place shows.
   */
  lemma PagesAgree(data: seq<Student>)
    ensures RenderTable(data).Success? <==> Client.RenderTable(data).Success?
    ensures RenderTable(data).Success? ==>
      var a, b := Client.RenderTable(data).value, RenderTable(data).value;
      && |a| == |b|
      && forall i :: 0 <= i < |a| ==> Corresponds(a[i], b[i])
  {
    if RenderTable(data).Success? {
      var lines := Client.Sections(Client.CourseOrder(data), data);
      var a, b := Client.RenderTable(data).value, RenderTable(data).value;
      Client.SectionsGroupByCourse(Client.CourseOrder(data), data);
      forall i | 0 <= i < |a|
        ensures Corresponds(a[i], b[i])
      {
        RowsAgree(lines[i], a[i], b[i]);
      }
    }
  }

  lemma RowsAgree(l: Client.Line, a: Client.Row, b: Client.Row)
    requires Client.ScriptRow(l, a) && MainRow(l, b) && (l.Item? ==> l.group == l.student.course)
    ensures Corresponds(a, b)
    ensures a.DataRow? ==> b.cells[4] == Client.MarkupCell(l.student.course)
  {
  }

  // ---------------------------------------------------------------------------
  // The form, the session and the requests

  /**
   * The marks object submitForm builds from the inputs: a trimmed subject is present
   * exactly when it is non-empty, not `__proto__`, and its trimmed score parses; the
   * second pair wins for a repeated subject.
   */
  lemma MarksOfForm(f: Client.Form)
    ensures var s1, s2 := Trim(f.sub1), Trim(f.sub2);
      var m1, m2 := ParseInt(Trim(f.mark1)), ParseInt(Trim(f.mark2));
      forall k :: Get(Client.ReadForm(f).mark, k)
                  == if k == s2 && s2 != "" && s2 != "__proto__" && m2.Some? then m2
                     else if k == s1 && s1 != "" && s1 != "__proto__" && m1.Some? then m1
                     else None
  {
  }

  /**
   * submitForm of static/main.js: a PUT to the update endpoint while editing, naming
   * the captured course and id, a POST to the insert endpoint otherwise; the body is
   * the trimmed inputs with the age parsed and the marks object the inputs give.
   */
  function SubmitForm(screen: Client.Screen): (r: Client.Request)
    ensures r.PutRequest? <==> screen.session.editing
    ensures r.PostRequest? <==> !screen.session.editing
    ensures r.PutRequest? || r.PostRequest?
    ensures r.body.name == Trim(screen.form.name) && r.body.age == ParseInt(Trim(screen.form.age))
    ensures r.body.gender == Trim(screen.form.gender) && r.body.course == Trim(screen.form.course)
    ensures r.body == Client.ReadForm(screen.form)
    ensures var f := screen.form; var s1, s2 := Trim(f.sub1), Trim(f.sub2);
      var m1, m2 := ParseInt(Trim(f.mark1)), ParseInt(Trim(f.mark2));
      forall k :: Get(r.body.mark, k)
                  == if k == s2 && s2 != "" && s2 != "__proto__" && m2.Some? then m2
                     else if k == s1 && s1 != "" && s1 != "__proto__" && m1.Some? then m1
                     else None
    ensures r.PostRequest? ==> r.url == Client.InsertUrl
    ensures r.PutRequest? && Client.Wellformed(screen.session) && Query.Plain(screen.session.editingCourse.value) ==>
      Query.Lookup(Query.Params(r.url), "course") == screen.session.editingCourse
      && Query.Lookup(Query.Params(r.url), "student_id") == Some(IntToString(screen.session.editingId.value))
  {
    MarksOfForm(screen.form);
    var id, course := screen.session.editingId.GetOr(0), screen.session.editingCourse.GetOr("");
    Query.LookupPair("course", course, "student_id", IntToString(id), "course");
    Client.SubmitForm(screen)
  }

  /**
   * What follows the reply of a write: after a JSON reply the form is reset and the
   * list fetched again with no query; after a failed reply the page is left as it was
   * and nothing is sent.
   */
  function AfterWrite(screen: Client.Screen, reply: Client.WriteReply): (r: (Client.Screen, Option<Client.Request>))
    ensures reply == Client.JsonReply ==>
      && r.0.session == Client.Idle && r.0.form == Client.BlankForm
      && r.1.Some? && r.1.value.GetRequest? && Query.Params(r.1.value.url) == []
    ensures reply == Client.FailedReply ==> r.0 == screen && r.1.None?
  {
    Client.PathsHaveNoQuery();
    Query.NoQuery(Client.ViewUrl);
    Client.AfterWrite(screen, reply)
  }

  /**
   * loadEdit of static/main.js: editing the student's id and course, the button
   * relabelled, the inputs showing the student and the first two mark entries, a
   * score of 0 written as a blank input.
   */
  function LoadEdit(screen: Client.Screen, st: Student): (r: Client.Screen)
    ensures r.session.editing && r.session.editingId == Some(st.id) && r.session.editingCourse == Some(st.course)
    ensures r.submitLabel == "Update Student"
    ensures r.form.name == st.name && r.form.gender == st.gender && r.form.course == st.course
    ensures ParseInt(Trim(r.form.age)) == Some(st.age)
    ensures var subs := Entries(st.mark);
      && r.form.sub1 == (if |subs| > 0 then subs[0].0 else "")
      && r.form.sub2 == (if |subs| > 1 then subs[1].0 else "")
      && (r.form.mark1 == "" <==> |subs| == 0 || subs[0].1 == 0)
      && (r.form.mark2 == "" <==> |subs| <= 1 || subs[1].1 == 0)
      && (r.form.mark1 != "" ==> ParseInt(Trim(r.form.mark1)) == Some(subs[0].1))
      && (r.form.mark2 != "" ==> ParseInt(Trim(r.form.mark2)) == Some(subs[1].1))
  {
    Client.LoadEdit(screen, st)
  }

  /** deleteStudent of static/main.js: nothing unless confirmed, then a DELETE naming the course and roll number. */
  function DeleteStudent(rollNumber: int, course: string, confirmed: bool): (r: Option<Client.Request>)
    ensures r.None? <==> !confirmed
    ensures r.Some? ==> r.value.DeleteRequest?
    ensures r.Some? && Query.Plain(course) ==>
      Query.Lookup(Query.Params(r.value.url), "course") == Some(course)
      && Query.Lookup(Query.Params(r.value.url), "roll_number") == Some(IntToString(rollNumber))
      && Query.Lookup(Query.Params(r.value.url), "student_id") == None
  {
    Query.LookupPair("course", course, "roll_number", IntToString(rollNumber), "student_id");
    Client.DeleteStudent(rollNumber, course, confirmed)
  }

  /** resetForm of static/main.js: idle again, the inputs cleared, the button reading "Add Student". */
  function ResetForm(screen: Client.Screen): (r: Client.Screen)
    ensures !r.session.editing && r.session.editingId.None? && r.session.editingCourse.None?
    ensures r.form == Client.BlankForm && r.submitLabel == "Add Student"
  {
    Client.ResetForm(screen)
  }

  /**
   * applyFilter of static/main.js: a GET of the filter endpoint; for plain values the
   * backend reads the trimmed course exactly when it is non-empty, and the same for
   * gender.
   */
  function ApplyFilter(courseField: string, genderField: string): (r: Client.Request)
    ensures r.GetRequest?
    ensures var c, g := Trim(courseField), Trim(genderField);
      Query.Plain(c) && Query.Plain(g) ==>
        Query.Lookup(Query.Params(r.url), "course") == (if c != "" then Some(c) else None)
        && Query.Lookup(Query.Params(r.url), "gender") == (if g != "" then Some(g) else None)
  {
    var c, g := Trim(courseField), Trim(genderField);
    Client.FilterLookups(c, g, c, g);
    Client.ApplyFilter(courseField, genderField)
  }
}
