/**
 * The backend's record store (main1.py): the `student_result` table as a sequence in
 * storage order, and the insert, update, delete, filter and list endpoints as pure
 * transformers of it. A request that raises (404 or an unhandled division by zero)
 * rolls back, so its reply carries the store unchanged.
 *
 * Name and course ordering is a parameter: a key function applied before comparing
 * code points. Insert sorts with the database collation (`ORDER BY name`), update
 * with Python's `str.lower`. Ties keep storage order.
 */
module Store {
  import opened Wrappers
  import opened Seqs
  import opened Ordering
  import opened Sorting
  import opened JsObject
  import opened Records
  import opened Grading

  /** The table's rows in storage order and the next auto-increment id. */
  datatype Db = Db(students: seq<Student>, autoIncrement: int)

  /** How a request ends: success, `HTTPException(404)`, or the `ZeroDivisionError` of an empty mark map. */
  datatype Status = Ok | NotFound | ZeroDivision

  /** The store after the request, and its outcome. */
  datatype Reply = Reply(db: Db, status: Status)

  /** The sort key of a text column: a model of a collation or of `str.lower`. */
  type Collation = string -> string

  /** Ids are unique and below the auto-increment counter, as the primary key guarantees. */
  predicate Valid(db: Db) {
    && (forall i, j :: 0 <= i < j < |db.students| ==> db.students[i].id != db.students[j].id)
    && (forall i :: 0 <= i < |db.students| ==> db.students[i].id < db.autoIncrement)
  }

  // ---------------------------------------------------------------------------
  // Renumbering a course

  /** Positions of the course's students, in storage order. */
  function Members(s: seq<Student>, c: string): (r: seq<nat>)
    ensures forall i :: i in r <==> 0 <= i < |s| && s[i].course == c
    ensures forall j, k :: 0 <= j < k < |r| ==> r[j] < r[k]
    ensures forall j :: 0 <= j < |r| ==> r[j] < |s|
  {
    if |s| == 0 then []
    else
      var init := Members(s[..|s| - 1], c);
      if s[|s| - 1].course == c then init + [|s| - 1] else init
  }

  /** The number of students enrolled in course `c`. */
  function CourseSize(s: seq<Student>, c: string): nat {
    |Members(s, c)|
  }

  lemma {:induction false} MembersOfSameCourses(s: seq<Student>, t: seq<Student>, c: string)
    requires |s| == |t|
    requires forall i :: 0 <= i < |s| ==> s[i].course == t[i].course
    ensures Members(s, c) == Members(t, c)
  {
    if |s| > 0 {
      MembersOfSameCourses(s[..|s| - 1], t[..|t| - 1], c);
    }
  }

  /** Some student of course `c` holds roll number `k`. */
  predicate RollTaken(s: seq<Student>, c: string, k: int) {
    exists i :: 0 <= i < |s| && s[i].course == c && s[i].rollNumber == k
  }

  /**
   * The course is numbered 1..n in name order: every roll number is in range, no two
   * students share one, every number in range is used, and a smaller roll number never
   * goes to a name whose key sorts strictly later.
   */
  predicate NumberedByName(s: seq<Student>, c: string, key: Collation) {
    var n := CourseSize(s, c);
    && (forall i :: 0 <= i < |s| && s[i].course == c ==> 1 <= s[i].rollNumber <= n)
    && (forall i, j :: (0 <= i < |s| && 0 <= j < |s| && i != j && s[i].course == c && s[j].course == c)
          ==> s[i].rollNumber != s[j].rollNumber)
    && (forall k :: 1 <= k <= n ==> RollTaken(s, c, k))
    && (forall i, j :: (0 <= i < |s| && 0 <= j < |s| && s[i].course == c && s[j].course == c
          && s[i].rollNumber < s[j].rollNumber) ==> !StrLess(key(s[j].name), key(s[i].name)))
  }

  /** The key by which the position of a student is sorted when renumbering. */
  function NameOrder(s: seq<Student>, key: Collation): nat -> SortKey {
    (i: nat) => if i < |s| then SortKey(key(s[i].name), 0) else SortKey("", 0)
  }

  /** The course's positions sorted by name key, ties in storage order. */
  function RollOrder(s: seq<Student>, c: string, key: Collation): seq<nat> {
    Sort(Members(s, c), NameOrder(s, key))
  }

  /** Gives the student at each position of `order` the roll number position + 1. */
  function AssignRolls(s: seq<Student>, c: string, order: seq<nat>): seq<Student> {
    seq(|s|, i requires 0 <= i < |s| =>
      if s[i].course == c then s[i].(rollNumber := IndexOf(order, i) + 1) else s[i])
  }

  /** The sorted positions are exactly the course's positions, each once, in name order. */
  lemma RollOrderFacts(s: seq<Student>, c: string, key: Collation)
    ensures var order := RollOrder(s, c, key);
      && Distinct(order)
      && |order| == CourseSize(s, c)
      && (forall i :: i in order <==> 0 <= i < |s| && s[i].course == c)
      && Sorted(order, NameOrder(s, key))
  {
    var members := Members(s, c);
    var order := RollOrder(s, c, key);
    DistinctPermutation(members, order);
    SortSorted(members, NameOrder(s, key));
    forall i
      ensures i in order <==> i in members
    {
      assert i in order <==> i in multiset(order);
    }
  }

  lemma AssignedRollsInRange(s: seq<Student>, c: string, key: Collation)
    ensures var r := AssignRolls(s, c, RollOrder(s, c, key));
      forall i :: 0 <= i < |r| && r[i].course == c ==> 1 <= r[i].rollNumber <= CourseSize(s, c)
  {
    RollOrderFacts(s, c, key);
  }

  /** The sorted positions are exactly the course's positions. */
  lemma RollOrderMembers(s: seq<Student>, c: string, key: Collation)
    ensures forall i :: i in RollOrder(s, c, key) <==> 0 <= i < |s| && s[i].course == c
  {
    RollOrderFacts(s, c, key);
  }

  lemma AssignedRollsDistinct(s: seq<Student>, c: string, key: Collation)
    ensures var r := AssignRolls(s, c, RollOrder(s, c, key));
      forall i, j :: (0 <= i < |r| && 0 <= j < |r| && i != j && r[i].course == c && r[j].course == c)
        ==> r[i].rollNumber != r[j].rollNumber
  {
    var order := RollOrder(s, c, key);
    var r := AssignRolls(s, c, order);
    RollOrderMembers(s, c, key);
    forall i, j | (0 <= i < |r| && 0 <= j < |r| && i != j && r[i].course == c && r[j].course == c)
      ensures r[i].rollNumber != r[j].rollNumber
    {
      assert s[i].course == c && s[j].course == c;
      DistinctRolls(s, c, order, i, j);
    }
  }

  /** Two members at different positions of the order get different roll numbers. */
  lemma DistinctRolls(s: seq<Student>, c: string, order: seq<nat>, i: nat, j: nat)
    requires i < |s| && j < |s| && i != j && s[i].course == c && s[j].course == c
    requires i in order && j in order
    ensures AssignRolls(s, c, order)[i].rollNumber != AssignRolls(s, c, order)[j].rollNumber
  {
    var p, q := IndexOf(order, i), IndexOf(order, j);
    assert order[p] == i && order[q] == j;
  }

  lemma AssignedRollsCover(s: seq<Student>, c: string, key: Collation)
    ensures var r := AssignRolls(s, c, RollOrder(s, c, key));
      forall k :: 1 <= k <= CourseSize(s, c) ==> RollTaken(r, c, k)
  {
    var order := RollOrder(s, c, key);
    var r := AssignRolls(s, c, order);
    RollOrderFacts(s, c, key);
    forall k | 1 <= k <= CourseSize(s, c)
      ensures RollTaken(r, c, k)
    {
      IndexOfDistinct(order, k - 1);
      assert r[order[k - 1]].rollNumber == k;
    }
  }

  lemma AssignedRollsOrdered(s: seq<Student>, c: string, key: Collation)
    ensures var r := AssignRolls(s, c, RollOrder(s, c, key));
      forall i, j :: (0 <= i < |r| && 0 <= j < |r| && r[i].course == c && r[j].course == c
        && r[i].rollNumber < r[j].rollNumber) ==> !StrLess(key(r[j].name), key(r[i].name))
  {
    var order := RollOrder(s, c, key);
    var r := AssignRolls(s, c, order);
    RollOrderFacts(s, c, key);
    forall i, j | (0 <= i < |r| && 0 <= j < |r| && r[i].course == c && r[j].course == c
        && r[i].rollNumber < r[j].rollNumber)
      ensures !StrLess(key(r[j].name), key(r[i].name))
    {
      var p := IndexOf(order, i);
      var q := IndexOf(order, j);
      assert KeyLeq(NameOrder(s, key)(order[p]), NameOrder(s, key)(order[q]));
    }
  }

  lemma AssignRollsNumbersByName(s: seq<Student>, c: string, key: Collation)
    ensures NumberedByName(AssignRolls(s, c, RollOrder(s, c, key)), c, key)
  {
    var r := AssignRolls(s, c, RollOrder(s, c, key));
    MembersOfSameCourses(s, r, c);
    AssignedRollsInRange(s, c, key);
    AssignedRollsDistinct(s, c, key);
    AssignedRollsCover(s, c, key);
    AssignedRollsOrdered(s, c, key);
  }

  /**
   * Renumbers course `c` as insert and update do after their commit: the course's
   * students get roll numbers 1..n in name order, and no other field or student changes.
   */
  function Renumber(s: seq<Student>, c: string, key: Collation): (r: seq<Student>)
    ensures |r| == |s|
    ensures forall i :: 0 <= i < |s| && s[i].course != c ==> r[i] == s[i]
    ensures forall i :: 0 <= i < |s| && s[i].course == c ==> r[i] == s[i].(rollNumber := r[i].rollNumber)
    ensures NumberedByName(r, c, key)
  {
    AssignRollsNumbersByName(s, c, key);
    AssignRolls(s, c, RollOrder(s, c, key))
  }

  // ---------------------------------------------------------------------------
  // Endpoints

  /** The row an insert adds before renumbering: the next id, roll number 0, computed avg and grade. */
  function NewRow(db: Db, input: StudentIn): Student
    requires |input.mark| > 0
  {
    var marks := DictOf(input.mark);
    var avg := Average(marks);
    Student(db.autoIncrement, 0, input.name, input.age, input.gender, input.course,
            marks, avg, GetGrade(avg))
  }

  /**
   * POST /insert/: computes the average and grade (failing on an empty mark map before
   * anything is stored), adds the row, then renumbers the row's course 1..n in
   * collation order of the names.
   */
  function Insert(db: Db, input: StudentIn, collate: Collation): (r: Reply)
    ensures r.status == Ok <==> |input.mark| > 0
    ensures r.status != Ok ==> r.status == ZeroDivision && r.db == db
    ensures r.status == Ok ==> |r.db.students| == |db.students| + 1
    ensures r.status == Ok ==>
      var s := db.students; var t := r.db.students; var row := t[|s|];
      && r.db.autoIncrement == db.autoIncrement + 1
      && row.id == db.autoIncrement
      && row.name == input.name && row.age == input.age && row.gender == input.gender
      && row.course == input.course && row.mark == DictOf(input.mark)
      && row.avg == (Sum(row.mark) as real) / (|row.mark| as real)
      && row.grade == GetGrade(row.avg)
      && CourseSize(t, input.course) == CourseSize(s, input.course) + 1
      && (forall i :: 0 <= i < |s| && s[i].course != input.course ==> t[i] == s[i])
      && (forall i :: 0 <= i < |s| && s[i].course == input.course
            ==> t[i] == s[i].(rollNumber := t[i].rollNumber))
      && NumberedByName(t, input.course, collate)
  {
    if |input.mark| == 0 then Reply(db, ZeroDivision)
    else
      var row := NewRow(db, input);
      var s := db.students + [row];
      var t := Renumber(s, input.course, collate);
      InsertFacts(db.students, row, input.course, collate);
      Reply(Db(t, db.autoIncrement + 1), Ok)
  }

  /** Appending a row of course `c` and renumbering `c` grows the course by one and changes only roll numbers. */
  lemma InsertFacts(s: seq<Student>, row: Student, c: string, key: Collation)
    requires row.course == c
    ensures var t := Renumber(s + [row], c, key);
      && t[|s|] == row.(rollNumber := t[|s|].rollNumber)
      && CourseSize(t, c) == CourseSize(s, c) + 1
      && (forall i :: 0 <= i < |s| && s[i].course != c ==> t[i] == s[i])
      && (forall i :: 0 <= i < |s| && s[i].course == c ==> t[i] == s[i].(rollNumber := t[i].rollNumber))
  {
    var u := s + [row];
    var t := Renumber(u, c, key);
    MembersOfSameCourses(u, t, c);
    MembersSnoc(s, row, c);
    forall i | 0 <= i < |s|
      ensures u[i] == s[i]
    {
    }
  }

  /** Appending a row of course `c` adds its position to the course's members. */
  lemma MembersSnoc(s: seq<Student>, row: Student, c: string)
    requires row.course == c
    ensures Members(s + [row], c) == Members(s, c) + [|s|]
  {
    var u := s + [row];
    assert u[..|u| - 1] == s;
  }

  /** `filter_by(course=..., id=...).first()`: the first matching position, or `|s|` when none. */
  function Locate(s: seq<Student>, course: string, id: int): (k: nat)
    ensures k <= |s|
    ensures k < |s| ==> s[k].course == course && s[k].id == id
    ensures forall j :: 0 <= j < k ==> !(s[j].course == course && s[j].id == id)
  {
    if |s| == 0 then 0
    else if s[0].course == course && s[0].id == id then 0
    else 1 + Locate(s[1..], course, id)
  }

  /** Some row has this course and id. */
  predicate Exists(s: seq<Student>, course: string, id: int) {
    exists i :: 0 <= i < |s| && s[i].course == course && s[i].id == id
  }

  /**
   * PUT /update/?course=&student_id=: finds the row by its current course and id (404
   * if there is none), overwrites name, age, gender, course and marks, recomputes avg and
   * grade (failing on an empty mark map), then renumbers the NEW course by lower-cased
   * name. The course the student left is not renumbered.
   */
  function Update(db: Db, course: string, studentId: int, input: StudentIn, lower: Collation): (r: Reply)
    ensures r.status == NotFound <==> !Exists(db.students, course, studentId)
    ensures r.status == ZeroDivision <==> Exists(db.students, course, studentId) && |input.mark| == 0
    ensures r.status != Ok ==> r.db == db
    ensures r.status == Ok ==>
      Locate(db.students, course, studentId) < |db.students| && |r.db.students| == |db.students|
    ensures r.status == Ok ==>
      var s := db.students; var t := r.db.students; var k := Locate(s, course, studentId);
      && r.db.autoIncrement == db.autoIncrement
      && t[k].id == s[k].id
      && t[k].name == input.name && t[k].age == input.age && t[k].gender == input.gender
      && t[k].course == input.course && t[k].mark == DictOf(input.mark)
      && t[k].avg == (Sum(t[k].mark) as real) / (|t[k].mark| as real)
      && t[k].grade == GetGrade(t[k].avg)
      && (forall i :: 0 <= i < |s| && i != k && s[i].course != input.course ==> t[i] == s[i])
      && (forall i :: 0 <= i < |s| && i != k && s[i].course == input.course
            ==> t[i] == s[i].(rollNumber := t[i].rollNumber))
      && NumberedByName(t, input.course, lower)
  {
    var s := db.students;
    var k := Locate(s, course, studentId);
    if k == |s| then Reply(db, NotFound)
    else if |input.mark| == 0 then Reply(db, ZeroDivision)
    else
      Reply(Db(Renumber(s[k := Edited(s[k], input)], input.course, lower), db.autoIncrement), Ok)
  }

  /**
   * DELETE /delete/?student_id=&course=: removes the first row with this id and course
   * (404 if there is none) and renumbers nothing, so the course keeps a gap.
   */
  function Delete(db: Db, studentId: int, course: string): (r: Reply)
    ensures r.status != ZeroDivision
    ensures r.status == NotFound <==> !Exists(db.students, course, studentId)
    ensures r.status == NotFound ==> r.db == db
    ensures r.status == Ok ==> Locate(db.students, course, studentId) < |db.students|
    ensures r.status == Ok ==>
      var s := db.students; var t := r.db.students; var k := Locate(s, course, studentId);
      && t == s[..k] + s[k + 1..]
      && multiset(t) + multiset{s[k]} == multiset(s)
      && r.db.autoIncrement == db.autoIncrement
  {
    var s := db.students;
    var k := Locate(s, course, studentId);
    if k == |s| then Reply(db, NotFound)
    else
      assert s == s[..k] + [s[k]] + s[k + 1..];
      Reply(Db(s[..k] + s[k + 1..], db.autoIncrement), Ok)
  }

  /** A filter value counts only when it is given and non-empty (Python truthiness). */
  predicate Given(f: Option<string>) {
    f.Some? && f.value != ""
  }

  /** The row passes every filter that is given. */
  predicate Matches(st: Student, course: Option<string>, gender: Option<string>) {
    && (Given(course) ==> st.course == course.value)
    && (Given(gender) ==> st.gender == gender.value)
  }

  /** The matching rows, in storage order. */
  function Selected(s: seq<Student>, course: Option<string>, gender: Option<string>): (r: seq<Student>)
    ensures forall x :: multiset(r)[x] == if Matches(x, course, gender) then multiset(s)[x] else 0
  {
    if |s| == 0 then []
    else
      FrontLast(s);
      var init := Selected(s[..|s| - 1], course, gender);
      if Matches(s[|s| - 1], course, gender) then init + [s[|s| - 1]] else init
  }

  /** The listing order `ORDER BY course, roll_number`. */
  function ListingOrder(collate: Collation): Student -> SortKey {
    (st: Student) => SortKey(collate(st.course), st.rollNumber)
  }

  /** `r` lists courses in collation order and each course by ascending roll number. */
  predicate ListedInOrder(r: seq<Student>, collate: Collation) {
    forall i, j :: 0 <= i < j < |r| ==>
      && !StrLess(collate(r[j].course), collate(r[i].course))
      && (collate(r[i].course) == collate(r[j].course) ==> r[i].rollNumber <= r[j].rollNumber)
  }

  lemma SortedListing(r: seq<Student>, collate: Collation)
    requires Sorted(r, ListingOrder(collate))
    ensures ListedInOrder(r, collate)
  {
    forall i, j | 0 <= i < j < |r|
      ensures !StrLess(collate(r[j].course), collate(r[i].course))
    {
      assert KeyLeq(ListingOrder(collate)(r[i]), ListingOrder(collate)(r[j]));
      StrLessIrreflexive(collate(r[i].course));
    }
  }

  /**
   * GET /students/filter: every row passing the given filters, each as often as it is
   * stored and no other, ordered by (course, roll number).
   */
  function Filter(db: Db, course: Option<string>, gender: Option<string>, collate: Collation): (r: seq<Student>)
    ensures forall x :: multiset(r)[x] == if Matches(x, course, gender) then multiset(db.students)[x] else 0
    ensures forall x :: x in r <==> x in db.students && Matches(x, course, gender)
    ensures ListedInOrder(r, collate)
  {
    var picked := Selected(db.students, course, gender);
    var r := Sort(picked, ListingOrder(collate));
    SortSorted(picked, ListingOrder(collate));
    SortedListing(r, collate);
    assert forall x :: x in r <==> multiset(r)[x] > 0;
    r
  }

  /** GET /view/: the whole table ordered by (course, roll number). */
  function ViewAll(db: Db, collate: Collation): (r: seq<Student>)
    ensures multiset(r) == multiset(db.students)
    ensures ListedInOrder(r, collate)
  {
    SortSorted(db.students, ListingOrder(collate));
    SortedListing(Sort(db.students, ListingOrder(collate)), collate);
    Sort(db.students, ListingOrder(collate))
  }

  /** Without filters every row is selected. */
  lemma {:induction false} SelectedUnfiltered(s: seq<Student>)
    ensures Selected(s, None, None) == s
  {
    if |s| > 0 {
      var init, last := s[..|s| - 1], s[|s| - 1];
      SelectedUnfiltered(init);
      assert Matches(last, None, None);
      assert Selected(s, None, None) == Selected(init, None, None) + [last];
      FrontLast(s);
    }
  }

  /** Filtering with no (or only empty) filters is the full listing. */
  lemma FilterWithoutFiltersIsViewAll(db: Db, collate: Collation)
    ensures Filter(db, None, None, collate) == ViewAll(db, collate)
    ensures Filter(db, Some(""), Some(""), collate) == ViewAll(db, collate)
  {
    SelectedUnfiltered(db.students);
    assert Selected(db.students, Some(""), Some("")) == Selected(db.students, None, None) by {
      SelectedIgnoresEmpty(db.students);
    }
  }

  /** Filters that pass the same rows select the same rows. */
  lemma {:induction false} SelectedAgree(s: seq<Student>, c1: Option<string>, g1: Option<string>, c2: Option<string>, g2: Option<string>)
    requires forall x :: Matches(x, c1, g1) == Matches(x, c2, g2)
    ensures Selected(s, c1, g1) == Selected(s, c2, g2)
  {
    if |s| > 0 {
      SelectedAgree(s[..|s| - 1], c1, g1, c2, g2);
    }
  }

  /** Filters that pass the same rows give the same listing. */
  lemma FilterAgree(db: Db, c1: Option<string>, g1: Option<string>, c2: Option<string>, g2: Option<string>, collate: Collation)
    requires forall x :: Matches(x, c1, g1) == Matches(x, c2, g2)
    ensures Filter(db, c1, g1, collate) == Filter(db, c2, g2, collate)
  {
    SelectedAgree(db.students, c1, g1, c2, g2);
  }

  lemma {:induction false} SelectedIgnoresEmpty(s: seq<Student>)
    ensures Selected(s, Some(""), Some("")) == Selected(s, None, None)
  {
    if |s| > 0 {
      SelectedIgnoresEmpty(s[..|s| - 1]);
    }
  }

  /**
   * Moving a student to another course leaves a gap: in a course numbered 1, 2, 3,
   * updating the first student into another course leaves roll numbers 2 and 3 only.
   */
  lemma UpdateLeavesGapInOldCourse(a: Student, b: Student, c: Student, input: StudentIn, lower: Collation)
    requires a.course == b.course == c.course != input.course
    requires a.rollNumber == 1 && b.rollNumber == 2 && c.rollNumber == 3
    requires |input.mark| > 0
    ensures var r := Update(Db([a, b, c], 10), a.course, a.id, input, lower);
      && r.status == Ok
      && !RollTaken(r.db.students, a.course, 1)
      && CourseSize(r.db.students, a.course) == 2
  {
    var s := [a, b, c];
    var r := Update(Db(s, 10), a.course, a.id, input, lower);
    GapRows(a, b, c, input, lower);
    var t := r.db.students;
    MembersOfLastTwo(t, a.course);
  }

  /** The update of the first of three stored rows moves it and leaves the other two as they were. */
  lemma GapRows(a: Student, b: Student, c: Student, input: StudentIn, lower: Collation)
    requires a.course == b.course == c.course != input.course
    requires |input.mark| > 0
    ensures var r := Update(Db([a, b, c], 10), a.course, a.id, input, lower);
      && r.status == Ok
      && |r.db.students| == 3 && r.db.students[0].course == input.course
      && r.db.students[1] == b && r.db.students[2] == c
  {
    var s := [a, b, c];
    assert Exists(s, a.course, a.id) by { assert s[0].course == a.course && s[0].id == a.id; }
    assert Locate(s, a.course, a.id) == 0;
  }

  lemma MembersOfLastTwo(t: seq<Student>, c: string)
    requires |t| == 3 && t[0].course != c && t[1].course == c && t[2].course == c
    ensures Members(t, c) == [1, 2]
  {
    assert Members(t[..1], c) == [] by {
      assert t[..1][..0] == [] && t[..1][0] == t[0];
    }
    assert Members(t[..2], c) == [1] by {
      assert t[..2][..1] == t[..1] && t[..2][1] == t[1];
    }
    assert t[..|t| - 1] == t[..2];
  }

  // ---------------------------------------------------------------------------
  // The primary-key invariant

  /** Renumbering never touches an id. */
  lemma RenumberKeepsIds(s: seq<Student>, c: string, key: Collation)
    ensures forall i :: 0 <= i < |s| ==> Renumber(s, c, key)[i].id == s[i].id
  {
    var t := Renumber(s, c, key);
    forall i | 0 <= i < |s|
      ensures t[i].id == s[i].id
    {
      if s[i].course == c {
        assert t[i] == s[i].(rollNumber := t[i].rollNumber);
      }
    }
  }

  /** Renumbering keeps a table valid: ids are untouched. */
  lemma RenumberKeepsValid(s: seq<Student>, c: string, key: Collation, next: int)
    requires Valid(Db(s, next))
    ensures Valid(Db(Renumber(s, c, key), next))
  {
    RenumberKeepsIds(s, c, key);
  }

  /** A successful insert stores the renumbered table with the new row appended. */
  lemma InsertStores(db: Db, input: StudentIn, collate: Collation)
    requires |input.mark| > 0
    ensures Insert(db, input, collate).db
            == Db(Renumber(db.students + [NewRow(db, input)], input.course, collate), db.autoIncrement + 1)
  {
  }

  /** Appending a row with the counter's id and advancing the counter keeps a table valid. */
  lemma AppendFreshKeepsValid(s: seq<Student>, row: Student, next: int)
    requires Valid(Db(s, next)) && row.id == next
    ensures Valid(Db(s + [row], next + 1))
  {
    var u := s + [row];
    forall i | 0 <= i < |s|
      ensures u[i] == s[i]
    {
    }
  }

  lemma InsertedValid(db: Db, input: StudentIn, collate: Collation)
    requires Valid(db) && |input.mark| > 0
    ensures Valid(Db(Renumber(db.students + [NewRow(db, input)], input.course, collate), db.autoIncrement + 1))
  {
    var row := NewRow(db, input);
    AppendFreshKeepsValid(db.students, row, db.autoIncrement);
    RenumberKeepsValid(db.students + [row], input.course, collate, db.autoIncrement + 1);
  }

  /** Insert gives the new row a fresh id and advances the counter. */
  lemma InsertKeepsValid(db: Db, input: StudentIn, collate: Collation)
    requires Valid(db)
    ensures Valid(Insert(db, input, collate).db)
  {
    if |input.mark| > 0 {
      InsertedValid(db, input, collate);
      InsertStores(db, input, collate);
    }
  }

  /** A subject sent twice is stored once, and the average counts only its later score. */
  lemma InsertRepeatedSubject(db: Db, input: StudentIn, k: string, first: int, second: int, collate: Collation)
    requires input.mark == [(k, first), (k, second)]
    ensures var r := Insert(db, input, collate);
      && r.status == Ok
      && r.db.students[|db.students|].mark == [(k, second)]
      && r.db.students[|db.students|].avg == second as real
  {
    RepeatedSubjectRow(db, input, k, first, second);
    InsertStores(db, input, collate);
    var u := db.students + [NewRow(db, input)];
    assert u[|db.students|] == NewRow(db, input);
  }

  lemma RepeatedSubjectRow(db: Db, input: StudentIn, k: string, first: int, second: int)
    requires input.mark == [(k, first), (k, second)]
    ensures NewRow(db, input).mark == [(k, second)] && NewRow(db, input).avg == second as real
  {
    DictOfRepeat(k, first, second);
    var m := [(k, second)];
    assert m[..0] == [];
    assert Sum(m) == second;
    assert Average(m) * 1.0 == second as real;
  }

  /** An update of a stored row with at least one mark succeeds. */
  lemma UpdateAccepted(db: Db, course: string, studentId: int, input: StudentIn, lower: Collation)
    requires Exists(db.students, course, studentId) && |input.mark| > 0
    ensures Update(db, course, studentId, input, lower).status == Ok
  {
  }

  /** The row an update writes over position `k`. */
  function Edited(st: Student, input: StudentIn): Student
    requires |input.mark| > 0
  {
    var marks := DictOf(input.mark);
    var avg := Average(marks);
    st.(name := input.name, age := input.age, gender := input.gender,
        course := input.course, mark := marks, avg := avg, grade := GetGrade(avg))
  }

  /** A successful update stores the renumbered table with the located row edited. */
  lemma UpdateStores(db: Db, course: string, studentId: int, input: StudentIn, lower: Collation)
    requires Locate(db.students, course, studentId) < |db.students| && |input.mark| > 0
    ensures var k := Locate(db.students, course, studentId);
      Update(db, course, studentId, input, lower).db
      == Db(Renumber(db.students[k := Edited(db.students[k], input)], input.course, lower), db.autoIncrement)
  {
  }

  /** Update keeps every id, including the edited row's. */
  lemma UpdateKeepsValid(db: Db, course: string, studentId: int, input: StudentIn, lower: Collation)
    requires Valid(db)
    ensures Valid(Update(db, course, studentId, input, lower).db)
  {
    var s := db.students;
    var k := Locate(s, course, studentId);
    if k < |s| && |input.mark| > 0 {
      var u := s[k := Edited(s[k], input)];
      assert Valid(Db(u, db.autoIncrement)) by {
        assert forall i :: 0 <= i < |s| ==> u[i].id == s[i].id;
      }
      RenumberKeepsValid(u, input.course, lower, db.autoIncrement);
      UpdateStores(db, course, studentId, input, lower);
    }
  }

  /** With unique ids, delete removes the only row with that id and course. */
  lemma DeleteRemovesTheRecord(db: Db, studentId: int, course: string)
    requires Valid(db)
    ensures var r := Delete(db, studentId, course);
      && Valid(r.db)
      && !Exists(r.db.students, course, studentId)
  {
    var s := db.students;
    var k := Locate(s, course, studentId);
    if k < |s| {
      var t := Delete(db, studentId, course).db.students;
      assert t == s[..k] + s[k + 1..];
      forall j | 0 <= j < |t|
        ensures t[j] == s[Skip(j, k)] && Skip(j, k) != k && Skip(j, k) < |s|
      {
      }
      forall j | 0 <= j < |t|
        ensures t[j].id != studentId
      {
        assert s[Skip(j, k)].id != s[k].id;
      }
      forall i, j | 0 <= i < j < |t|
        ensures t[i].id != t[j].id
      {
        assert Skip(i, k) < Skip(j, k);
      }
    }
  }

  /** The position in the original sequence of position `j` after removing position `k`. */
  function Skip(j: nat, k: nat): nat {
    if j < k then j else j + 1
  }
}
