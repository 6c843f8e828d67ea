/** The student record as the backend stores it and the client receives it as JSON. */
module Records {
  import opened Wrappers
  import opened Seqs
  import opened JsObject

  /** Letter grades, best first. */
  datatype Grade = A | B | C | D

  /** The grade as the one-letter string the backend stores. */
  function GradeText(g: Grade): string {
    match g
    case A => "A"
    case B => "B"
    case C => "C"
    case D => "D"
  }

  /** Subject-to-score entries in the order the dictionary (or JSON object) lists them. */
  type Marks = seq<(string, int)>

  /**
   * The dictionary that decoding a JSON object's members builds: a repeated subject
   * keeps the place of its first occurrence and takes its last score.
   */
  function DictOf(members: Marks): (d: Marks)
    ensures Distinct(KeysOf(d))
    ensures forall k :: Get(d, k) == LastScore(members, k)
    ensures |d| == 0 <==> |members| == 0
  {
    if |members| == 0 then []
    else
      var front := DictOf(members[..|members| - 1]);
      var last := members[|members| - 1];
      PutKeepsKeysDistinct(front, last.0, last.1);
      Put(front, last.0, last.1)
  }

  /** The score the last member named `k` carries, if any member does. */
  function LastScore(members: Marks, k: string): Option<int> {
    if |members| == 0 then None
    else if members[|members| - 1].0 == k then Some(members[|members| - 1].1)
    else LastScore(members[..|members| - 1], k)
  }

  /** Members with distinct subjects decode to themselves, in their own order. */
  lemma {:induction false} DictOfDistinct(members: Marks)
    requires Distinct(KeysOf(members))
    ensures DictOf(members) == members
  {
    if |members| > 0 {
      var n := |members| - 1;
      var front := members[..n];
      assert KeysOf(front) == KeysOf(members)[..n];
      DictOfDistinct(front);
      assert members[n].0 == KeysOf(members)[n];
      assert members[n].0 !in KeysOf(front);
      PutNew(front, members[n].0, members[n].1);
      FrontLast(members);
    }
  }

  /** A subject given twice keeps one entry, with the later score. */
  lemma DictOfRepeat(k: string, first: int, second: int)
    ensures DictOf([(k, first), (k, second)]) == [(k, second)]
  {
    var m := [(k, first), (k, second)];
    assert m[..1] == [(k, first)];
    assert m[..1][..0] == [];
  }

  /** A row of the `student_result` table. `avg` is exact; the backend keeps a float. */
  datatype Student = Student(
    id: int,
    rollNumber: int,
    name: string,
    age: int,
    gender: string,
    course: string,
    mark: Marks,
    avg: real,
    grade: Grade)

  /**
   * The request body of insert and update; `mark` holds the JSON object's members as
   * sent, before they become a dict. The optional `id` is accepted and ignored.
   */
  datatype StudentIn = StudentIn(
    name: string,
    age: int,
    gender: string,
    course: string,
    mark: Marks,
    id: Option<int>)
}
