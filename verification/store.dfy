/** The two collections the handlers work on, the relationship invariant
    between them, and the by-id lookups (`findById`, `populate`). */
module Store {
  import opened Wrappers
  import opened Seqs
  import opened StudentModel

  type StudentId = nat

  /** A mentor as the handlers use it: a name and the ordered list of its
      current students. */
  datatype Mentor = Mentor(name: string, students: seq<StudentId>)

  /** Both collections, keyed by document id. */
  datatype State = State(
    students: map<StudentId, Student>,
    mentors: map<MentorId, Mentor>)

  /** Failure kinds of the handlers: an unknown id, a batch whose eligible
      students do not match the request, a schema violation, an id that is
      already taken, and a student whose mentor reference resolves to
      nothing. */
  datatype Error = NotFound | InvalidAssignment | ValidationError | DuplicateKey | DanglingMentor

  /** The student side of the relationship: `sid` names `m` as its mentor. */
  predicate HasMentor(st: State, sid: StudentId, m: MentorId)
  {
    sid in st.students && st.students[sid].mentor == Some(m)
  }

  /** The mentor side of the relationship: `m` lists `sid` among its students. */
  predicate Lists(st: State, m: MentorId, sid: StudentId)
  {
    m in st.mentors && sid in st.mentors[m].students
  }

  /** Bidirectional consistency: a student names a mentor exactly when that
      mentor lists the student, and no mentor lists a student twice. */
  ghost predicate Consistent(st: State)
  {
    && (forall sid, m :: HasMentor(st, sid, m) <==> Lists(st, m, sid))
    && (forall m | m in st.mentors :: NoDup(st.mentors[m].students))
  }

  /** Every mentor in any student's history still exists. */
  ghost predicate HistoryResolves(st: State)
  {
    forall sid, i | sid in st.students && 0 <= i < |st.students[sid].previousMentors| ::
      st.students[sid].previousMentors[i] in st.mentors
  }

  /** Under consistency a student is on at most one mentor's list. */
  lemma SingleMentor(st: State, sid: StudentId, m1: MentorId, m2: MentorId)
    requires Consistent(st)
    requires Lists(st, m1, sid) && Lists(st, m2, sid)
    ensures m1 == m2
  {
  }

  /** Resolves a list of references against a collection, in list order,
      skipping references that resolve to nothing (Mongoose `populate`). */
  function Populate<K, V>(refs: seq<K>, table: map<K, V>): (r: seq<V>)
    ensures |r| <= |refs|
    ensures forall v | v in r :: exists k | k in refs && k in table :: table[k] == v
    ensures (forall j | 0 <= j < |refs| :: refs[j] in table) ==>
              |r| == |refs| && forall i | 0 <= i < |r| :: r[i] == table[refs[i]]
  {
    if |refs| == 0 then []
    else
      var rest := Populate(refs[1..], table);
      assert forall j | 0 <= j < |refs| - 1 :: refs[1..][j] == refs[j + 1];
      assert forall k | k in refs[1..] :: k in refs;
      if refs[0] in table then [table[refs[0]]] + rest else rest
  }

  /** Populating concatenated lists concatenates the results. */
  lemma {:induction false} PopulateAppend<K, V>(a: seq<K>, b: seq<K>, table: map<K, V>)
    ensures Populate(a + b, table) == Populate(a, table) + Populate(b, table)
  {
    if |a| == 0 {
      assert a + b == b;
    } else {
      assert (a + b)[1..] == a[1..] + b;
      PopulateAppend(a[1..], b, table);
    }
  }
}
