/** The request handlers of routes/api.js as pure transitions on the store.
    A handler returns the whole new state on success; an `Err` means no
    write happened. */
module Api {
  import opened Wrappers
  import opened Seqs
  import opened StudentModel
  import opened Store

  // ---------------------------------------------------------------------
  // Creating a student
  // ---------------------------------------------------------------------

  /** POST /students as the handler is written: the whole request body goes
      to the constructor, so a body may also set `mentor` and
      `previousMentors`. `id` is the identifier the store assigns. */
  function CreateStudentAsWritten(st: State, id: StudentId, body: StudentBody): (r: Result<State, Error>)
    ensures r.Ok? <==> Supplied(body.name) && Supplied(body.email) && id !in st.students
    ensures !Supplied(body.name) || !Supplied(body.email) ==> r == Err(ValidationError)
    ensures r.Ok? ==> r.value.mentors == st.mentors && r.value.students.Keys == st.students.Keys + {id}
    ensures r.Ok? ==> forall sid | sid in st.students :: r.value.students[sid] == st.students[sid]
    ensures r.Ok? ==> r.value.students[id] ==
                      Student(body.name.value, body.email.value, body.mentor, body.previousMentors)
  {
    match Validate(body)
    case None => Err(ValidationError)
    case Some(s) =>
      if id in st.students then Err(DuplicateKey)
      else Ok(st.(students := st.students[id := s]))
  }

  /** POST /students restricted to the fields a new student is meant to
      carry: a name and an email. The record starts with no mentor and an
      empty history. */
  function CreateStudent(st: State, id: StudentId, name: Option<string>, email: Option<string>): (r: Result<State, Error>)
    ensures r.Ok? <==> Supplied(name) && Supplied(email) && id !in st.students
    ensures !Supplied(name) || !Supplied(email) ==> r == Err(ValidationError)
    ensures r.Ok? ==> r.value.mentors == st.mentors && r.value.students.Keys == st.students.Keys + {id}
    ensures r.Ok? ==> forall sid | sid in st.students :: r.value.students[sid] == st.students[sid]
    ensures r.Ok? ==> r.value.students[id] == Student(name.value, email.value, None, [])
  {
    CreateStudentAsWritten(st, id, StudentBody(name, email, None, []))
  }

  // ---------------------------------------------------------------------
  // Assigning a batch of students to a mentor
  // ---------------------------------------------------------------------

  /** The students `find({_id: {$in: ids}, mentor: null})` returns: requested
      ids that exist and have no mentor, each once. */
  function Eligible(st: State, ids: seq<StudentId>): (r: set<StudentId>)
    ensures r <= Elems(ids)
    ensures forall sid | sid in r :: sid in st.students && st.students[sid].mentor.None?
  {
    set sid | sid in ids && sid in st.students && st.students[sid].mentor.None?
  }

  /** The loop body applied to each found student in turn: set its mentor
      and push it onto the mentor's list. */
  function AssignEach(st: State, mentorId: MentorId, found: seq<StudentId>): (r: State)
    requires mentorId in st.mentors
    requires forall i | 0 <= i < |found| :: found[i] in st.students
    ensures r.students.Keys == st.students.Keys && r.mentors.Keys == st.mentors.Keys
    ensures r.mentors[mentorId] == st.mentors[mentorId].(students := st.mentors[mentorId].students + found)
    ensures forall m | m in st.mentors && m != mentorId :: r.mentors[m] == st.mentors[m]
    ensures forall sid | sid in st.students && sid in found :: r.students[sid] == st.students[sid].(mentor := Some(mentorId))
    ensures forall sid | sid in st.students && sid !in found :: r.students[sid] == st.students[sid]
    decreases |found|
  {
    if |found| == 0 then st
    else
      var sid := found[0];
      var m := st.mentors[mentorId];
      var next := State(
        st.students[sid := st.students[sid].(mentor := Some(mentorId))],
        st.mentors[mentorId := m.(students := m.students + [sid])]);
      assert found == [sid] + found[1..];
      assert m.students + [sid] + found[1..] == m.students + found;
      AssignEach(next, mentorId, found[1..])
  }

  /** POST /mentors/:mentorId/students: fails with NotFound for an unknown
      mentor and with InvalidAssignment unless every requested id is found
      as an unmentored student, counted once per request entry; otherwise
      assigns them all. The found students are appended in request order. */
  function AssignBatch(st: State, mentorId: MentorId, ids: seq<StudentId>): (r: Result<State, Error>)
    ensures mentorId !in st.mentors ==> r == Err(NotFound)
    ensures mentorId in st.mentors && |Eligible(st, ids)| != |ids| ==> r == Err(InvalidAssignment)
    ensures r.Ok? ==> forall i | 0 <= i < |ids| :: HasMentor(r.value, ids[i], mentorId) && Lists(r.value, mentorId, ids[i])
    ensures r.Ok? ==> r.value.students.Keys == st.students.Keys && r.value.mentors.Keys == st.mentors.Keys
    ensures r.Ok? ==> forall sid | sid in st.students && sid !in ids :: r.value.students[sid] == st.students[sid]
    ensures r.Ok? ==> forall sid | sid in st.students && sid in ids ::
                        r.value.students[sid] == st.students[sid].(mentor := Some(mentorId))
    ensures r.Ok? ==> forall m | m in st.mentors && m != mentorId :: r.value.mentors[m] == st.mentors[m]
    ensures r.Ok? ==> r.value.mentors[mentorId].name == st.mentors[mentorId].name
    ensures r.Ok? ==> r.value.mentors[mentorId].students == st.mentors[mentorId].students + ids
  {
    if mentorId !in st.mentors then Err(NotFound)
    else if |Eligible(st, ids)| != |ids| then Err(InvalidAssignment)
    else
      assert forall i | 0 <= i < |ids| :: ids[i] in st.students by {
        EligibleCoversIds(st, ids);
      }
      Ok(AssignEach(st, mentorId, ids))
  }

  /** When the eligible set is as large as the request, every requested id
      is eligible and none is repeated. */
  lemma EligibleCoversIds(st: State, ids: seq<StudentId>)
    requires |Eligible(st, ids)| == |ids|
    ensures NoDup(ids)
    ensures forall i | 0 <= i < |ids| :: ids[i] in st.students && st.students[ids[i]].mentor.None?
  {
    var e := Eligible(st, ids);
    ElemsCard(ids);
    SubsetCard(e, Elems(ids));
    assert e == Elems(ids);
    assert forall i | 0 <= i < |ids| :: ids[i] in Elems(ids);
  }

  // ---------------------------------------------------------------------
  // Changing a student's mentor
  // ---------------------------------------------------------------------

  /** PUT /students/:studentId/mentor: NotFound for an unknown student or new
      mentor; if the student has a mentor, that mentor drops the student and
      is appended to the student's history (an unresolvable current mentor
      aborts with DanglingMentor); then the student points at the new mentor,
      which lists it last. Moving a student to the mentor it already has is
      not part of this model. */
  function Reassign(st: State, studentId: StudentId, newMentorId: MentorId): (r: Result<State, Error>)
    requires studentId in st.students && newMentorId in st.mentors ==>
               st.students[studentId].mentor != Some(newMentorId)
    ensures studentId !in st.students ==> r == Err(NotFound)
    ensures newMentorId !in st.mentors ==> r == Err(NotFound)
    ensures r.Err? ==> r.error == NotFound || r.error == DanglingMentor
    ensures r.Err? && r.error == DanglingMentor ==>
              studentId in st.students && st.students[studentId].mentor.Some? &&
              st.students[studentId].mentor.value !in st.mentors
    ensures r.Ok? ==> studentId in st.students && newMentorId in st.mentors
    ensures r.Ok? ==> r.value.students.Keys == st.students.Keys && r.value.mentors.Keys == st.mentors.Keys
    ensures r.Ok? ==> forall sid | sid in st.students && sid != studentId :: r.value.students[sid] == st.students[sid]
    ensures r.Ok? ==> HasMentor(r.value, studentId, newMentorId)
    ensures r.Ok? ==> r.value.students[studentId].name == st.students[studentId].name &&
                      r.value.students[studentId].email == st.students[studentId].email
    ensures r.Ok? ==> r.value.mentors[newMentorId] ==
                      st.mentors[newMentorId].(students := st.mentors[newMentorId].students + [studentId])
    ensures r.Ok? && st.students[studentId].mentor.None? ==>
              && r.value.students[studentId].previousMentors == st.students[studentId].previousMentors
              && forall m | m in st.mentors && m != newMentorId :: r.value.mentors[m] == st.mentors[m]
    ensures r.Ok? && st.students[studentId].mentor.Some? ==>
              var prev := st.students[studentId].mentor.value;
              && prev in st.mentors
              && r.value.students[studentId].previousMentors == st.students[studentId].previousMentors + [prev]
              && r.value.mentors[prev] == st.mentors[prev].(students := Pull(st.mentors[prev].students, studentId))
              && forall m | m in st.mentors && m != newMentorId && m != prev :: r.value.mentors[m] == st.mentors[m]
  {
    if studentId !in st.students then Err(NotFound)
    else if newMentorId !in st.mentors then Err(NotFound)
    else
      var s := st.students[studentId];
      // The new mentor document is fetched before the previous mentor is saved.
      var target := st.mentors[newMentorId];
      match s.mentor
      case None =>
        var s' := s.(mentor := Some(newMentorId));
        Ok(State(
          st.students[studentId := s'],
          st.mentors[newMentorId := target.(students := target.students + [studentId])]))
      case Some(prev) =>
        if prev !in st.mentors then Err(DanglingMentor)
        else
          var p := st.mentors[prev];
          var afterPull := st.mentors[prev := p.(students := Pull(p.students, studentId))];
          var s' := s.(mentor := Some(newMentorId), previousMentors := s.previousMentors + [prev]);
          Ok(State(
            st.students[studentId := s'],
            afterPull[newMentorId := target.(students := target.students + [studentId])]))
  }

  // ---------------------------------------------------------------------
  // Lookups
  // ---------------------------------------------------------------------

  /** GET /mentors/:mentorId/students: the mentor's students resolved to
      records, in list order. */
  function ListStudentsOf(st: State, mentorId: MentorId): (r: Result<seq<Student>, Error>)
    ensures mentorId !in st.mentors <==> r == Err(NotFound)
    ensures r.Ok? ==> |r.value| <= |st.mentors[mentorId].students|
    ensures r.Ok? ==> forall s | s in r.value ::
                        exists sid | sid in st.mentors[mentorId].students && sid in st.students :: st.students[sid] == s
  {
    if mentorId !in st.mentors then Err(NotFound)
    else Ok(Populate(st.mentors[mentorId].students, st.students))
  }

  /** GET /students/:studentId/previous-mentors: the student's history
      resolved to mentor records, in the order the mentors were left. */
  function ListPreviousMentors(st: State, studentId: StudentId): (r: Result<seq<Mentor>, Error>)
    ensures studentId !in st.students <==> r == Err(NotFound)
    ensures r.Ok? ==> |r.value| <= |st.students[studentId].previousMentors|
    ensures r.Ok? && (forall m | m in st.students[studentId].previousMentors :: m in st.mentors) ==>
              var h := st.students[studentId].previousMentors;
              |r.value| == |h| && forall i | 0 <= i < |h| :: r.value[i] == st.mentors[h[i]]
  {
    if studentId !in st.students then Err(NotFound)
    else Ok(Populate(st.students[studentId].previousMentors, st.mentors))
  }

  // ---------------------------------------------------------------------
  // The writing routes as one step of the store
  // ---------------------------------------------------------------------

  /** The three writing requests on students. */
  datatype Request =
    | NewStudent(id: StudentId, name: Option<string>, email: Option<string>)
    | AssignStudents(mentorId: MentorId, ids: seq<StudentId>)
    | ChangeMentor(studentId: StudentId, newMentorId: MentorId)

  /** Every request except moving a student to the mentor it already has. */
  predicate Modelled(st: State, req: Request)
  {
    req.ChangeMentor? && req.studentId in st.students && req.newMentorId in st.mentors ==>
      st.students[req.studentId].mentor != Some(req.newMentorId)
  }

  /** The handler's answer to one request, on the corrected create route. */
  function Outcome(st: State, req: Request): (r: Result<State, Error>)
    requires Modelled(st, req)
    ensures r.Err? ==> r.error != DuplicateKey || req.NewStudent?
    ensures r.Ok? ==> st.students.Keys <= r.value.students.Keys
  {
    match req
    case NewStudent(id, name, email) => CreateStudent(st, id, name, email)
    case AssignStudents(m, ids) => AssignBatch(st, m, ids)
    case ChangeMentor(sid, m) => Reassign(st, sid, m)
  }

  /** The store after serving one request: a refused request writes nothing.
      No record is removed, names and emails never change, and a student's
      history only grows, by at most one entry per request. */
  function Handle(st: State, req: Request): (r: State)
    requires Modelled(st, req)
    ensures Outcome(st, req).Err? ==> r == st
    ensures st.students.Keys <= r.students.Keys && r.mentors.Keys == st.mentors.Keys
    ensures forall m | m in st.mentors :: r.mentors[m].name == st.mentors[m].name
    ensures forall sid | sid in st.students ::
              && r.students[sid].name == st.students[sid].name
              && r.students[sid].email == st.students[sid].email
              && st.students[sid].previousMentors <= r.students[sid].previousMentors
              && |r.students[sid].previousMentors| <= |st.students[sid].previousMentors| + 1
  {
    var out := Outcome(st, req);
    if out.Ok? then out.value else st
  }
}
