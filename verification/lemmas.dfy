/** Properties that relate the handlers to the relationship invariant and
    to each other. */
module ApiLemmas {
  import opened Wrappers
  import opened Seqs
  import opened StudentModel
  import opened Store
  import opened Api

  /** A batch assignment succeeds exactly when the mentor exists and the
      request names distinct existing students that have no mentor. */
  lemma AssignBatchSucceedsIff(st: State, mentorId: MentorId, ids: seq<StudentId>)
    ensures AssignBatch(st, mentorId, ids).Ok? <==>
              && mentorId in st.mentors
              && NoDup(ids)
              && forall i | 0 <= i < |ids| :: ids[i] in st.students && st.students[ids[i]].mentor.None?
  {
    var e := Eligible(st, ids);
    if |e| == |ids| {
      EligibleCoversIds(st, ids);
    }
    if NoDup(ids) && forall i | 0 <= i < |ids| :: ids[i] in st.students && st.students[ids[i]].mentor.None? {
      ElemsCard(ids);
      assert e == Elems(ids);
    }
  }

  /** A request that repeats an id, names a missing student or names a
      student that already has a mentor is refused. */
  lemma AssignBatchRejectsBadIds(st: State, mentorId: MentorId, ids: seq<StudentId>, i: nat)
    requires mentorId in st.mentors
    requires i < |ids|
    requires ids[i] !in st.students || st.students[ids[i]].mentor.Some? || ids[i] in ids[..i]
    ensures AssignBatch(st, mentorId, ids) == Err(InvalidAssignment)
  {
    AssignBatchSucceedsIff(st, mentorId, ids);
    if ids[i] in ids[..i] {
      var j :| 0 <= j < i && ids[..i][j] == ids[i];
      assert ids[j] == ids[i];
    }
  }

  /** A successful batch assignment keeps the relationship consistent. */
  lemma AssignBatchPreservesConsistency(st: State, mentorId: MentorId, ids: seq<StudentId>)
    requires Consistent(st)
    requires AssignBatch(st, mentorId, ids).Ok?
    ensures Consistent(AssignBatch(st, mentorId, ids).value)
  {
    var st' := AssignBatch(st, mentorId, ids).value;
    AssignBatchSucceedsIff(st, mentorId, ids);
    forall sid, m
      ensures HasMentor(st', sid, m) <==> Lists(st', m, sid)
    {
      if sid in ids {
        assert st.students[sid].mentor.None?;
        assert !Lists(st, m, sid) by {
          assert !HasMentor(st, sid, m);
        }
      } else {
        assert HasMentor(st', sid, m) <==> HasMentor(st, sid, m);
      }
    }
    var before := st.mentors[mentorId].students;
    forall m | m in st'.mentors
      ensures NoDup(st'.mentors[m].students)
    {
      if m == mentorId {
        NoDupAppend(before, ids);
        forall sid | sid in Elems(before)
          ensures sid !in Elems(ids)
        {
          assert Lists(st, mentorId, sid);
        }
      }
    }
  }

  /** On a consistent store a reassignment can only fail because an id is
      unknown: the current mentor always resolves. */
  lemma ReassignFailsOnlyOnUnknownIds(st: State, studentId: StudentId, newMentorId: MentorId)
    requires Consistent(st)
    requires studentId in st.students && newMentorId in st.mentors ==>
               st.students[studentId].mentor != Some(newMentorId)
    ensures Reassign(st, studentId, newMentorId).Ok? <==> studentId in st.students && newMentorId in st.mentors
  {
    if studentId in st.students && st.students[studentId].mentor.Some? {
      assert HasMentor(st, studentId, st.students[studentId].mentor.value);
    }
  }

  /** A successful reassignment keeps the relationship consistent. */
  lemma ReassignPreservesConsistency(st: State, studentId: StudentId, newMentorId: MentorId)
    requires Consistent(st)
    requires studentId in st.students && newMentorId in st.mentors ==>
               st.students[studentId].mentor != Some(newMentorId)
    requires Reassign(st, studentId, newMentorId).Ok?
    ensures Consistent(Reassign(st, studentId, newMentorId).value)
  {
    var st' := Reassign(st, studentId, newMentorId).value;
    var cur := st.students[studentId].mentor;
    forall sid, m
      ensures HasMentor(st', sid, m) <==> Lists(st', m, sid)
    {
      if sid == studentId {
        if m != newMentorId && (cur.None? || m != cur.value) {
          assert !Lists(st', m, sid) by {
            assert !HasMentor(st, sid, m);
          }
        }
      } else {
        assert HasMentor(st', sid, m) <==> HasMentor(st, sid, m);
        assert Lists(st', m, sid) <==> Lists(st, m, sid);
      }
    }
    forall m | m in st'.mentors
      ensures NoDup(st'.mentors[m].students)
    {
      if m == newMentorId {
        var l := st.mentors[newMentorId].students;
        assert studentId !in l by {
          assert !HasMentor(st, studentId, newMentorId);
        }
        NoDupAppend(l, [studentId]);
      } else if cur.Some? && m == cur.value {
        PullNoDup(st.mentors[m].students, studentId);
      }
    }
  }

  /** After a reassignment on a consistent store the student is on exactly
      one list, the new mentor's, and the mentor it left (if any) ends its
      history without being its current mentor. */
  lemma ReassignMovesStudent(st: State, studentId: StudentId, newMentorId: MentorId, m: MentorId)
    requires Consistent(st)
    requires studentId in st.students && newMentorId in st.mentors
    requires st.students[studentId].mentor != Some(newMentorId)
    ensures Reassign(st, studentId, newMentorId).Ok?
    ensures Reassign(st, studentId, newMentorId).value.students[studentId].mentor == Some(newMentorId)
    ensures Lists(Reassign(st, studentId, newMentorId).value, m, studentId) <==> m == newMentorId
    ensures var s := st.students[studentId];
            var s' := Reassign(st, studentId, newMentorId).value.students[studentId];
            s.mentor.Some? ==>
              && s'.previousMentors == s.previousMentors + [s.mentor.value]
              && Some(s'.previousMentors[|s'.previousMentors| - 1]) != s'.mentor
  {
    ReassignFailsOnlyOnUnknownIds(st, studentId, newMentorId);
    ReassignPreservesConsistency(st, studentId, newMentorId);
    var st' := Reassign(st, studentId, newMentorId).value;
    assert HasMentor(st', studentId, m) <==> m == newMentorId;
  }

  /** Creating a student through the corrected handler keeps the
      relationship consistent. */
  lemma CreateStudentPreservesConsistency(st: State, id: StudentId, name: Option<string>, email: Option<string>)
    requires Consistent(st)
    requires CreateStudent(st, id, name, email).Ok?
    ensures Consistent(CreateStudent(st, id, name, email).value)
  {
    var st' := CreateStudent(st, id, name, email).value;
    forall sid, m
      ensures HasMentor(st', sid, m) <==> Lists(st', m, sid)
    {
      if sid == id {
        assert !HasMentor(st, id, m);
      } else {
        assert HasMentor(st', sid, m) <==> HasMentor(st, sid, m);
      }
    }
  }

  /** The handler as written agrees with the corrected one on every body
      that does not set the relationship paths. */
  lemma CreateStudentAsWrittenAgrees(st: State, id: StudentId, body: StudentBody)
    requires body.mentor.None? && body.previousMentors == []
    ensures CreateStudentAsWritten(st, id, body) == CreateStudent(st, id, body.name, body.email)
  {
  }

  /** The handler as written lets a request body attach a mentor that does
      not list the new student: the relationship becomes inconsistent. */
  lemma CreateStudentAsWrittenBreaksConsistency()
    ensures var st := State(map[], map[0 := Mentor("Alice", [])]);
            var r := CreateStudentAsWritten(st, 1, StudentBody(Some("Bob"), Some("b@x.com"), Some(0), []));
            Consistent(st) && r.Ok? && !Consistent(r.value)
  {
    var st := State(map[], map[0 := Mentor("Alice", [])]);
    var r := CreateStudentAsWritten(st, 1, StudentBody(Some("Bob"), Some("b@x.com"), Some(0), []));
    assert HasMentor(r.value, 1, 0) && !Lists(r.value, 0, 1);
    forall sid, m
      ensures HasMentor(st, sid, m) <==> Lists(st, m, sid)
    {
      assert !HasMentor(st, sid, m);
      if m == 0 {
        assert st.mentors[0].students == [];
      }
    }
  }

  /** On a consistent store, listing a mentor's students resolves every
      entry, in list order, and each record names that mentor. */
  lemma ListStudentsOfComplete(st: State, mentorId: MentorId)
    requires Consistent(st)
    requires mentorId in st.mentors
    ensures var r := ListStudentsOf(st, mentorId);
            var l := st.mentors[mentorId].students;
            && r.Ok? && |r.value| == |l|
            && (forall i | 0 <= i < |l| :: l[i] in st.students && r.value[i] == st.students[l[i]])
            && (forall i | 0 <= i < |l| :: r.value[i].mentor == Some(mentorId))
  {
    var l := st.mentors[mentorId].students;
    assert forall j | 0 <= j < |l| :: Lists(st, mentorId, l[j]);
  }

  /** The worked example: Bob is assigned to Alice, then moved to Carl;
      Alice's list empties, Carl's holds Bob, and Bob's history is [Alice]. */
  lemma AssignThenReassignScenario()
    ensures var s0 := State(map[], map[1 := Mentor("Alice", [])]);
            var r1 := CreateStudent(s0, 10, Some("Bob"), Some("b@x.com"));
            r1.Ok? &&
            var r2 := AssignBatch(r1.value, 1, [10]);
            r2.Ok? && r2.value.students[10].mentor == Some(1) && r2.value.mentors[1].students == [10] &&
            var s3 := r2.value.(mentors := r2.value.mentors[2 := Mentor("Carl", [])]);
            var r4 := Reassign(s3, 10, 2);
            && r4.Ok?
            && r4.value.students[10].mentor == Some(2)
            && r4.value.mentors[1].students == []
            && r4.value.mentors[2].students == [10]
            && r4.value.students[10].previousMentors == [1]
            && ListPreviousMentors(r4.value, 10) == Ok([Mentor("Alice", [])])
            && AssignBatch(r4.value, 1, [10, 99]) == Err(InvalidAssignment)
  {
    var s0 := State(map[], map[1 := Mentor("Alice", [])]);
    var s1 := CreateStudent(s0, 10, Some("Bob"), Some("b@x.com")).value;
    assert Eligible(s1, [10]) == {10};
    var s2 := AssignBatch(s1, 1, [10]).value;
    var s3 := s2.(mentors := s2.mentors[2 := Mentor("Carl", [])]);
    assert s2.students[10].mentor == Some(1);
    var s4 := Reassign(s3, 10, 2).value;
    assert Pull([10], 10) == [];
    assert s4.students[10].previousMentors == [1];
    assert s4.mentors[1] == Mentor("Alice", []);
    assert [1][1..] == [];
    assert Populate([1], s4.mentors) == [Mentor("Alice", [])];
    assert ListPreviousMentors(s4, 10) == Ok([Mentor("Alice", [])]);
    AssignBatchRejectsBadIds(s4, 1, [10, 99], 0);
  }

  /** Serving any modelled request keeps the relationship consistent. */
  lemma HandlePreservesConsistency(st: State, req: Request)
    requires Consistent(st)
    requires Modelled(st, req)
    ensures Consistent(Handle(st, req))
  {
    match req
    case NewStudent(id, name, email) =>
      if CreateStudent(st, id, name, email).Ok? {
        CreateStudentPreservesConsistency(st, id, name, email);
      }
    case AssignStudents(m, ids) =>
      if AssignBatch(st, m, ids).Ok? {
        AssignBatchPreservesConsistency(st, m, ids);
      }
    case ChangeMentor(sid, m) =>
      if Reassign(st, sid, m).Ok? {
        ReassignPreservesConsistency(st, sid, m);
      }
  }

  /** The ListPreviousMentors lemma holds on every state the routes produce. */
  lemma HandlePreservesHistoryResolves(st: State, req: Request)
    requires HistoryResolves(st)
    requires Modelled(st, req)
    ensures HistoryResolves(Handle(st, req))
  {
  }

  /** When every history entry names an existing mentor, listing a
      student's previous mentors resolves every entry, in order, repeats
      included. */
  lemma ListPreviousMentorsComplete(st: State, studentId: StudentId)
    requires HistoryResolves(st)
    requires studentId in st.students
    ensures var r := ListPreviousMentors(st, studentId);
            var h := st.students[studentId].previousMentors;
            && r.Ok? && |r.value| == |h|
            && (forall i | 0 <= i < |h| :: h[i] in st.mentors && r.value[i] == st.mentors[h[i]])
  {
  }
}
