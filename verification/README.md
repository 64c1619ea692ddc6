# Student–mentor relationship manager

This project models the relationship manager of a small student/mentor
back end in Dafny. The back end keeps two document collections, students and
mentors. A student has a required name and email, an optional current mentor,
and an ordered history of the mentors it has left (`previousMentors`). A
mentor has a name and an ordered list of its current students. The HTTP
handlers do four things: create students, assign a batch of unmentored
students to a mentor, move a student to another mentor, and resolve the two
reference lists into records.

The model has no database or HTTP layer. The store is a value
`State(students: map<StudentId, Student>, mentors: map<MentorId, Mentor>)`.
Every handler is a pure function from a state to `Result<State, Error>`. An
`Err` carries no state, so a refused request writes nothing. `Api.Handle`
makes this explicit: it returns the state after one request. `findById`
becomes a map lookup. `populate` becomes `Store.Populate`, which resolves a
list of ids in list order and skips ids that resolve to nothing, as Mongoose
does. `find({_id: {$in: ids}, mentor: null})` becomes the set
`Api.Eligible`.

The central invariant is `Store.Consistent`. A student names mentor `m`
exactly when `m` lists the student. No mentor lists a student twice.

Modules:
- `Wrappers`: `Option` and `Result`.
- `Seqs`: duplicate-freedom, element sets, and `Pull` (Mongoose array `pull`).
- `StudentModel`: the student schema and its required-field validation.
- `Store`: records, the error kinds, the invariant, and `Populate`.
- `Api`: the handlers.
- `ApiLemmas`: the properties that relate the handlers to the invariant and to each other.

Mongoose's `required` check on a String path rejects a missing value and
also the empty string. `StudentModel.Supplied` models both cases.

## Model

| member | source | states |
|---|---|---|
| StudentModel.Supplied | models/student.js:4-11 | A required String path passes only with a value that is present and non-empty. |
| StudentModel.Validate | models/student.js:3-22 | Validation passes exactly when both name and email are non-empty. The built record takes every path, including `mentor` and `previousMentors`, from the body. |
| Store.SingleMentor | models/student.js:12-15 | On a consistent store, a student is on at most one mentor's list, because a student holds a single mentor reference. |
| Store.Populate | routes/api.js:100-103 | The resolved list is no longer than the id list. Every record in it belongs to an id in the list. When every id resolves, entry i is the record of id i. |
| Store.PopulateAppend | routes/api.js:114-119 | Resolution works piecewise over concatenation, so stored order is kept. |
| Seqs.Pull | routes/api.js:75 | `pull` removes every occurrence of the value and no other element. The multiset of what remains is the old multiset with that value's count set to zero. |
| Seqs.PullAbsent | routes/api.js:75 | Pulling a value that is not in the list leaves the list unchanged. |
| Seqs.PullAppend | routes/api.js:75 | Pull distributes over concatenation, so the order of the kept elements is preserved. |
| Seqs.PullNoDup | routes/api.js:75 | Pulling from a duplicate-free list leaves it duplicate-free. |
| Seqs.ElemsCard | routes/api.js:38-43 | A list has at least as many entries as distinct values, and exactly as many only when it has no duplicates. This is why the count comparison detects repeated ids. |
| Api.CreateStudentAsWritten | routes/api.js:19-27 | The create handler as written. It succeeds exactly when name and email are supplied and the id is free. It adds one record, leaves every other record unchanged, and builds the new record from the body's name, email, `mentor` and `previousMentors` exactly as given. |
| Api.CreateStudent | routes/api.js:19-27 | The corrected create. It has the same success condition and error cases, and the new record has no mentor and an empty history. |
| Api.Eligible | routes/api.js:38-41 | The found students are requested ids that exist and have no mentor. |
| Api.AssignEach | routes/api.js:45-49 | The per-student loop sets each found student's mentor and appends the found ids to the mentor's list. Students that are not found and other mentors are unchanged. |
| Api.AssignBatch | routes/api.js:30-59 | An unknown mentor gives NotFound. A count mismatch gives InvalidAssignment. On success every requested student names the mentor and is on its list, the old list is a prefix of the new one with exactly the requested ids appended, and everything else is unchanged. |
| Api.EligibleCoversIds | routes/api.js:38-43 | If the count check passes, the request has no repeated id and every id is an existing unmentored student. |
| Api.Reassign | routes/api.js:62-93 | An unknown student or new mentor gives NotFound. An unresolvable current mentor aborts. On success the student names the new mentor, which lists it last. A previous mentor loses every occurrence of the student and is appended to the history. With no previous mentor the history is unchanged and only the new mentor changes. |
| Api.ListStudentsOf | routes/api.js:96-107 | NotFound exactly for an unknown mentor. Otherwise the result holds only records of students on the mentor's list. |
| Api.ListPreviousMentors | routes/api.js:110-123 | NotFound exactly for an unknown student. Otherwise, when the history resolves, the result is the mentor records in stored order, with repeats. |
| Api.Handle | routes/api.js:18-93 | Serving a write request (with student creation taken as the corrected create, which accepts only a name and an email) never removes a record and never changes a name or email. A student's history only grows, by at most one entry per request. A request the handler refuses leaves the state unchanged. |
| ApiLemmas.AssignBatchSucceedsIff | routes/api.js:35-43 | Batch assignment succeeds exactly when the mentor exists and the ids are distinct existing students with no mentor. Both directions are proved. |
| ApiLemmas.AssignBatchRejectsBadIds | routes/api.js:38-43 | A missing id, an already mentored student or a repeated id gives InvalidAssignment, so nothing is written. |
| ApiLemmas.AssignBatchPreservesConsistency | routes/api.js:45-51 | A successful batch assignment keeps the store consistent. |
| ApiLemmas.ReassignFailsOnlyOnUnknownIds | routes/api.js:67-75 | On a consistent store, reassignment succeeds exactly when both ids exist. |
| ApiLemmas.ReassignPreservesConsistency | routes/api.js:73-84 | A successful reassignment keeps the store consistent. |
| ApiLemmas.ReassignMovesStudent | routes/api.js:73-84 | After reassignment the student is on the new mentor's list only. The mentor it left ends its history and is not its current mentor. |
| ApiLemmas.CreateStudentPreservesConsistency | routes/api.js:21-25 | Corrected creation keeps the store consistent. |
| ApiLemmas.CreateStudentAsWrittenAgrees | routes/api.js:21 | On bodies without relationship paths, the handler as written and the corrected handler coincide. |
| ApiLemmas.CreateStudentAsWrittenBreaksConsistency | routes/api.js:21 | A body that carries `mentor` makes the handler as written produce an inconsistent store from a consistent one. |
| ApiLemmas.ListStudentsOfComplete | routes/api.js:100-103 | On a consistent store, every listed id resolves. The result is the records in list order, and each one names the mentor. |
| ApiLemmas.AssignThenReassignScenario | routes/api.js:30-93 | Worked example: assign Bob to Alice, then move him to Carl. Alice's list becomes empty, Carl's is [Bob], Bob's history resolves to [Alice], and a batch with an unknown id is refused. |
| ApiLemmas.HandlePreservesConsistency | routes/api.js:18-93 | Every modelled write request keeps the store consistent, with student creation taken as the corrected create. The create handler as written does not, as shown under Findings. |
| ApiLemmas.HandlePreservesHistoryResolves | routes/api.js:73-81 | If every history entry names an existing mentor, this still holds after any modelled write request, because only a mentor that was fetched is appended. |
| ApiLemmas.ListPreviousMentorsComplete | routes/api.js:114-119 | When the history resolves, listing previous mentors returns one mentor record per history entry, in stored order, repeats included. |

## Left out

- HTTP routing, status codes and message strings. Errors are the `Store.Error` kinds, and the response body can be read off the returned state.
- Creating a mentor and the list-all routes (routes/api.js:7-16 and 125-143). The mentor schema is not part of this model. The list-all routes are plain full-table reads. The `Mentor` record holds only the fields the handlers use.
- Id allocation. `CreateStudent` takes the new id as a parameter, and an id that is already taken gives `DuplicateKey`.
- Casting of ids and body values, and malformed bodies (for example, a missing `studentIds` array). These surface as 400 errors from Mongoose or JavaScript and are not modelled.
- async/await, the un-awaited `student.save()` in the batch loop, concurrent requests, and partial failure with no rollback. Every write is modelled as completing in order.
- Api.Reassign: moving a student to the mentor it already has is excluded by its `requires`, and by `Api.Modelled` for `Api.Handle`. The handler pushes onto a mentor record fetched before the pull, so the outcome depends on how Mongoose saves that stale record.
- Api.AssignBatch: the found students are appended in request order. MongoDB returns `find` results in an unspecified order, so the model fixes one order that the source does not promise.
- Api.ListStudentsOf: without consistency, dangling ids are skipped as `populate` does, and the contract states only soundness and the length bound. `ApiLemmas.ListStudentsOfComplete` gives the exact result on a consistent store.

## Findings

| source | as written | input that shows it | evidently intended | confidence | as-written member | corrected member |
|---|---|---|---|---|---|---|
| routes/api.js:21 | `new Student(req.body)` copies every schema path in the request body, including `mentor` and `previousMentors` | POST /students with `{name: "Bob", email: "b@x.com", mentor: <id of Alice, whose list is empty>}`: Bob names Alice but Alice does not list Bob (`ApiLemmas.CreateStudentAsWrittenBreaksConsistency`) | a new student starts with no mentor and an empty history; relationships come only from batch assignment and reassignment | medium, not executed | Api.CreateStudentAsWritten | Api.CreateStudent |
