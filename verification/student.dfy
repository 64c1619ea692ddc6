/** The student record of models/student.js and its required-field rules. */
module StudentModel {
  import opened Wrappers

  /** Mentor documents live in their own collection; a student only holds
      references to them. */
  type MentorId = nat

  /** A stored student: `name` and `email` are required text, `mentor` is an
      optional single reference, `previousMentors` an ordered list of
      references that may repeat. */
  datatype Student = Student(
    name: string,
    email: string,
    mentor: Option<MentorId>,
    previousMentors: seq<MentorId>)

  /** A request body handed to the student constructor: every path of the
      schema may be present or absent. */
  datatype StudentBody = StudentBody(
    name: Option<string>,
    email: Option<string>,
    mentor: Option<MentorId>,
    previousMentors: seq<MentorId>)

  /** Mongoose's `required` check for a String path: a missing value and the
      empty string both fail. */
  predicate Supplied(v: Option<string>)
  {
    v.Some? && |v.value| > 0
  }

  /** Builds a student document from a body and runs schema validation:
      `None` is a validation error. The relationship paths are taken from the
      body as given. */
  function Validate(body: StudentBody): (r: Option<Student>)
    ensures r.None? <==> !Supplied(body.name) || !Supplied(body.email)
    ensures r.Some? ==> |r.value.name| > 0 && |r.value.email| > 0
    ensures r.Some? ==> r.value.name == body.name.value && r.value.email == body.email.value
    ensures r.Some? ==> r.value.mentor == body.mentor && r.value.previousMentors == body.previousMentors
  {
    if Supplied(body.name) && Supplied(body.email) then
      Some(Student(body.name.value, body.email.value, body.mentor, body.previousMentors))
    else
      None
  }
}
