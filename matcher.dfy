/** Pairing a student with a mentor, stated on the two collections as values. */
module Matcher {
  import opened Registry

  /** The student collection after an assignment attempt, and the reply. */
  datatype Assignment = Assignment(network: seq<Student>, reply: Reply)

  const NotFoundText: string := "Student or mentor with specified ID not found"

  /** The success text; the handler formats it after the overwrite, so it is
      always called with the mentor's name in both places. */
  function AssignedText(mentorName: string, studentName: string): string {
    "Mentor " + mentorName + " has been assigned to student " + studentName
  }

  /** Assigning the first mentor with `mentorID` to the first student with
      `studentID`. When both are found, that one student takes the mentor's
      name and school and keeps its email; every other student is untouched.
      When either is missing, nothing changes and the reply is 404. */
  function Assign(ss: seq<Student>, ms: seq<Mentor>, studentID: string, mentorID: string): (r: Assignment)
    ensures |r.network| == |ss|
    ensures StudentEmails(r.network) == StudentEmails(ss)
    ensures r.reply.status == StatusOK <==> HasStudent(ss, studentID) && HasMentor(ms, mentorID)
    ensures !HasStudent(ss, studentID) || !HasMentor(ms, mentorID) ==>
              r == Assignment(ss, Reply(StatusNotFound, [NotFoundText]))
    ensures match (FirstMatch(StudentEmails(ss), studentID), FirstMatch(MentorEmails(ms), mentorID))
            case (Some(i), Some(j)) =>
              && r.network[i] == Student(ms[j].name, ms[j].school, ss[i].email)
              && (forall k :: 0 <= k < |ss| && k != i ==> r.network[k] == ss[k])
              && r.reply == Reply(StatusOK, [AssignedText(ms[j].name, ms[j].name)])
            case _ => true
  {
    StudentFoundIff(ss, studentID);
    MentorFoundIff(ms, mentorID);
    match (FirstMatch(StudentEmails(ss), studentID), FirstMatch(MentorEmails(ms), mentorID))
    case (Some(i), Some(j)) =>
      var m := ms[j];
      var updated := ss[i := ss[i].(name := m.name, school := m.school)];
      assert StudentEmails(updated) == StudentEmails(ss);
      Assignment(updated, Reply(StatusOK, [AssignedText(m.name, updated[i].name)]))
    case _ =>
      Assignment(ss, Reply(StatusNotFound, [NotFoundText]))
  }

  /** Assigning the same pair twice changes nothing the second time: the
      emails are preserved, so the second scan finds the same student, and it
      already carries the mentor's name and school. */
  lemma AssignIdempotent(ss: seq<Student>, ms: seq<Mentor>, studentID: string, mentorID: string)
    ensures var once := Assign(ss, ms, studentID, mentorID).network;
            Assign(once, ms, studentID, mentorID).network == once
  {
  }

  /** After a successful assignment, looking the student's email up again
      finds the same position, now holding the mentor's name and school. */
  lemma AssignedStudentIsFound(ss: seq<Student>, ms: seq<Mentor>, studentID: string, mentorID: string)
    requires HasStudent(ss, studentID) && HasMentor(ms, mentorID)
    ensures var r := Assign(ss, ms, studentID, mentorID).network;
            var i := FirstMatch(StudentEmails(r), studentID);
            var j := FirstMatch(MentorEmails(ms), mentorID);
            i.Some? && j.Some? && i.value < |r| && j.value < |ms| &&
            r[i.value] == Student(ms[j.value].name, ms[j.value].school, studentID)
  {
  }
}
