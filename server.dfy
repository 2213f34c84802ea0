/** The server object and its handlers, with the HTTP plumbing taken out:
    request fields arrive as parameters and each handler returns its Reply. */
module CampusServer {
  import opened Registry
  import opened Matcher
  import opened Notifier

  /** The in-memory registry: mentors and students, in registration order. */
  class Server {
    var mentors: seq<Mentor>
    var network: seq<Student>

    /** InitServer: a server with no mentors and no students. */
    constructor ()
      ensures mentors == [] && network == []
    {
      mentors := [];
      network := [];
    }

    /** Appends a mentor built from the form fields; only the exact text
        "true" turns the newsletter flag on. */
    method RegisterMentor(name: string, school: string, email: string, newsletter: string) returns (reply: Reply)
      modifies this`mentors
      ensures mentors == old(mentors) + [Mentor(name, school, email, newsletter == "true")]
      ensures network == old(network)
      ensures reply == Reply(StatusOK, ["Mentor " + name + " registered successfully"])
    {
      var mentor := Mentor(name, school, email, newsletter == "true");
      mentors := mentors + [mentor];
      reply := Reply(StatusOK, ["Mentor " + mentor.name + " registered successfully"]);
    }

    /** Appends a student built from the form fields. */
    method RegisterStudent(name: string, school: string, email: string) returns (reply: Reply)
      modifies this`network
      ensures network == old(network) + [Student(name, school, email)]
      ensures mentors == old(mentors)
      ensures reply == Reply(StatusOK, ["Student " + name + " registered successfully"])
    {
      var student := Student(name, school, email);
      network := network + [student];
      reply := Reply(StatusOK, ["Student " + student.name + " registered successfully"]);
    }

    /** The scan over mentors: the index of the first mentor with `id`. */
    method FindMentor(id: string) returns (r: Option<nat>)
      ensures r == FirstMatch(MentorEmails(mentors), id)
    {
      r := None;
      var i := 0;
      while i < |mentors|
        invariant 0 <= i <= |mentors|
        invariant forall k :: 0 <= k < i ==> mentors[k].email != id
      {
        if mentors[i].email == id {
          r := Some(i);
          break;
        }
        i := i + 1;
      }
      assert forall k :: 0 <= k < |mentors| ==> MentorEmails(mentors)[k] == mentors[k].email;
    }

    /** The scan over students: the index of the first student with `id`. */
    method FindStudent(id: string) returns (r: Option<nat>)
      ensures r == FirstMatch(StudentEmails(network), id)
    {
      r := None;
      var i := 0;
      while i < |network|
        invariant 0 <= i <= |network|
        invariant forall k :: 0 <= k < i ==> network[k].email != id
      {
        if network[i].email == id {
          r := Some(i);
          break;
        }
        i := i + 1;
      }
      assert forall k :: 0 <= k < |network| ==> StudentEmails(network)[k] == network[k].email;
    }

    /** GetMentor: the first mentor with email `mentorID`, or 404. */
    method GetMentor(mentorID: string) returns (reply: Reply)
      ensures reply.status == StatusOK <==> HasMentor(mentors, mentorID)
      ensures !HasMentor(mentors, mentorID) ==>
                reply == Reply(StatusNotFound, ["Mentor with email " + mentorID + " not found"])
      ensures forall i ::
                (0 <= i < |mentors| && mentors[i].email == mentorID &&
                 forall k :: 0 <= k < i ==> mentors[k].email != mentorID) ==>
                reply == Reply(StatusOK, [MentorLine(mentors[i])])
    {
      MentorFoundIff(mentors, mentorID);
      var found := FindMentor(mentorID);
      assert forall k :: 0 <= k < |mentors| ==> MentorEmails(mentors)[k] == mentors[k].email;
      match found
      case Some(i) =>
        reply := Reply(StatusOK, [MentorLine(mentors[i])]);
      case None =>
        reply := Reply(StatusNotFound, ["Mentor with email " + mentorID + " not found"]);
    }

    /** GetMentorList: 404 when nobody is registered, otherwise one line per
        mentor in registration order (status left at Go's default, 200). */
    method GetMentorList() returns (reply: Reply)
      ensures reply.status == StatusNotFound <==> |mentors| == 0
      ensures |mentors| == 0 ==> reply.writes == ["No mentors have been registered"]
      ensures |mentors| > 0 ==> reply.status == StatusOK && |reply.writes| == |mentors|
      ensures |mentors| > 0 ==> forall i :: 0 <= i < |mentors| ==> reply.writes[i] == MentorLine(mentors[i]) + "\n"
    {
      if |mentors| == 0 {
        return Reply(StatusNotFound, ["No mentors have been registered"]);
      }
      var writes: seq<string> := [];
      for i := 0 to |mentors|
        invariant |writes| == i
        invariant forall k :: 0 <= k < i ==> writes[k] == MentorLine(mentors[k]) + "\n"
      {
        writes := writes + [MentorLine(mentors[i]) + "\n"];
      }
      reply := Reply(StatusOK, writes);
    }

    /** GetStudentList: 404 when nobody is registered, otherwise one line per
        student in registration order (status left at Go's default, 200). */
    method GetStudentList() returns (reply: Reply)
      ensures reply.status == StatusNotFound <==> |network| == 0
      ensures |network| == 0 ==> reply.writes == ["No students have been registered"]
      ensures |network| > 0 ==> reply.status == StatusOK && |reply.writes| == |network|
      ensures |network| > 0 ==> forall i :: 0 <= i < |network| ==> reply.writes[i] == StudentLine(network[i])
    {
      if |network| == 0 {
        return Reply(StatusNotFound, ["No students have been registered"]);
      }
      var writes: seq<string> := [];
      for i := 0 to |network|
        invariant |writes| == i
        invariant forall k :: 0 <= k < i ==> writes[k] == StudentLine(network[k])
      {
        writes := writes + [StudentLine(network[i])];
      }
      reply := Reply(StatusOK, writes);
    }

    /** AssignMentor: finds the student, then the mentor, and overwrites the
        student's name and school in place; the success text is formatted
        after the overwrite. Mentors never change. */
    method AssignMentor(studentID: string, mentorID: string) returns (reply: Reply)
      modifies this`network
      ensures mentors == old(mentors)
      ensures Assignment(network, reply) == Assign(old(network), mentors, studentID, mentorID)
    {
      var student := FindStudent(studentID);
      var mentor := FindMentor(mentorID);
      if student.None? || mentor.None? {
        reply := Reply(StatusNotFound, [NotFoundText]);
        return;
      }
      var i, m := student.value, mentors[mentor.value];
      network := network[i := network[i].(name := m.name)];
      network := network[i := network[i].(school := m.school)];
      reply := Reply(StatusOK, [AssignedText(m.name, network[i].name)]);
    }

    /** SendNewsletter: one notice per subscribed mentor, in registration
        order, then the closing notice, which is written even when nobody is
        subscribed. */
    method SendNewsletter() returns (reply: Reply)
      ensures reply.status == StatusOK
      ensures |reply.writes| == |Subscribers(mentors)| + 1
      ensures forall k :: 0 <= k < |Subscribers(mentors)| ==>
                reply.writes[k] == "Newsletter sent to mentor " + Subscribers(mentors)[k].name
      ensures reply.writes[|Subscribers(mentors)|] == "Newsletter sent to all subscribed mentors"
    {
      var writes: seq<string> := [];
      for i := 0 to |mentors|
        invariant |writes| == |Subscribers(mentors[..i])|
        invariant forall k :: 0 <= k < |writes| ==>
                    writes[k] == "Newsletter sent to mentor " + Subscribers(mentors[..i])[k].name
      {
        ghost var before := Subscribers(mentors[..i]);
        SubscribersAppend(mentors[..i], mentors[i]);
        assert mentors[..i + 1] == mentors[..i] + [mentors[i]];
        if mentors[i].newsletter {
          writes := writes + ["Newsletter sent to mentor " + mentors[i].name];
          assert Subscribers(mentors[..i + 1]) == before + [mentors[i]];
        } else {
          assert Subscribers(mentors[..i + 1]) == before;
        }
      }
      assert mentors[..|mentors|] == mentors;
      reply := Reply(StatusOK, writes + ["Newsletter sent to all subscribed mentors"]);
    }
  }

  /** A worked example: mentor Ana (MIT, a@x.com, subscribed) and student
      Bo (HS1, b@x.com); assigning Ana to Bo turns Bo's record into Ana's name
      and school under Bo's email, and the reply names Ana twice. */
  method AssignAnaToBo() returns (student: Student, reply: Reply)
    ensures student == Student("Ana", "MIT", "b@x.com")
    ensures reply == Reply(StatusOK, ["Mentor Ana has been assigned to student Ana"])
  {
    assert AssignedText("Ana", "Ana") == "Mentor Ana has been assigned to student Ana";
    var s := new Server();
    var _ := s.RegisterMentor("Ana", "MIT", "a@x.com", "true");
    var _ := s.RegisterStudent("Bo", "HS1", "b@x.com");
    assert s.network == [Student("Bo", "HS1", "b@x.com")];
    assert s.mentors == [Mentor("Ana", "MIT", "a@x.com", true)];
    assert StudentEmails(s.network) == ["b@x.com"];
    assert MentorEmails(s.mentors) == ["a@x.com"];
    reply := s.AssignMentor("b@x.com", "a@x.com");
    student := s.network[0];
  }

  /** A mentor registered on a fresh server is the whole mentor list, with
      every field as supplied. */
  method ListAfterRegister(name: string, school: string, email: string, newsletter: string) returns (reply: Reply)
    ensures reply == Reply(StatusOK, [MentorLine(Mentor(name, school, email, newsletter == "true")) + "\n"])
  {
    var s := new Server();
    var _ := s.RegisterMentor(name, school, email, newsletter);
    reply := s.GetMentorList();
  }
}
