/** The records the server keeps, the texts its handlers write, and the
    first-match scan every lookup is built on. */
module Registry {

  datatype Option<T> = None | Some(value: T)

  /** A registered mentor; `email` is the (non-unique) identifier. */
  datatype Mentor = Mentor(name: string, school: string, email: string, newsletter: bool)

  /** A registered student; `email` is the (non-unique) identifier. */
  datatype Student = Student(name: string, school: string, email: string)

  /** http.StatusOK and http.StatusNotFound. */
  const StatusOK: int := 200
  const StatusNotFound: int := 404

  /** What a handler sends back: its status code and the strings it writes,
      one per Fprintf call, in the order written. */
  datatype Reply = Reply(status: int, writes: seq<string>)

  /** Go's `%t` verb. */
  function BoolText(b: bool): string {
    if b then "true" else "false"
  }

  /** The line GetMentor writes for a mentor (GetMentorList adds a newline). */
  function MentorLine(m: Mentor): string {
    "Mentor: " + m.name + ", School: " + m.school + ", Email: " + m.email + ", Newsletter: " + BoolText(m.newsletter)
  }

  /** The line GetStudentList writes for a student, newline included. */
  function StudentLine(s: Student): string {
    "Student: " + s.name + ", School: " + s.school + ", Email: " + s.email + "\n"
  }

  function MentorEmails(ms: seq<Mentor>): seq<string> {
    seq(|ms|, i requires 0 <= i < |ms| => ms[i].email)
  }

  function StudentEmails(ss: seq<Student>): seq<string> {
    seq(|ss|, i requires 0 <= i < |ss| => ss[i].email)
  }

  /** The index of the first key equal to `id`, scanning in insertion order,
      or None when no key equals it. */
  function FirstMatch(keys: seq<string>, id: string): (r: Option<nat>)
    ensures r.None? <==> forall k :: 0 <= k < |keys| ==> keys[k] != id
    ensures r.Some? ==> r.value < |keys| && keys[r.value] == id
    ensures r.Some? ==> forall k :: 0 <= k < r.value ==> keys[k] != id
  {
    if |keys| == 0 then None
    else if keys[0] == id then Some(0)
    else
      match FirstMatch(keys[1..], id)
      case None => None
      case Some(k) => Some(k + 1)
  }

  /** Appending a record never changes which record an earlier lookup finds;
      it only makes a previously missing identifier findable at the new end. */
  lemma {:induction false} FirstMatchAppend(keys: seq<string>, key: string, id: string)
    ensures FirstMatch(keys + [key], id) ==
              if FirstMatch(keys, id).Some? then FirstMatch(keys, id)
              else if key == id then Some(|keys|)
              else None
  {
    assert forall k :: 0 <= k < |keys| ==> (keys + [key])[k] == keys[k];
    assert (keys + [key])[|keys|] == key;
  }

  /** Registering a mentor never changes which mentor an earlier lookup
      finds; a previously missing email becomes findable at the new mentor. */
  lemma MentorLookupAfterRegister(ms: seq<Mentor>, m: Mentor, id: string)
    ensures FirstMatch(MentorEmails(ms + [m]), id) ==
              if FirstMatch(MentorEmails(ms), id).Some? then FirstMatch(MentorEmails(ms), id)
              else if m.email == id then Some(|ms|)
              else None
  {
    assert MentorEmails(ms + [m]) == MentorEmails(ms) + [m.email];
    FirstMatchAppend(MentorEmails(ms), m.email, id);
  }

  /** Registering a student never changes which student an earlier lookup
      finds; a previously missing email becomes findable at the new student. */
  lemma StudentLookupAfterRegister(ss: seq<Student>, st: Student, id: string)
    ensures FirstMatch(StudentEmails(ss + [st]), id) ==
              if FirstMatch(StudentEmails(ss), id).Some? then FirstMatch(StudentEmails(ss), id)
              else if st.email == id then Some(|ss|)
              else None
  {
    assert StudentEmails(ss + [st]) == StudentEmails(ss) + [st.email];
    FirstMatchAppend(StudentEmails(ss), st.email, id);
  }

  /** Whether `id` is the email of any mentor in `ms`. */
  predicate HasMentor(ms: seq<Mentor>, id: string) {
    exists k :: 0 <= k < |ms| && ms[k].email == id
  }

  /** Whether `id` is the email of any student in `ss`. */
  predicate HasStudent(ss: seq<Student>, id: string) {
    exists k :: 0 <= k < |ss| && ss[k].email == id
  }

  /** The mentor scan finds something exactly when some mentor has the email. */
  lemma MentorFoundIff(ms: seq<Mentor>, id: string)
    ensures FirstMatch(MentorEmails(ms), id).Some? <==> HasMentor(ms, id)
  {
    if HasMentor(ms, id) {
      var k :| 0 <= k < |ms| && ms[k].email == id;
      assert MentorEmails(ms)[k] == id;
    }
  }

  /** The student scan finds something exactly when some student has the email. */
  lemma StudentFoundIff(ss: seq<Student>, id: string)
    ensures FirstMatch(StudentEmails(ss), id).Some? <==> HasStudent(ss, id)
  {
    if HasStudent(ss, id) {
      var k :| 0 <= k < |ss| && ss[k].email == id;
      assert StudentEmails(ss)[k] == id;
    }
  }
}
