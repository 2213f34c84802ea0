# Campus Connections registry, modelled in Dafny

The Go program `yellow_jungle_piano.go` keeps an in-memory registry of
mentors and students behind a handful of HTTP handlers. A `Server` owns two
insertion-ordered collections: `mentors` and `network` (the students). The
handlers do the following:

- register a mentor or a student by appending it;
- look a mentor up by email (the first match wins);
- list all mentors or all students, or answer 404 when there are none;
- assign a mentor to a student, which overwrites the student's name and
  school with the mentor's;
- report a newsletter "send" for each subscribed mentor, then write one
  closing notice.

The model keeps this shape:

- `registry.dfy` (module `Registry`): the `Mentor` and `Student` records, the
  `Reply` a handler produces (status code plus the strings it writes, one per
  `Fprintf`), the texts the handlers format, and `FirstMatch`, the
  first-match scan stated on the sequence of emails.
- `matcher.dfy` (module `Matcher`): `Assign`, the assignment stated on the two
  collections as values, with its lemmas.
- `notifier.dfy` (module `Notifier`): `Subscribers`, the newsletter filter,
  and the lemmas that it keeps exactly the subscribed mentors, in order.
- `server.dfy` (module `CampusServer`): class `Server` with fields
  `mentors: seq<Mentor>` and `network: seq<Student>`. Its methods are the
  handlers without the HTTP plumbing. The registering and assigning methods
  change the fields in place. The lookup, list and newsletter methods are
  scan loops proved against the functions above. Two client methods replay
  example scenarios through the method contracts.

Request fields arrive as already-parsed string parameters. Each handler's
output is returned as a `Reply` value instead of being written to a
`ResponseWriter`.

Two details of the code that the model keeps:

- The success reply of an assignment is formatted after the overwrite
  (yellow_jungle_piano.go:132-135), so it names the mentor twice.
  `Matcher.Assign` and `CampusServer.AssignAnaToBo` state exactly that.
- The list handlers never call `WriteHeader` on success, so Go's default
  status 200 applies. `SendNewsletter` calls `WriteHeader(200)` after the
  per-subscriber notices and before the closing notice. With at least one
  subscriber, the first write already fixed 200 and the call is superfluous.
  With none, the call sets 200. Either way the status is 200, and the model
  reports 200 for all three.

## Model

| member | source | states |
|---|---|---|
| Registry.FirstMatch | yellow_jungle_piano.go:61-67 | None exactly when no key equals the id; otherwise an in-range index holding the id, with no earlier index holding it (first match wins) |
| Registry.FirstMatchAppend | yellow_jungle_piano.go:39 | appending a key leaves every earlier lookup result unchanged; a previously missing id becomes findable at the new last index exactly when the appended key equals it |
| Registry.MentorLookupAfterRegister | yellow_jungle_piano.go:39 | registering a mentor keeps every earlier mentor lookup result; an email no earlier mentor has becomes findable at the new mentor's index exactly when it is that mentor's email |
| Registry.StudentLookupAfterRegister | yellow_jungle_piano.go:53 | registering a student keeps every earlier student lookup result; an email no earlier student has becomes findable at the new student's index exactly when it is that student's email |
| Registry.MentorFoundIff | yellow_jungle_piano.go:119-124 | the mentor scan finds something exactly when some mentor has the email |
| Registry.StudentFoundIff | yellow_jungle_piano.go:111-116 | the student scan finds something exactly when some student has the email |
| Notifier.Subscribers | yellow_jungle_piano.go:141-146 | the filter is empty exactly when nobody is subscribed, and it is never longer than the mentor list |
| Notifier.SubscribersExactly | yellow_jungle_piano.go:141-142 | a mentor is in the filter exactly when it is registered and its newsletter flag is set |
| Notifier.PositionsAreSubscribedIndices | yellow_jungle_piano.go:141-142 | the subscribed indices are in range, point at subscribed mentors, strictly increase, and include every subscribed index |
| Notifier.SubscribersInOrder | yellow_jungle_piano.go:141-146 | the k-th newsletter recipient is the mentor at the k-th subscribed index, so recipients appear once per subscribed registration, in registration order |
| Notifier.SubscribersAppend | yellow_jungle_piano.go:141-146 | one more registered mentor adds itself at the end of the recipients exactly when it is subscribed |
| Matcher.Assign | yellow_jungle_piano.go:111-135 | success exactly when both emails are registered; on failure the students are unchanged and the reply is 404 with the not-found text; on success only the first matching student changes, taking the first matching mentor's name and school and keeping its email; every other student stays as it was; the reply names the mentor in both slots; length and all emails are preserved |
| Matcher.AssignIdempotent | yellow_jungle_piano.go:111-133 | assigning the same pair a second time leaves the students as the first assignment left them |
| Matcher.AssignedStudentIsFound | yellow_jungle_piano.go:111-133 | after a successful assignment, looking the student's email up again finds a record with the mentor's name and school and the student's own email |
| CampusServer.Server.constructor | yellow_jungle_piano.go:153-155 | InitServer starts with no mentors and no students |
| CampusServer.Server.RegisterMentor | yellow_jungle_piano.go:32-41 | exactly one mentor is appended, with the given name, school and email, and subscribed exactly when the form value is the text "true"; earlier mentors and all students are unchanged; the reply is 200 with the registration text |
| CampusServer.Server.RegisterStudent | yellow_jungle_piano.go:47-55 | exactly one student is appended with the given fields; the mentors are unchanged; the reply is 200 with the registration text |
| CampusServer.Server.FindMentor | yellow_jungle_piano.go:119-124 | the scan loop with `break` returns the first-match index of the mentor emails, or None |
| CampusServer.Server.FindStudent | yellow_jungle_piano.go:111-116 | the scan loop with `break` returns the first-match index of the student emails, or None |
| CampusServer.Server.GetMentor | yellow_jungle_piano.go:59-71 | 200 exactly when some mentor has the email, and then the line for the lowest-index such mentor; otherwise 404 with the not-found text naming the email; no state changes |
| CampusServer.Server.GetMentorList | yellow_jungle_piano.go:74-85 | 404 with the "no mentors" text exactly when there are no mentors; otherwise 200 and one line per mentor, the i-th line describing the i-th mentor |
| CampusServer.Server.GetStudentList | yellow_jungle_piano.go:88-99 | 404 with the "no students" text exactly when there are no students; otherwise 200 and one line per student, the i-th line describing the i-th student |
| CampusServer.Server.AssignMentor | yellow_jungle_piano.go:102-136 | the new students and the reply are those of Assign on the old students; the mentors are unchanged |
| CampusServer.Server.SendNewsletter | yellow_jungle_piano.go:139-150 | 200 with one notice per recipient of the filter, in order, each naming that mentor, followed by exactly one closing notice, which is also written when nobody is subscribed; no state changes |
| CampusServer.AssignAnaToBo | yellow_jungle_piano.go:111-135 | example: registering mentor Ana (MIT, a@x.com, "true") and student Bo (HS1, b@x.com), then assigning, turns Bo's record into Ana/MIT with email b@x.com, and the reply is "Mentor Ana has been assigned to student Ana" |
| CampusServer.ListAfterRegister | yellow_jungle_piano.go:32-39 | a mentor registered on a fresh server is the whole mentor list, with every field as supplied |

## Left out

- The HTTP layer is not modelled. This covers `ResponseWriter` writes, `r.FormValue` parsing, `main`, and routing with `http.HandleFunc` / `ListenAndServe` (yellow_jungle_piano.go:157-169). Form fields are string parameters, and a missing field is just the empty string the caller passes.
- Header ordering: `SendNewsletter` calls `WriteHeader` after the per-subscriber notices and before the closing notice. With a subscriber it is superfluous; with none it sets the status. The model records only the resulting status, 200.
- Formatting: `%s` is modelled as plain concatenation and `%t` as the text "true" or "false". `Fprintf` writes are kept as separate strings, not one byte stream.
- `GetMentor` takes an extra `mentorID` parameter, so it does not match the handler signature it is registered with. The model makes it a lookup with the email as its argument and ignores the routing.
- Concurrency is not modelled. The handlers share the slices with no locking, so concurrent requests could race. Each method here runs alone.
- Pointer aliasing: Go's `&s.network[i]` is modelled as an index-based in-place update of `network`.
