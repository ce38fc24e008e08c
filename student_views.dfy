/**
 * The views of apps/students/views.py that read or change the store:
 * registration, the login guard, uploading a submission, listing one's own
 * submissions and deleting one.
 */
module StudentViews {
  import opened Wrappers
  import opened Text
  import opened Models
  import opened Forms
  import opened Store
  import opened Http

  /* Registration. */

  const RegisterTemplate := "students/../../templates/students/register.html"

  /**
   * `register`: a valid form creates a user named by the student id and a
   * profile for it. The form checks the id against student ids only, so an id
   * already used as a username fails in `create_user`; the profile is created
   * with a blank email, so it fails when another profile already has one.
   */
  method Register(db: Db, verb: Method, post: PostData) returns (r: Response)
    requires db.Valid()
    modifies db
    ensures db.nextUser == if db.users == old(db.users) then old(db.nextUser) else old(db.nextUser) + 1
    ensures db.nextStudent == if db.students == old(db.students) then old(db.nextStudent) else old(db.nextStudent) + 1
    ensures db.nextCounselor == old(db.nextCounselor) && db.nextSubmission == old(db.nextSubmission)
    ensures db.Valid()
    ensures verb == GET ==> r == Page(RegisterTemplate) && unchanged(db)
    ensures verb == POST && StudentRegistrationForm(post, old(db.students)).Rejected? ==>
              r == Page(RegisterTemplate) && unchanged(db)
    ensures verb == POST && StudentRegistrationForm(post, old(db.students)).Accepted? ==>
              RegisteredStudent(StudentRegistrationForm(post, old(db.students)).data,
                                old(db.users), old(db.students), old(db.nextUser), old(db.nextStudent),
                                r, db.users, db.students)
    ensures db.counselors == old(db.counselors) && db.submissions == old(db.submissions)
  {
    if verb == GET {
      return Page(RegisterTemplate);
    }
    var form := StudentRegistrationForm(post, db.students);
    if form.Rejected? {
      return Page(RegisterTemplate);
    }
    r := CreateStudentAccount(db, form.data);
  }

  /** The profile `register` creates for user `u`: no college, no email. */
  function RegisteredProfile(d: Registration, u: UserId): StudentProfile {
    NewStudentProfile(u, d.studentId, d.fullName, "")
  }

  /**
   * The effect of registering `d`: a server error and no change when the id is a
   * username already; otherwise the new user, and the profile when it fits
   * (else a server error with the user left in place).
   */
  ghost predicate RegisteredStudent(d: Registration, users: map<UserId, User>, students: map<ProfileId, StudentProfile>,
                                    nextUser: nat, nextStudent: nat,
                                    r: Response, users': map<UserId, User>, students': map<ProfileId, StudentProfile>)
  {
    if !UserFits(users, nextUser, User(d.studentId)) then
      r == ServerError && users' == users && students' == students
    else
      && users' == users[nextUser := User(d.studentId)]
      && if StudentFits(students, nextStudent, RegisteredProfile(d, nextUser))
         then r == Redirect("login") && students' == students[nextStudent := RegisteredProfile(d, nextUser)]
         else r == ServerError && students' == students
  }

  /** The body of `register` once the form is valid. */
  method CreateStudentAccount(db: Db, d: Registration) returns (r: Response)
    requires db.Valid() && d.studentId != ""
    modifies db
    ensures db.nextUser == if db.users == old(db.users) then old(db.nextUser) else old(db.nextUser) + 1
    ensures db.nextStudent == if db.students == old(db.students) then old(db.nextStudent) else old(db.nextStudent) + 1
    ensures db.nextCounselor == old(db.nextCounselor) && db.nextSubmission == old(db.nextSubmission)
    ensures db.Valid()
    ensures RegisteredStudent(d, old(db.users), old(db.students), old(db.nextUser), old(db.nextStudent),
                              r, db.users, db.students)
    ensures db.counselors == old(db.counselors) && db.submissions == old(db.submissions)
  {
    var user := db.CreateUser(d.studentId);
    if user.None? {
      return ServerError;
    }
    var created := db.CreateStudentProfile(RegisteredProfile(d, user.value));
    r := if created.Some? then Redirect("login") else ServerError;
  }

  /**
   * With the id unregistered and the user new, the profile fits exactly when no
   * profile has a blank email: the first registration without an email blocks
   * every later one.
   */
  lemma RegisteredProfileFits(d: Registration, users: map<UserId, User>, students: map<ProfileId, StudentProfile>,
                              counselors: map<CounselorId, CounselorProfile>, submissions: map<SubmissionId, Submission>,
                              u: UserId, id: ProfileId)
    requires ReferencesStored(users, students, counselors, submissions) && u !in users && id !in students
    requires !StudentIdTaken(students, d.studentId)
    ensures StudentFits(students, id, RegisteredProfile(d, u)) <==> forall q :: q in students ==> students[q].email != ""
  {
    NewUserHasNoProfile(users, students, counselors, submissions, u);
  }

  /* Login. */

  /** What `login_view` does before and instead of authenticating. */
  datatype LoginStep = ShowForm | MissingCredentials | Authenticate(username: string, password: string)

  /**
   * `login_view`'s guard: a POST with a non-empty student id and password goes
   * on to `authenticate` with exactly the posted text (nothing is stripped);
   * a POST missing either shows the form with an error; a GET shows the form.
   */
  function LoginGuard(verb: Method, post: PostData): (s: LoginStep)
    ensures verb == GET ==> s == ShowForm
    ensures s.Authenticate? <==>
              verb == POST && "student_id" in post && post["student_id"] != "" && "password" in post && post["password"] != ""
    ensures s.Authenticate? ==> s.username == post["student_id"] && s.password == post["password"]
    ensures verb == POST && !s.Authenticate? ==> s == MissingCredentials
  {
    match verb
    case GET => ShowForm
    case POST =>
      match (Get(post, "student_id"), Get(post, "password"))
      case (Some(studentId), Some(password)) =>
        if studentId == "" || password == "" then MissingCredentials else Authenticate(studentId, password)
      case _ => MissingCredentials
  }

  /**
   * The answer of `login_view`, given whether `authenticate` found the user:
   * only an authenticated POST goes on to the home page.
   */
  function LoginResponse(step: LoginStep, authenticated: bool): (r: Response)
    ensures r == Redirect("index") <==> step.Authenticate? && authenticated
    ensures r != Redirect("index") ==> r == Page("students/login.html")
  {
    match step
    case Authenticate(_, _) => if authenticated then Redirect("index") else Page("students/login.html")
    case _ => Page("students/login.html")
  }

  /** A student id posted with surrounding spaces reaches `authenticate` with them. */
  lemma LoginKeepsSpaces(post: PostData)
    requires "student_id" in post && "password" in post && post["password"] != ""
    requires post["student_id"] == " " + Strip(post["student_id"]) + " "
    ensures LoginGuard(POST, post) == Authenticate(post["student_id"], post["password"])
    ensures LoginGuard(POST, post).username != Strip(post["student_id"])
  {
    assert |post["student_id"]| == |Strip(post["student_id"])| + 2;
  }

  /* Submissions. */

  /** `login_required` followed by `request.user.profile`, which raises for a user without one. */
  method ProfileOf(db: Db, actor: Option<UserId>) returns (r: Option<Response>, p: ProfileId)
    ensures actor.None? ==> r == Some(LoginRequired)
    ensures actor.Some? && !HasStudentProfile(db.students, actor.value) ==> r == Some(ServerError)
    ensures r.None? <==> actor.Some? && HasStudentProfile(db.students, actor.value)
    ensures r.None? ==> p in db.students && db.students[p].user == actor
  {
    if actor.None? {
      return Some(LoginRequired), 0;
    }
    var profile := db.StudentProfileOf(actor.value);
    if profile.None? {
      return Some(ServerError), 0;
    }
    return None, profile.value;
  }

  const UploadTemplate := "students/upload.html"

  /**
   * `upload`: a valid form (the description, stripped, without NUL characters)
   * adds one submission of the student's, stamped `now`. The category is the
   * model's default, passed in; the attached file is not modelled.
   */
  method Upload(db: Db, actor: Option<UserId>, verb: Method, post: PostData, now: int, category: string)
    returns (r: Response)
    requires db.Valid()
    modifies db
    ensures db.nextSubmission == if db.submissions == old(db.submissions) then old(db.nextSubmission) else old(db.nextSubmission) + 1
    ensures db.nextUser == old(db.nextUser) && db.nextStudent == old(db.nextStudent) && db.nextCounselor == old(db.nextCounselor)
    ensures db.Valid()
    ensures actor.None? ==> r == LoginRequired && unchanged(db)
    ensures actor.Some? && !HasStudentProfile(old(db.students), actor.value) ==> r == ServerError && unchanged(db)
    ensures actor.Some? && HasStudentProfile(old(db.students), actor.value) &&
            (verb == GET || CharField(Get(post, "description"), false, None).Invalid?) ==>
              r == Page(UploadTemplate) && unchanged(db)
    ensures actor.Some? && HasStudentProfile(old(db.students), actor.value) && verb == POST &&
            CharField(Get(post, "description"), false, None).Cleaned? ==>
              && r == Redirect("submissions")
              && exists p :: p in old(db.students) && old(db.students)[p].user == actor &&
                   db.submissions == old(db.submissions)[old(db.nextSubmission) :=
                     NewSubmission(p, CharField(Get(post, "description"), false, None).value, category, now)]
    ensures db.users == old(db.users) && db.students == old(db.students) && db.counselors == old(db.counselors)
  {
    var gate, p := ProfileOf(db, actor);
    if gate.Some? {
      return gate.value;
    }
    if verb == GET {
      return Page(UploadTemplate);
    }
    var description := CharField(Get(post, "description"), false, None);
    if description.Invalid? {
      return Page(UploadTemplate);
    }
    var id := db.CreateSubmission(NewSubmission(p, description.value, category, now));
    r := Redirect("submissions");
  }

  /** An uploaded description is the posted text without surrounding white space. */
  lemma UploadedDescription(pre: string, text: string, post: string)
    requires AllSpace(pre) && AllSpace(post) && text != [] && !IsSpace(text[0]) && !IsSpace(text[|text| - 1])
    requires '\0' !in text
    ensures CharField(Some(pre + text + post), false, None) == Cleaned(text)
  {
    StripSurrounded(pre, text, post);
  }

  /**
   * `submissions`: the student's own submissions, each once, newest first.
   */
  method Submissions(db: Db, actor: Option<UserId>) returns (r: Response, listing: seq<SubmissionId>)
    requires db.Valid()
    ensures actor.None? ==> r == LoginRequired && listing == []
    ensures actor.Some? && !HasStudentProfile(db.students, actor.value) ==> r == ServerError && listing == []
    ensures actor.Some? && HasStudentProfile(db.students, actor.value) ==>
              && r == Page("students/submissions.html")
              && (forall s :: s in listing <==>
                    s in db.submissions && db.submissions[s].student in db.students &&
                    db.students[db.submissions[s].student].user == actor)
              && Distinct(listing)
              && NewestFirst(db.submissions, listing)
  {
    var gate, p := ProfileOf(db, actor);
    if gate.Some? {
      return gate.value, [];
    }
    OneProfilePerUser(db.students, actor.value, p);
    var scan := KeysBelow(db.submissions, db.nextSubmission);
    AscendingDistinct(scan);
    listing := SortNewestFirst(db.submissions, OfStudent(db.submissions, scan, p));
    r := Page("students/submissions.html");
  }

  /**
   * `submission.student.user == request.user`: an anonymous visitor owns nothing,
   * not even a submission whose student has no user.
   */
  predicate Owns(students: map<ProfileId, StudentProfile>, s: Submission, actor: Option<UserId>) {
    actor.Some? && s.student in students && students[s.student].user == actor
  }

  /**
   * `delete_submission` (no login required): a missing submission is not found;
   * someone other than its student's user is sent back to the list with nothing
   * deleted; the owner gets a confirmation page on GET and deletes on POST.
   * Nothing else changes: scores credited for an approved submission stay.
   */
  method DeleteSubmission(db: Db, actor: Option<UserId>, verb: Method, id: SubmissionId) returns (r: Response)
    requires db.Valid()
    modifies db
    ensures db.Counters() == old(db.Counters())
    ensures db.Valid()
    ensures id !in old(db.submissions) ==> r == NotFound && unchanged(db)
    ensures id in old(db.submissions) && !Owns(old(db.students), old(db.submissions)[id], actor) ==>
              r == Redirect("submissions") && unchanged(db)
    ensures id in old(db.submissions) && Owns(old(db.students), old(db.submissions)[id], actor) ==>
              && r == (if verb == POST then Redirect("submissions") else Page("students/confirm_delete.html"))
              && db.submissions == (if verb == POST then old(db.submissions) - {id} else old(db.submissions))
    ensures db.users == old(db.users) && db.students == old(db.students) && db.counselors == old(db.counselors)
  {
    if id !in db.submissions {
      return NotFound;
    }
    if !Owns(db.students, db.submissions[id], actor) {
      return Redirect("submissions");
    }
    if verb == POST {
      db.DeleteSubmission(id);
      return Redirect("submissions");
    }
    r := Page("students/confirm_delete.html");
  }
}
