/**
 * The views of apps/counselors/views.py that read or change the store:
 * registration, the dashboard counts, the review list, approving and rejecting
 * a submission and setting a student's academic comprehensive score.
 */
module CounselorViews {
  import opened Wrappers
  import opened Models
  import opened Forms
  import opened Scoring
  import opened Store
  import opened Http

  /**
   * `@login_required` followed by `hasattr(request.user, 'counselor_profile')`:
   * None lets the view go on, otherwise the response it gives at once.
   */
  function CounselorGate(counselors: map<CounselorId, CounselorProfile>, actor: Option<UserId>): (r: Option<Response>)
    ensures r.None? <==> actor.Some? && IsCounselor(counselors, actor.value)
    ensures actor.None? ==> r == Some(LoginRequired)
    ensures actor.Some? && !IsCounselor(counselors, actor.value) ==> r == Some(Redirect("login"))
  {
    match actor
    case None => Some(LoginRequired)
    case Some(u) => if IsCounselor(counselors, u) then None else Some(Redirect("login"))
  }

  const RegisterTemplate := "counselors/register.html"

  /**
   * `counselor_register`: a valid form creates a user named by the employee id and
   * a counselor profile for it; `create_user` fails when that name is already a
   * username (the form only checks employee ids), which is a server error.
   */
  method CounselorRegister(db: Db, verb: Method, post: PostData) returns (r: Response)
    requires db.Valid()
    modifies db
    ensures db.nextUser == if db.users == old(db.users) then old(db.nextUser) else old(db.nextUser) + 1
    ensures db.nextCounselor == if db.counselors == old(db.counselors) then old(db.nextCounselor) else old(db.nextCounselor) + 1
    ensures db.nextStudent == old(db.nextStudent) && db.nextSubmission == old(db.nextSubmission)
    ensures db.Valid()
    ensures verb == GET ==> r == Page(RegisterTemplate) && unchanged(db)
    ensures verb == POST && CounselorRegistrationForm(post, old(db.counselors)).Rejected? ==>
              r == Page(RegisterTemplate) && unchanged(db)
    ensures verb == POST && CounselorRegistrationForm(post, old(db.counselors)).Accepted? ==>
              RegisteredCounselor(CounselorRegistrationForm(post, old(db.counselors)).data,
                                  old(db.users), old(db.counselors), old(db.nextUser), old(db.nextCounselor),
                                  r, db.users, db.counselors)
    ensures db.students == old(db.students) && db.submissions == old(db.submissions)
  {
    if verb == GET {
      return Page(RegisterTemplate);
    }
    var form := CounselorRegistrationForm(post, db.counselors);
    if form.Rejected? {
      return Page(RegisterTemplate);
    }
    r := CreateCounselorAccount(db, form.data);
  }

  /**
   * The effect of registering `d`: when its employee id is free as a username, a
   * new user with that name and a counselor profile for it (grade left blank);
   * otherwise a server error and no change.
   */
  ghost predicate RegisteredCounselor(d: CounselorRegistration, users: map<UserId, User>,
                                      counselors: map<CounselorId, CounselorProfile>, nextUser: nat, nextCounselor: nat,
                                      r: Response, users': map<UserId, User>, counselors': map<CounselorId, CounselorProfile>)
  {
    if UserFits(users, nextUser, User(d.employeeId)) then
      && r == Redirect("counselor_login")
      && users' == users[nextUser := User(d.employeeId)]
      && counselors' == counselors[nextCounselor := CounselorProfile(nextUser, d.fullName, d.employeeId, d.college, "")]
    else
      r == ServerError && users' == users && counselors' == counselors
  }

  /** The body of `counselor_register` once the form is valid. */
  method CreateCounselorAccount(db: Db, d: CounselorRegistration) returns (r: Response)
    requires db.Valid() && d.employeeId != "" && !EmployeeIdTaken(db.counselors, d.employeeId)
    modifies db
    ensures db.nextUser == if db.users == old(db.users) then old(db.nextUser) else old(db.nextUser) + 1
    ensures db.nextCounselor == if db.counselors == old(db.counselors) then old(db.nextCounselor) else old(db.nextCounselor) + 1
    ensures db.nextStudent == old(db.nextStudent) && db.nextSubmission == old(db.nextSubmission)
    ensures db.Valid()
    ensures RegisteredCounselor(d, old(db.users), old(db.counselors), old(db.nextUser), old(db.nextCounselor),
                                r, db.users, db.counselors)
    ensures db.students == old(db.students) && db.submissions == old(db.submissions)
  {
    var user := db.CreateUser(d.employeeId);
    if user.None? {
      return ServerError;
    }
    NewUserHasNoProfile(old(db.users), db.students, db.counselors, db.submissions, user.value);
    var profile := CounselorProfile(user.value, d.fullName, d.employeeId, d.college, "");
    NewCounselorFits(db.counselors, db.nextCounselor, profile);
    var created := db.CreateCounselorProfile(profile);
    r := Redirect("counselor_login");
  }

  /** A counselor row with an unused employee id and a user without a counselor profile fits. */
  lemma NewCounselorFits(counselors: map<CounselorId, CounselorProfile>, id: CounselorId, c: CounselorProfile)
    requires !EmployeeIdTaken(counselors, c.employeeId) && !IsCounselor(counselors, c.user)
    ensures CounselorFits(counselors, id, c)
  {
  }

  /**
   * `counselor_dashboard`: the number of submissions not approved (rejected ones
   * included) and the number of students.
   */
  method CounselorDashboard(db: Db, actor: Option<UserId>) returns (r: Response, pendingCount: nat, totalStudents: nat)
    ensures CounselorGate(db.counselors, actor).Some? ==> r == CounselorGate(db.counselors, actor).value
    ensures CounselorGate(db.counselors, actor).None? ==>
              && r == Page("counselors/dashboard.html")
              && pendingCount == |set s | s in db.submissions && !db.submissions[s].approved|
              && totalStudents == |db.students|
  {
    var gate := CounselorGate(db.counselors, actor);
    if gate.Some? {
      return gate.value, 0, 0;
    }
    pendingCount := |set s | s in db.submissions && !db.submissions[s].approved|;
    totalStudents := |db.students|;
    r := Page("counselors/dashboard.html");
  }

  /** `review_submissions`: every submission not approved, each once, newest first. */
  method ReviewSubmissions(db: Db, actor: Option<UserId>) returns (r: Response, listing: seq<SubmissionId>)
    requires db.Valid()
    ensures CounselorGate(db.counselors, actor).Some? ==> r == CounselorGate(db.counselors, actor).value && listing == []
    ensures CounselorGate(db.counselors, actor).None? ==>
              && r == Page("counselors/review_submissions.html")
              && (forall s :: s in listing <==> s in db.submissions && !db.submissions[s].approved)
              && Distinct(listing)
              && NewestFirst(db.submissions, listing)
  {
    var gate := CounselorGate(db.counselors, actor);
    if gate.Some? {
      return gate.value, [];
    }
    var scan := KeysBelow(db.submissions, db.nextSubmission);
    AscendingDistinct(scan);
    listing := SortNewestFirst(db.submissions, Unapproved(db.submissions, scan));
    r := Page("counselors/review_submissions.html");
  }

  /**
   * `approve_submission`: on POST the submission is approved with the posted score
   * text and saved first; then the score (`or 0`) is parsed and added to the
   * student's subtotal for the category. There is no status guard, and a score
   * that is not a decimal fails after the submission was saved.
   */
  method ApproveSubmission(db: Db, actor: Option<UserId>, verb: Method, id: SubmissionId, post: PostData)
    returns (r: Response)
    requires db.Valid()
    modifies db
    ensures db.Counters() == old(db.Counters())
    ensures db.Valid()
    ensures CounselorGate(old(db.counselors), actor).Some? ==>
              r == CounselorGate(old(db.counselors), actor).value && unchanged(db)
    ensures CounselorGate(old(db.counselors), actor).None? && id !in old(db.submissions) ==>
              r == NotFound && unchanged(db)
    ensures CounselorGate(old(db.counselors), actor).None? && id in old(db.submissions) && verb == GET ==>
              r == Redirect("review_submissions") && unchanged(db)
    ensures CounselorGate(old(db.counselors), actor).None? && id in old(db.submissions) && verb == POST ==>
              var s := old(db.submissions)[id];
              var posted := Get(post, "approved_score");
              && db.submissions == old(db.submissions)[id := Approve(s, posted)]
              && db.users == old(db.users) && db.counselors == old(db.counselors)
              && match ApprovedAmount(posted)
                 case None => r == ServerError && db.students == old(db.students)
                 case Some(amount) =>
                   && r == Redirect("review_submissions")
                   && db.students == old(db.students)[s.student := Credit(old(db.students)[s.student], s.category, amount)]
  {
    var gate := CounselorGate(db.counselors, actor);
    if gate.Some? {
      return gate.value;
    }
    if id !in db.submissions {
      return NotFound;
    }
    if verb == GET {
      return Redirect("review_submissions");
    }
    var s := db.submissions[id];
    var posted := Get(post, "approved_score");
    db.SaveSubmission(id, Approve(s, posted));
    var amount := ApprovedAmount(posted);
    if amount.None? {
      return ServerError;
    }
    var student := db.students[s.student];
    var credited := Credit(student, s.category, amount.value);
    SameKeysFit(db.students, s.student, credited);
    var saved := db.SaveStudentProfile(s.student, credited);
    r := Redirect("review_submissions");
  }

  /**
   * `reject_submission`: on POST the submission is marked not approved and
   * rejected with the posted reason. No score is taken back, even from an
   * approved submission.
   */
  method RejectSubmission(db: Db, actor: Option<UserId>, verb: Method, id: SubmissionId, post: PostData)
    returns (r: Response)
    requires db.Valid()
    modifies db
    ensures db.Counters() == old(db.Counters())
    ensures db.Valid()
    ensures CounselorGate(old(db.counselors), actor).Some? ==>
              r == CounselorGate(old(db.counselors), actor).value && unchanged(db)
    ensures CounselorGate(old(db.counselors), actor).None? && id !in old(db.submissions) ==>
              r == NotFound && unchanged(db)
    ensures CounselorGate(old(db.counselors), actor).None? && id in old(db.submissions) ==>
              && r == Redirect("review_submissions")
              && db.submissions == (if verb == POST
                                    then old(db.submissions)[id := Reject(old(db.submissions)[id], Get(post, "reject_reason"))]
                                    else old(db.submissions))
    ensures db.students == old(db.students) && db.users == old(db.users) && db.counselors == old(db.counselors)
  {
    var gate := CounselorGate(db.counselors, actor);
    if gate.Some? {
      return gate.value;
    }
    if id !in db.submissions {
      return NotFound;
    }
    if verb == POST {
      db.SaveSubmission(id, Reject(db.submissions[id], Get(post, "reject_reason")));
    }
    r := Redirect("review_submissions");
  }

  /**
   * `set_academic_score`: on POST a stripped, non-blank decimal is stored exactly
   * as the academic comprehensive score; blank or invalid text changes nothing.
   * Either way the answer is the redirect to the student list.
   */
  method SetAcademicScore(db: Db, actor: Option<UserId>, verb: Method, studentId: ProfileId, post: PostData)
    returns (r: Response)
    requires db.Valid()
    modifies db
    ensures db.Counters() == old(db.Counters())
    ensures db.Valid()
    ensures CounselorGate(old(db.counselors), actor).Some? ==>
              r == CounselorGate(old(db.counselors), actor).value && unchanged(db)
    ensures CounselorGate(old(db.counselors), actor).None? && studentId !in old(db.students) ==>
              r == NotFound && unchanged(db)
    ensures CounselorGate(old(db.counselors), actor).None? && studentId in old(db.students) && verb == GET ==>
              r == Page("counselors/set_academic_score.html") && unchanged(db)
    ensures CounselorGate(old(db.counselors), actor).None? && studentId in old(db.students) && verb == POST ==>
              && r == Redirect("view_all_students")
              && db.students == match AcademicScoreInput(Get(post, "academic_comprehensive_score"))
                                case None => old(db.students)
                                case Some(v) =>
                                  old(db.students)[studentId := old(db.students)[studentId].(academicComprehensiveScore := Some(v))]
    ensures db.users == old(db.users) && db.counselors == old(db.counselors) && db.submissions == old(db.submissions)
  {
    var gate := CounselorGate(db.counselors, actor);
    if gate.Some? {
      return gate.value;
    }
    if studentId !in db.students {
      return NotFound;
    }
    if verb == GET {
      return Page("counselors/set_academic_score.html");
    }
    var score := AcademicScoreInput(Get(post, "academic_comprehensive_score"));
    if score.Some? {
      var updated := db.students[studentId].(academicComprehensiveScore := Some(score.value));
      SameKeysFit(db.students, studentId, updated);
      var saved := db.SaveStudentProfile(studentId, updated);
    }
    r := Redirect("view_all_students");
  }
}
