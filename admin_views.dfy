/**
 * The superadmin views of apps/admins/views.py: the filtered dashboard with its
 * grade choices, adding a user with a role profile, deleting a user with
 * everything that hangs on it, and editing a student or a counselor.
 */
module AdminViews {
  import opened Wrappers
  import opened Text
  import opened Models
  import opened Forms
  import opened Store
  import opened Http

  /** `@user_passes_test(is_superadmin, login_url='admin_login')` turns everyone else away. */
  const AdminLogin := Redirect("admin_login")

  /** `request.GET.get(key, '')`. */
  function Param(query: PostData, key: string): (v: string)
    ensures key in query ==> v == query[key]
    ensures key !in query ==> v == ""
  {
    Get(query, key).GetOr("")
  }

  /* The dashboard. */

  /**
   * A student the dashboard lists: an empty college or grade filter lets every
   * profile through, and a non-empty search must occur, ignoring letter case, in
   * the full name or the student id.
   */
  predicate StudentListed(p: StudentProfile, college: string, grade: string, search: string) {
    && (college == "" || p.college == college)
    && (grade == "" || p.grade == grade)
    && (search == "" || IContains(p.fullName, search) || IContains(p.studentId, search))
  }

  /** The same filters for a counselor, searching the full name or the employee id. */
  predicate CounselorListed(c: CounselorProfile, college: string, grade: string, search: string) {
    && (college == "" || c.college == college)
    && (grade == "" || c.grade == grade)
    && (search == "" || IContains(c.fullName, search) || IContains(c.employeeId, search))
  }

  /** Every grade some student has, the empty one included. */
  function StudentGrades(students: map<ProfileId, StudentProfile>): set<string> {
    set p | p in students :: students[p].grade
  }

  function CounselorGrades(counselors: map<CounselorId, CounselorProfile>): set<string> {
    set c | c in counselors :: counselors[c].grade
  }

  /**
   * `admin_dashboard`: the students and counselors that pass the filters (each
   * list with its own search text, stripped) and the grade choices: every
   * non-empty grade of a student or counselor, once each, in ascending order.
   */
  method AdminDashboard(db: Db, isSuperadmin: bool, query: PostData)
    returns (r: Response, students: set<ProfileId>, counselors: set<CounselorId>, grades: seq<string>)
    ensures !isSuperadmin ==> r == AdminLogin && students == {} && counselors == {} && grades == []
    ensures isSuperadmin ==>
              && r == Page("admins/dashboard.html")
              && students == set p | p in db.students &&
                   StudentListed(db.students[p], Param(query, "college"), Param(query, "grade"),
                                 Strip(Param(query, "student_search")))
              && counselors == set c | c in db.counselors &&
                   CounselorListed(db.counselors[c], Param(query, "college"), Param(query, "grade"),
                                   Strip(Param(query, "counselor_search")))
              && Ascending(grades)
              && (forall g :: g in grades <==> g != "" && (g in StudentGrades(db.students) || g in CounselorGrades(db.counselors)))
  {
    if !isSuperadmin {
      return AdminLogin, {}, {}, [];
    }
    var college := Param(query, "college");
    var grade := Param(query, "grade");
    var studentSearch := Strip(Param(query, "student_search"));
    var counselorSearch := Strip(Param(query, "counselor_search"));

    students := ListStudents(db.students, college, grade, studentSearch);
    counselors := ListCounselors(db.counselors, college, grade, counselorSearch);
    grades := GradeChoices(db.students, db.counselors);
    r := Page("admins/dashboard.html");
  }

  /** The student query: all profiles, narrowed by each filter that is set. */
  method ListStudents(students: map<ProfileId, StudentProfile>, college: string, grade: string, search: string)
    returns (ids: set<ProfileId>)
    ensures ids == set p | p in students && StudentListed(students[p], college, grade, search)
  {
    ids := students.Keys;
    if college != "" {
      ids := set p | p in ids && students[p].college == college;
    }
    if grade != "" {
      ids := set p | p in ids && students[p].grade == grade;
    }
    if search != "" {
      ids := set p | p in ids && (IContains(students[p].fullName, search) || IContains(students[p].studentId, search));
    }
  }

  /** The counselor query, narrowed by the same filters and its own search. */
  method ListCounselors(counselors: map<CounselorId, CounselorProfile>, college: string, grade: string, search: string)
    returns (ids: set<CounselorId>)
    ensures ids == set c | c in counselors && CounselorListed(counselors[c], college, grade, search)
  {
    ids := counselors.Keys;
    if college != "" {
      ids := set c | c in ids && counselors[c].college == college;
    }
    if grade != "" {
      ids := set c | c in ids && counselors[c].grade == grade;
    }
    if search != "" {
      ids := set c | c in ids && (IContains(counselors[c].fullName, search) || IContains(counselors[c].employeeId, search));
    }
  }

  /** The grade choices: the union of the two tables' grades, without the empty one, sorted. */
  method GradeChoices(students: map<ProfileId, StudentProfile>, counselors: map<CounselorId, CounselorProfile>)
    returns (grades: seq<string>)
    ensures Ascending(grades)
    ensures forall g :: g in grades <==> g != "" && (g in StudentGrades(students) || g in CounselorGrades(counselors))
  {
    var studentGrades := set p | p in students :: students[p].grade;
    var counselorGrades := set c | c in counselors :: counselors[c].grade;
    grades := SortedGrades(studentGrades + counselorGrades);
  }

  /** A student is always found by its own student id. */
  lemma StudentFoundById(p: StudentProfile)
    ensures StudentListed(p, p.college, p.grade, p.studentId)
  {
    IContainsWindow(p.studentId, p.studentId);
    assert p.studentId[0..][..|p.studentId|] == p.studentId;
  }

  /** A counselor is always found by its own employee id. */
  lemma CounselorFoundById(c: CounselorProfile)
    ensures CounselorListed(c, c.college, c.grade, c.employeeId)
  {
    IContainsWindow(c.employeeId, c.employeeId);
    assert c.employeeId[0..][..|c.employeeId|] == c.employeeId;
  }

  /** The search ignores letter case: searching the lower-cased text lists the same students. */
  lemma StudentSearchIgnoresCase(p: StudentProfile, college: string, grade: string, search: string)
    ensures StudentListed(p, college, grade, search) <==> StudentListed(p, college, grade, Lower(search))
  {
    LowerIdempotent(search);
    assert search == "" <==> Lower(search) == "";
  }

  /* The grade choices: `sorted(g for g in all_grades if g)`. */

  /** Strictly ascending, so without repetitions. */
  predicate Ascending(gs: seq<string>) {
    forall i, j :: 0 <= i < j < |gs| ==> Less(gs[i], gs[j])
  }

  /** Insert `g` into an ascending list, unless it is there already. */
  function InsertGrade(g: string, sorted: seq<string>): (r: seq<string>)
    requires Ascending(sorted)
    ensures Ascending(r)
    ensures forall x :: x in r <==> x in sorted || x == g
    decreases |sorted|
  {
    if sorted == [] then [g]
    else if g == sorted[0] then sorted
    else if Less(g, sorted[0]) then
      assert forall j :: 0 < j < |sorted| ==> Less(g, sorted[j]) by {
        forall j | 0 < j < |sorted| {
          LessTransitive(g, sorted[0], sorted[j]);
        }
      }
      [g] + sorted
    else
      LessTrichotomy(g, sorted[0]);
      var rest := InsertGrade(g, sorted[1..]);
      assert forall x :: x in rest ==> Less(sorted[0], x) by {
        forall x | x in rest
          ensures Less(sorted[0], x)
        {
          if x != g {
            var j :| 0 <= j < |sorted[1..]| && sorted[1..][j] == x;
            assert sorted[j + 1] == x;
          }
        }
      }
      assert forall j :: 0 <= j < |rest| ==> rest[j] in rest;
      [sorted[0]] + rest
  }

  /** The non-empty grades of a set, each once, ascending. */
  method SortedGrades(all: set<string>) returns (grades: seq<string>)
    ensures Ascending(grades)
    ensures forall g :: g in grades <==> g in all && g != ""
  {
    grades := [];
    var rest := all;
    while rest != {}
      invariant rest <= all
      invariant Ascending(grades)
      invariant forall g :: g in grades <==> g in all - rest && g != ""
      decreases |rest|
    {
      var g :| g in rest;
      if g != "" {
        grades := InsertGrade(g, grades);
      }
      rest := rest - {g};
    }
  }

  /**
   * An ascending list is determined by its elements: the grade choices are the
   * one list `sorted` gives, whatever order the grades were met in.
   */
  lemma {:induction false} AscendingUnique(a: seq<string>, b: seq<string>)
    requires Ascending(a) && Ascending(b)
    requires forall x :: x in a <==> x in b
    ensures a == b
    decreases |a|
  {
    if b != [] {
      assert b[0] in a;
    }
    if a != [] {
      assert a[0] in a && b != [];
      assert b[0] in b;
      if a[0] != b[0] {
        var i :| 0 <= i < |a| && a[i] == b[0];
        var j :| 0 <= j < |b| && b[j] == a[0];
        assert Less(a[0], b[0]) && Less(b[0], a[0]);
        LessTrichotomy(a[0], b[0]);
      }
      forall x | x in a[1..]
        ensures x in b[1..]
      {
        var i :| 0 <= i < |a[1..]| && a[1..][i] == x;
        assert Less(a[0], x);
        LessIrreflexive(x);
        assert x in a;
        var j :| 0 <= j < |b| && b[j] == x;
        assert j != 0;
        assert b[1..][j - 1] == x;
      }
      forall x | x in b[1..]
        ensures x in a[1..]
      {
        var j :| 0 <= j < |b[1..]| && b[1..][j] == x;
        assert Less(b[0], x);
        LessIrreflexive(x);
        assert x in b;
        var i :| 0 <= i < |a| && a[i] == x;
        assert i != 0;
        assert a[1..][i - 1] == x;
      }
      AscendingUnique(a[1..], b[1..]);
      assert a == [a[0]] + a[1..] && b == [b[0]] + b[1..];
    }
  }

  /* Adding a user. */

  const AddUserTemplate := "admins/add_user.html"

  /**
   * `add_user`: a valid form creates the user (the form has made sure the name is
   * new) and then the profile of the chosen role. The student id and employee id
   * are not checked against existing profiles, so the profile can fail after the
   * user was created.
   */
  method AddUser(db: Db, isSuperadmin: bool, verb: Method, post: PostData) returns (r: Response)
    requires db.Valid()
    modifies db
    ensures db.nextUser == if db.users == old(db.users) then old(db.nextUser) else old(db.nextUser) + 1
    ensures db.nextStudent == if db.students == old(db.students) then old(db.nextStudent) else old(db.nextStudent) + 1
    ensures db.nextCounselor == if db.counselors == old(db.counselors) then old(db.nextCounselor) else old(db.nextCounselor) + 1
    ensures db.nextSubmission == old(db.nextSubmission)
    ensures db.Valid()
    ensures !isSuperadmin ==> r == AdminLogin && unchanged(db)
    ensures isSuperadmin && (verb == GET || UserCreationForm(post, old(db.users)).Rejected?) ==>
              r == Page(AddUserTemplate) && unchanged(db)
    ensures isSuperadmin && verb == POST && UserCreationForm(post, old(db.users)).Accepted? ==>
              AddedUser(UserCreationForm(post, old(db.users)).data, old(db.users), old(db.students), old(db.counselors),
                        old(db.nextUser), old(db.nextStudent), old(db.nextCounselor),
                        r, db.users, db.students, db.counselors)
    ensures db.submissions == old(db.submissions)
  {
    if !isSuperadmin {
      return AdminLogin;
    }
    if verb == GET {
      return Page(AddUserTemplate);
    }
    var form := UserCreationForm(post, db.users);
    if form.Rejected? {
      return Page(AddUserTemplate);
    }
    r := CreateAccount(db, form.data);
  }

  /** The student profile `add_user` creates for user `u`. */
  function AddedStudent(d: NewUser, u: UserId): StudentProfile {
    NewStudentProfile(u, d.studentId, d.fullName, d.college)
  }

  /** The counselor profile `add_user` creates for user `u`. */
  function AddedCounselor(d: NewUser, u: UserId): CounselorProfile {
    CounselorProfile(u, d.fullName, d.employeeId, d.college, d.grade)
  }

  /**
   * The effect of adding `d`: the new user always; then a student profile when
   * the type is "student" and a counselor profile otherwise, each only when it
   * fits the table, else a server error with the user left in place.
   */
  ghost predicate AddedUser(d: NewUser, users: map<UserId, User>, students: map<ProfileId, StudentProfile>,
                            counselors: map<CounselorId, CounselorProfile>, nextUser: nat, nextStudent: nat, nextCounselor: nat,
                            r: Response, users': map<UserId, User>, students': map<ProfileId, StudentProfile>,
                            counselors': map<CounselorId, CounselorProfile>)
  {
    && users' == users[nextUser := User(d.username)]
    && if d.userType == "student" then
         && counselors' == counselors
         && if StudentFits(students, nextStudent, AddedStudent(d, nextUser))
            then r == Redirect("admin_dashboard") && students' == students[nextStudent := AddedStudent(d, nextUser)]
            else r == ServerError && students' == students
       else
         && students' == students
         && if CounselorFits(counselors, nextCounselor, AddedCounselor(d, nextUser))
            then r == Redirect("admin_dashboard") && counselors' == counselors[nextCounselor := AddedCounselor(d, nextUser)]
            else r == ServerError && counselors' == counselors
  }

  /** The body of `add_user` once the form is valid. */
  method CreateAccount(db: Db, d: NewUser) returns (r: Response)
    requires db.Valid() && d.username != "" && !UsernameTaken(db.users, d.username)
    modifies db
    ensures db.nextUser == if db.users == old(db.users) then old(db.nextUser) else old(db.nextUser) + 1
    ensures db.nextStudent == if db.students == old(db.students) then old(db.nextStudent) else old(db.nextStudent) + 1
    ensures db.nextCounselor == if db.counselors == old(db.counselors) then old(db.nextCounselor) else old(db.nextCounselor) + 1
    ensures db.nextSubmission == old(db.nextSubmission)
    ensures db.Valid()
    ensures AddedUser(d, old(db.users), old(db.students), old(db.counselors),
                      old(db.nextUser), old(db.nextStudent), old(db.nextCounselor),
                      r, db.users, db.students, db.counselors)
    ensures db.submissions == old(db.submissions)
  {
    var user := db.CreateUser(d.username);
    if user.None? {
      assert false;
    }
    var u := user.value;
    NewUserHasNoProfile(old(db.users), db.students, db.counselors, db.submissions, u);
    if d.userType == "student" {
      var created := db.CreateStudentProfile(AddedStudent(d, u));
      r := if created.Some? then Redirect("admin_dashboard") else ServerError;
    } else {
      var created := db.CreateCounselorProfile(AddedCounselor(d, u));
      r := if created.Some? then Redirect("admin_dashboard") else ServerError;
    }
  }

  /**
   * The new student profile fits exactly when no stored student has its student
   * id and none has a blank email, since it is created with email "".
   */
  lemma AddedStudentFits(d: NewUser, users: map<UserId, User>, students: map<ProfileId, StudentProfile>,
                         counselors: map<CounselorId, CounselorProfile>, submissions: map<SubmissionId, Submission>,
                         u: UserId, id: ProfileId)
    requires ReferencesStored(users, students, counselors, submissions) && u !in users && id !in students
    ensures StudentFits(students, id, AddedStudent(d, u)) <==>
            forall q :: q in students ==> students[q].studentId != d.studentId && students[q].email != ""
  {
    NewUserHasNoProfile(users, students, counselors, submissions, u);
  }

  /** The new counselor profile fits exactly when no stored counselor has its employee id. */
  lemma AddedCounselorFits(d: NewUser, users: map<UserId, User>, students: map<ProfileId, StudentProfile>,
                           counselors: map<CounselorId, CounselorProfile>, submissions: map<SubmissionId, Submission>,
                           u: UserId, id: CounselorId)
    requires ReferencesStored(users, students, counselors, submissions) && u !in users && id !in counselors
    ensures CounselorFits(counselors, id, AddedCounselor(d, u)) <==> !EmployeeIdTaken(counselors, d.employeeId)
  {
    NewUserHasNoProfile(users, students, counselors, submissions, u);
  }

  /* Deleting a user. */

  /**
   * `delete_user`: the student profile (with its submissions), the counselor
   * profile, then the user. Any method deletes; the net effect is the user's
   * CASCADE.
   */
  method DeleteUser(db: Db, isSuperadmin: bool, uid: UserId) returns (r: Response)
    requires db.Valid()
    modifies db
    ensures db.Counters() == old(db.Counters())
    ensures db.Valid()
    ensures !isSuperadmin ==> r == AdminLogin && unchanged(db)
    ensures isSuperadmin && uid !in old(db.users) ==> r == NotFound && unchanged(db)
    ensures isSuperadmin && uid in old(db.users) ==>
              && r == Redirect("admin_dashboard")
              && db.users == old(db.users) - {uid}
              && db.students == StudentsWithoutUser(old(db.students), uid)
              && db.counselors == CounselorsWithoutUser(old(db.counselors), uid)
              && db.submissions == SubmissionsWithoutUser(old(db.students), old(db.submissions), uid)
  {
    if !isSuperadmin {
      return AdminLogin;
    }
    if uid !in db.users {
      return NotFound;
    }
    var profile := db.StudentProfileOf(uid);
    if profile.Some? {
      ProfileFirst(db.students, db.submissions, uid, profile.value);
      db.DeleteStudentProfile(profile.value);
    }
    var counselor := db.CounselorProfileOf(uid);
    if counselor.Some? {
      CounselorFirst(db.counselors, uid, counselor.value);
      db.DeleteCounselorProfile(counselor.value);
    }
    db.DeleteUser(uid);
    r := Redirect("admin_dashboard");
  }

  /** Deleting the user's student profile first changes nothing about what the user's CASCADE leaves. */
  lemma ProfileFirst(students: map<ProfileId, StudentProfile>, submissions: map<SubmissionId, Submission>,
                     u: UserId, p: ProfileId)
    requires p in students && students[p].user == Some(u)
    ensures StudentsWithoutUser(students - {p}, u) == StudentsWithoutUser(students, u)
    ensures SubmissionsWithoutUser(students - {p}, WithoutSubmissionsOf(submissions, p), u)
            == SubmissionsWithoutUser(students, submissions, u)
  {
    var a, b := SubmissionsWithoutUser(students - {p}, WithoutSubmissionsOf(submissions, p), u),
                SubmissionsWithoutUser(students, submissions, u);
    assert forall s :: s in a <==> s in b;
    assert StudentsWithoutUser(students - {p}, u).Keys == StudentsWithoutUser(students, u).Keys;
  }

  /** Likewise for the counselor profile. */
  lemma CounselorFirst(counselors: map<CounselorId, CounselorProfile>, u: UserId, c: CounselorId)
    requires c in counselors && counselors[c].user == u
    ensures CounselorsWithoutUser(counselors - {c}, u) == CounselorsWithoutUser(counselors, u)
  {
    assert CounselorsWithoutUser(counselors - {c}, u).Keys == CounselorsWithoutUser(counselors, u).Keys;
  }

  /** After the cascade the user has neither a student nor a counselor profile, and every other row stays. */
  lemma DeletedUserLeavesNoProfile(students: map<ProfileId, StudentProfile>, counselors: map<CounselorId, CounselorProfile>,
                                   u: UserId)
    ensures !HasStudentProfile(StudentsWithoutUser(students, u), u)
    ensures !IsCounselor(CounselorsWithoutUser(counselors, u), u)
    ensures forall p :: p in students && students[p].user != Some(u) ==> p in StudentsWithoutUser(students, u)
  {
  }

  /* Editing a user. */

  const EditUserTemplate := "admins/edit_user.html"

  /**
   * `edit_user`: a student (tested first) or a counselor gets the posted name,
   * college and grade, and the posted id both as its id and as its username.
   * The user is saved first, then the profile; either save can fail on a unique
   * constraint, which is a server error.
   */
  method EditUser(db: Db, isSuperadmin: bool, verb: Method, uid: UserId, post: PostData) returns (r: Response)
    requires db.Valid()
    modifies db
    ensures db.Counters() == old(db.Counters())
    ensures db.Valid()
    ensures !isSuperadmin ==> r == AdminLogin && unchanged(db)
    ensures isSuperadmin && uid !in old(db.users) ==> r == NotFound && unchanged(db)
    ensures isSuperadmin && uid in old(db.users) &&
            !HasStudentProfile(old(db.students), uid) && !IsCounselor(old(db.counselors), uid) ==>
              r == Redirect("admin_dashboard") && unchanged(db)
    ensures isSuperadmin && uid in old(db.users) &&
            (HasStudentProfile(old(db.students), uid) || IsCounselor(old(db.counselors), uid)) &&
            (verb == GET || UserEditForm(post, uid, old(db.users), old(db.students), old(db.counselors)).Rejected?) ==>
              r == Page(EditUserTemplate) && unchanged(db)
    ensures isSuperadmin && uid in old(db.users) && verb == POST &&
            UserEditForm(post, uid, old(db.users), old(db.students), old(db.counselors)).Accepted? ==>
              var d := UserEditForm(post, uid, old(db.users), old(db.students), old(db.counselors)).data;
              && (forall p :: p in old(db.students) && old(db.students)[p].user == Some(uid) ==>
                    StudentEdited(d, uid, p, old(db.users), old(db.students), r, db.users, db.students)
                    && db.counselors == old(db.counselors))
              && (!HasStudentProfile(old(db.students), uid) ==>
                    forall c :: c in old(db.counselors) && old(db.counselors)[c].user == uid ==>
                      CounselorEdited(d, uid, c, old(db.users), old(db.counselors), r, db.users, db.counselors)
                      && db.students == old(db.students))
    ensures db.submissions == old(db.submissions)
  {
    if !isSuperadmin {
      return AdminLogin;
    }
    if uid !in db.users {
      return NotFound;
    }
    var profile := db.StudentProfileOf(uid);
    var counselor := db.CounselorProfileOf(uid);
    if profile.None? && counselor.None? {
      return Redirect("admin_dashboard");
    }
    if verb == GET {
      return Page(EditUserTemplate);
    }
    var form := UserEditForm(post, uid, db.users, db.students, db.counselors);
    if form.Rejected? {
      return Page(EditUserTemplate);
    }
    if profile.Some? {
      OneProfilePerUser(db.students, uid, profile.value);
      r := SaveStudentEdit(db, uid, profile.value, form.data);
    } else {
      OneCounselorPerUser(db.counselors, uid, counselor.value);
      r := SaveCounselorEdit(db, uid, counselor.value, form.data);
    }
  }

  /** The student profile with the edited fields. */
  function EditedStudent(p: StudentProfile, d: EditData): (q: StudentProfile)
    ensures q.fullName == d.fullName && q.studentId == d.studentId && q.college == d.college && q.grade == d.grade
    ensures q.user == p.user && q.email == p.email
    ensures q.academicComprehensiveScore == p.academicComprehensiveScore
    ensures q.academicExpertiseScore == p.academicExpertiseScore
    ensures q.comprehensivePerformanceScore == p.comprehensivePerformanceScore
  {
    p.(fullName := d.fullName, studentId := d.studentId, college := d.college, grade := d.grade)
  }

  /** The counselor profile with the edited fields. */
  function EditedCounselor(c: CounselorProfile, d: EditData): (e: CounselorProfile)
    ensures e.fullName == d.fullName && e.employeeId == d.employeeId && e.college == d.college && e.grade == d.grade
    ensures e.user == c.user
  {
    c.(fullName := d.fullName, employeeId := d.employeeId, college := d.college, grade := d.grade)
  }

  /**
   * The effect of editing student profile `p` of user `uid`: the username becomes
   * the student id unless another user has it (then nothing changes); then the
   * profile is saved unless it clashes (then only the username changed).
   */
  ghost predicate StudentEdited(d: EditData, uid: UserId, p: ProfileId, users: map<UserId, User>,
                                students: map<ProfileId, StudentProfile>, r: Response,
                                users': map<UserId, User>, students': map<ProfileId, StudentProfile>)
    requires p in students
  {
    if !UserFits(users, uid, User(d.studentId)) then
      r == ServerError && users' == users && students' == students
    else
      && users' == users[uid := User(d.studentId)]
      && if StudentFits(students, p, EditedStudent(students[p], d))
         then r == Redirect("admin_dashboard") && students' == students[p := EditedStudent(students[p], d)]
         else r == ServerError && students' == students
  }

  /** The same for counselor profile `c`, with the employee id. */
  ghost predicate CounselorEdited(d: EditData, uid: UserId, c: CounselorId, users: map<UserId, User>,
                                  counselors: map<CounselorId, CounselorProfile>, r: Response,
                                  users': map<UserId, User>, counselors': map<CounselorId, CounselorProfile>)
    requires c in counselors
  {
    if !UserFits(users, uid, User(d.employeeId)) then
      r == ServerError && users' == users && counselors' == counselors
    else
      && users' == users[uid := User(d.employeeId)]
      && if CounselorFits(counselors, c, EditedCounselor(counselors[c], d))
         then r == Redirect("admin_dashboard") && counselors' == counselors[c := EditedCounselor(counselors[c], d)]
         else r == ServerError && counselors' == counselors
  }

  /** The student branch of `edit_user` once the form is valid. */
  method SaveStudentEdit(db: Db, uid: UserId, p: ProfileId, d: EditData) returns (r: Response)
    requires db.Valid() && uid in db.users && p in db.students && db.students[p].user == Some(uid)
    modifies db
    ensures db.Counters() == old(db.Counters())
    ensures db.Valid()
    ensures StudentEdited(d, uid, p, old(db.users), old(db.students), r, db.users, db.students)
    ensures db.counselors == old(db.counselors) && db.submissions == old(db.submissions)
  {
    var ok := db.SaveUser(uid, User(d.studentId));
    if !ok {
      return ServerError;
    }
    var saved := db.SaveStudentProfile(p, EditedStudent(db.students[p], d));
    r := if saved then Redirect("admin_dashboard") else ServerError;
  }

  /** The counselor branch of `edit_user` once the form is valid. */
  method SaveCounselorEdit(db: Db, uid: UserId, c: CounselorId, d: EditData) returns (r: Response)
    requires db.Valid() && uid in db.users && c in db.counselors && db.counselors[c].user == uid
    modifies db
    ensures db.Counters() == old(db.Counters())
    ensures db.Valid()
    ensures CounselorEdited(d, uid, c, old(db.users), old(db.counselors), r, db.users, db.counselors)
    ensures db.students == old(db.students) && db.submissions == old(db.submissions)
  {
    var ok := db.SaveUser(uid, User(d.employeeId));
    if !ok {
      return ServerError;
    }
    var saved := db.SaveCounselorProfile(c, EditedCounselor(db.counselors[c], d));
    r := if saved then Redirect("admin_dashboard") else ServerError;
  }

  /**
   * An accepted non-empty student id never fails to save: the form already
   * refused it when another user or another student holds it.
   */
  lemma AcceptedStudentEditSaves(d: EditData, uid: UserId, p: ProfileId, users: map<UserId, User>,
                                 students: map<ProfileId, StudentProfile>)
    requires StudentsUnique(students) && p in students && students[p].user == Some(uid)
    requires d.studentId != "" && !StudentIdClash(users, students, uid, d.studentId)
    ensures UserFits(users, uid, User(d.studentId))
    ensures StudentFits(students, p, EditedStudent(students[p], d))
  {
    OneProfilePerUser(students, uid, p);
    assert StudentFits(students, p, students[p]);
  }

  /** Likewise an accepted non-empty employee id. */
  lemma AcceptedCounselorEditSaves(d: EditData, uid: UserId, c: CounselorId, users: map<UserId, User>,
                                   counselors: map<CounselorId, CounselorProfile>)
    requires CounselorsUnique(counselors) && c in counselors && counselors[c].user == uid
    requires d.employeeId != "" && !EmployeeIdClash(users, counselors, uid, d.employeeId)
    ensures UserFits(users, uid, User(d.employeeId))
    ensures CounselorFits(counselors, c, EditedCounselor(counselors[c], d))
  {
    OneCounselorPerUser(counselors, uid, c);
    assert CounselorFits(counselors, c, counselors[c]);
  }

  /**
   * An empty id is not checked by the form, yet it becomes the username: once
   * another user has the empty username, the edit fails with nothing saved.
   */
  lemma BlankIdEditRefused(d: EditData, uid: UserId, other: UserId, users: map<UserId, User>)
    requires d.studentId == "" && other in users && other != uid && users[other].username == ""
    ensures !UserFits(users, uid, User(d.studentId))
  {
  }
}
