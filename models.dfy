/**
 * The records of apps/students/models.py and apps/counselors/models.py, with the
 * fields the views read and write, their defaults, the student-id validator and
 * the `__str__` texts.
 */
module Models {
  import opened Wrappers
  import opened Text

  type UserId = nat
  type ProfileId = nat
  type CounselorId = nat
  type SubmissionId = nat

  /** Django's auth user; only the login name matters to the views modelled here. */
  datatype User = User(username: string)

  /** A student: identity, cohort (college, grade) and the three component scores. */
  datatype StudentProfile = StudentProfile(
    user: Option<UserId>,
    fullName: string,
    studentId: string,
    college: string,
    grade: string,
    email: string,
    academicComprehensiveScore: Option<real>,
    academicExpertiseScore: real,
    comprehensivePerformanceScore: real)

  /** A counselor: identity and the (college, grade) cohort they are responsible for. */
  datatype CounselorProfile = CounselorProfile(
    user: UserId,
    fullName: string,
    employeeId: string,
    college: string,
    grade: string)

  /**
   * A student's supporting material. `approvedScore` and `rejectReason` hold the
   * posted form text as the review views store it.
   */
  datatype Submission = Submission(
    student: ProfileId,
    description: string,
    category: string,
    approved: bool,
    approvedScore: Option<string>,
    rejected: bool,
    rejectReason: Option<string>,
    timestamp: int)

  /** A profile as `objects.create` makes it: every field not passed takes its default. */
  function NewStudentProfile(user: UserId, studentId: string, fullName: string, college: string): (p: StudentProfile)
    ensures p.user == Some(user) && p.studentId == studentId && p.fullName == fullName && p.college == college
    ensures p.email == "" && p.grade == "" && p.academicComprehensiveScore == None
    ensures p.academicExpertiseScore == 0.0 && p.comprehensivePerformanceScore == 0.0
  {
    StudentProfile(Some(user), fullName, studentId, college, "", "", None, 0.0, 0.0)
  }

  /**
   * A submission as the upload form saves it: the posted description, not
   * approved, not rejected, no score, no reason, stamped with the time of creation.
   */
  function NewSubmission(student: ProfileId, description: string, category: string, now: int): (s: Submission)
    ensures s.student == student && s.description == description && s.category == category && s.timestamp == now
    ensures !s.approved && !s.rejected && s.approvedScore == None && s.rejectReason == None
  {
    Submission(student, description, category, false, None, false, None, now)
  }

  /** 10 to 20 decimal digits, '0' to '9' only. */
  predicate IsIdDigits(s: string) {
    10 <= |s| <= 20 && AllDigits(s)
  }

  /**
   * `re.search(r'^\d{10,20}$', s)`, the student-id validator, with `\d` read as
   * the ASCII digits. Python's `$` also matches just before a final newline.
   */
  predicate MatchesStudentIdPattern(s: string) {
    IsIdDigits(s) || (|s| > 0 && s[|s| - 1] == '\n' && IsIdDigits(s[..|s| - 1]))
  }

  /** Without a newline, the validator accepts exactly the strings of 10 to 20 digits. */
  lemma StudentIdFormat(s: string)
    requires '\n' !in s
    ensures MatchesStudentIdPattern(s) <==> 10 <= |s| <= 20 && AllDigits(s)
  {
    if |s| > 0 {
      assert s[|s| - 1] in s;
    }
  }

  /**
   * Form fields strip their input before validators run, so on a cleaned value the
   * validator accepts exactly 10 to 20 digits.
   */
  lemma StrippedStudentIdFormat(raw: string)
    ensures var s := Strip(raw);
            MatchesStudentIdPattern(s) <==> 10 <= |s| <= 20 && AllDigits(s)
  {
    var s := Strip(raw);
    if |s| > 0 {
      assert !IsSpace(s[|s| - 1]);
    }
  }

  /** The validator as written lets a trailing newline through. */
  lemma TrailingNewlineAccepted()
    ensures MatchesStudentIdPattern("2023000001\n") && !IsIdDigits("2023000001\n")
  {
    assert IsIdDigits("2023000001");
  }

  /** `str(user)`: the username; for a missing user, `str(None)`. */
  function UserText(owner: Option<User>): string {
    match owner
    case Some(u) => u.username
    case None => "None"
  }

  /** `StudentProfile.__str__`: the name, else the student id, else the user's text. */
  function ProfileText(p: StudentProfile, owner: Option<User>): (r: string)
    ensures r == p.fullName || r == p.studentId || r == UserText(owner)
    ensures r == "" <==> p.fullName == "" && p.studentId == "" && owner.Some? && owner.value.username == ""
    ensures p.fullName != "" ==> r == p.fullName
    ensures p.fullName == "" && p.studentId != "" ==> r == p.studentId
    ensures p.fullName == "" && p.studentId == "" ==> r == UserText(owner)
  {
    if p.fullName != "" then p.fullName
    else if p.studentId != "" then p.studentId
    else UserText(owner)
  }

  const SubmissionPrefix: string := "提交#"
  const SubmissionSeparator: string := " - "

  /**
   * `Submission.__str__`: "提交#<id> - <name>", the name being the student's full
   * name or else the username; None when the student has no name and no user,
   * where Python raises AttributeError.
   */
  function SubmissionText(id: SubmissionId, p: StudentProfile, owner: Option<User>): (r: Option<string>)
    ensures r.None? <==> p.fullName == "" && owner.None?
    ensures r.Some? ==> SubmissionPrefix <= r.value
    ensures p.fullName != "" ==> r == Some(SubmissionPrefix + NatToDigits(id) + SubmissionSeparator + p.fullName)
    ensures p.fullName == "" && owner.Some? ==>
              r == Some(SubmissionPrefix + NatToDigits(id) + SubmissionSeparator + owner.value.username)
  {
    if p.fullName != "" then Some(SubmissionPrefix + NatToDigits(id) + SubmissionSeparator + p.fullName)
    else match owner
      case Some(u) => Some(SubmissionPrefix + NatToDigits(id) + SubmissionSeparator + u.username)
      case None => None
  }

  /** Two submissions with different ids never share a text, whoever their students are. */
  lemma SubmissionTextDistinguishesIds(id1: SubmissionId, p1: StudentProfile, o1: Option<User>,
                                       id2: SubmissionId, p2: StudentProfile, o2: Option<User>)
    requires SubmissionText(id1, p1, o1).Some? && SubmissionText(id1, p1, o1) == SubmissionText(id2, p2, o2)
    ensures id1 == id2
  {
    var t := SubmissionText(id1, p1, o1).value;
    var n1 := if p1.fullName != "" then p1.fullName else o1.value.username;
    var n2 := if p2.fullName != "" then p2.fullName else o2.value.username;
    var d1, d2 := NatToDigits(id1), NatToDigits(id2);
    assert t == SubmissionPrefix + (d1 + (SubmissionSeparator + n1));
    assert t == SubmissionPrefix + (d2 + (SubmissionSeparator + n2));
    assert t[|SubmissionPrefix|..] == d1 + (SubmissionSeparator + n1) == d2 + (SubmissionSeparator + n2);
    DigitRunPrefix(d1, SubmissionSeparator + n1, d2, SubmissionSeparator + n2);
    NatToDigitsRoundTrip(id1);
    NatToDigitsRoundTrip(id2);
  }

  /** A run of digits followed by a non-digit is determined by the string it starts. */
  lemma {:induction false} DigitRunPrefix(a: string, x: string, b: string, y: string)
    requires AllDigits(a) && AllDigits(b) && x != [] && y != [] && !IsDigit(x[0]) && !IsDigit(y[0])
    requires a + x == b + y
    ensures a == b
    decreases |a|
  {
    assert (a + x)[0] == (b + y)[0];
    if a != [] && b != [] {
      assert (a + x)[1..] == a[1..] + x && (b + y)[1..] == b[1..] + y;
      DigitRunPrefix(a[1..], x, b[1..], y);
      assert a == [a[0]] + a[1..] && b == [b[0]] + b[1..];
    }
  }
}
