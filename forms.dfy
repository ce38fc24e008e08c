/**
 * The Django forms of the core and the checks their `clean_<field>` and `clean`
 * methods add. A form is cleaned field by field: the field's own cleaning
 * (strip, required, max_length, no NUL character; a choice among its choices),
 * then `clean_<field>` for a field that cleaned, then `clean`. Data comes from
 * `request.POST` as one string per key; a missing key is None.
 */
module Forms {
  import opened Wrappers
  import opened Text
  import opened Models

  type PostData = map<string, string>

  /** The form fields of the core, by the name they are posted under. */
  datatype FieldName =
    | UserTypeField | UsernameField | Password1Field | Password2Field | FullNameField
    | StudentIdField | CollegeField | EmployeeIdField | GradeField

  function Key(f: FieldName): string {
    match f
    case UserTypeField => "user_type"
    case UsernameField => "username"
    case Password1Field => "password1"
    case Password2Field => "password2"
    case FullNameField => "full_name"
    case StudentIdField => "student_id"
    case CollegeField => "college"
    case EmployeeIdField => "employee_id"
    case GradeField => "grade"
  }

  /** `request.POST.get(key)`. */
  function Get(data: PostData, key: string): Option<string> {
    if key in data then Some(data[key]) else None
  }

  /** The posted value of a form field. */
  function Field(data: PostData, f: FieldName): Option<string> {
    Get(data, Key(f))
  }

  /** The posted value of a form field with white space stripped, "" when it is missing. */
  function Posted(data: PostData, f: FieldName): string {
    Strip(Field(data, f).GetOr(""))
  }

  datatype FieldResult = Cleaned(value: string) | Invalid

  /** `cleaned_data.get(name)`: the value of a field that cleaned, None otherwise. */
  function Value(f: FieldResult): Option<string> {
    if f.Cleaned? then Some(f.value) else None
  }

  /** The cleaned text of a field, "" for a field in error (only read once the form is valid). */
  function TextOf(f: FieldResult): string {
    if f.Cleaned? then f.value else ""
  }

  /** Python's truthiness of `cleaned_data.get(name)`: present and non-empty. */
  predicate Filled(f: FieldResult) {
    f.Cleaned? && f.value != ""
  }

  /**
   * `forms.CharField(max_length=..., required=...)`: the input is stripped; an empty
   * value is an error only when required and skips the validators; otherwise the
   * value may not be longer than `maxLength` or contain a NUL character.
   */
  function CharField(raw: Option<string>, required: bool, maxLength: Option<nat>): (r: FieldResult)
    ensures r.Cleaned? ==> r.value == Strip(raw.GetOr(""))
    ensures r.Cleaned? && r.value != "" ==> (maxLength.Some? ==> |r.value| <= maxLength.value) && '\0' !in r.value
    ensures r.Invalid? <==> var v := Strip(raw.GetOr(""));
              if v == "" then required else (maxLength.Some? && |v| > maxLength.value) || '\0' in v
  {
    var v := Strip(raw.GetOr(""));
    if v == "" then (if required then Invalid else Cleaned(""))
    else if (maxLength.Some? && |v| > maxLength.value) || '\0' in v then Invalid
    else Cleaned(v)
  }

  /** A required `forms.ChoiceField`: the raw value (not stripped) must be one of the choices. */
  function ChoiceField(raw: Option<string>, choices: set<string>): (r: FieldResult)
    ensures r.Cleaned? <==> raw.Some? && raw.value in choices && raw.value != ""
    ensures r.Cleaned? ==> r.value == raw.value
  {
    var v := raw.GetOr("");
    if v != "" && v in choices then Cleaned(v) else Invalid
  }

  /** The outcome of `form.is_valid()`: the cleaned data, or the names of the fields in error. */
  datatype FormResult<T> = Accepted(data: T) | Rejected(errors: set<FieldName>)

  function Outcome<T>(errors: set<FieldName>, data: T): (r: FormResult<T>)
    ensures r.Accepted? <==> errors == {}
    ensures r.Accepted? ==> r.data == data
    ensures r.Rejected? ==> r.errors == errors
  {
    if errors == {} then Accepted(data) else Rejected(errors)
  }

  /** `if <cond>: self.add_error(name, ...)`. */
  function ErrorIf(cond: bool, name: FieldName): set<FieldName> {
    if cond then {name} else {}
  }

  /* Store lookups the forms make through the ORM. */

  predicate UsernameTaken(users: map<UserId, User>, name: string) {
    exists u :: u in users && users[u].username == name
  }

  predicate StudentIdTaken(students: map<ProfileId, StudentProfile>, sid: string) {
    exists p :: p in students && students[p].studentId == sid
  }

  predicate EmployeeIdTaken(counselors: map<CounselorId, CounselorProfile>, eid: string) {
    exists c :: c in counselors && counselors[c].employeeId == eid
  }

  /* StudentRegistrationForm (apps/students/views.py). */

  datatype Registration = Registration(studentId: string, fullName: string)

  /** Field errors of the student registration form. */
  function StudentRegistrationErrors(post: PostData, students: map<ProfileId, StudentProfile>): set<FieldName>
  {
    var sid := CharField(Field(post, StudentIdField), true, Some(20));
    var p1 := CharField(Field(post, Password1Field), true, None);
    var p2 := CharField(Field(post, Password2Field), true, None);
    var name := CharField(Field(post, FullNameField), false, Some(100));
    ErrorIf(sid.Invalid? || StudentIdTaken(students, sid.value), StudentIdField)
    + ErrorIf(p1.Invalid?, Password1Field)
    + ErrorIf(p2.Invalid? || (Filled(p1) && Filled(p2) && p1.value != p2.value), Password2Field)
    + ErrorIf(name.Invalid?, FullNameField)
  }

  /** `clean_student_id`: the student id is in error when it does not clean or is already registered. */
  lemma RegistrationStudentIdError(post: PostData, students: map<ProfileId, StudentProfile>)
    ensures var sid := CharField(Field(post, StudentIdField), true, Some(20));
            StudentIdField in StudentRegistrationErrors(post, students)
            <==> sid.Invalid? || StudentIdTaken(students, sid.value)
  {
  }

  /** The registration password error is raised only when both passwords are given and differ. */
  lemma RegistrationPasswordError(post: PostData, students: map<ProfileId, StudentProfile>)
    requires CharField(Field(post, Password2Field), true, None).Cleaned?
    ensures var p1 := Value(CharField(Field(post, Password1Field), true, None));
            var p2 := Value(CharField(Field(post, Password2Field), true, None));
            Password2Field in StudentRegistrationErrors(post, students)
            <==> p1.Some? && p1.value != "" && p2.value != "" && p1 != p2
  {
  }

  /** `StudentRegistrationForm.is_valid()`: an accepted id is 1 to 20 characters and unregistered. */
  function StudentRegistrationForm(post: PostData, students: map<ProfileId, StudentProfile>): (r: FormResult<Registration>)
    ensures r.Accepted? ==> r.data == Registration(Posted(post, StudentIdField), Posted(post, FullNameField))
    ensures r.Accepted? ==> r.data.studentId != "" && |r.data.studentId| <= 20 && |r.data.fullName| <= 100
    ensures r.Accepted? ==> !StudentIdTaken(students, r.data.studentId)
    ensures r.Accepted? ==> CharField(Field(post, Password1Field), true, None) == CharField(Field(post, Password2Field), true, None)
  {
    var sid := CharField(Field(post, StudentIdField), true, Some(20));
    var name := CharField(Field(post, FullNameField), false, Some(100));
    Outcome(StudentRegistrationErrors(post, students), Registration(TextOf(sid), TextOf(name)))
  }

  /* CounselorRegistrationForm (apps/counselors/views.py). */

  datatype CounselorRegistration = CounselorRegistration(employeeId: string, fullName: string, college: string)

  /** `cleaned_data.get('password1') != cleaned_data.get('password2')`: two missing passwords agree. */
  predicate PasswordsDiffer(p1: FieldResult, p2: FieldResult) {
    Value(p1) != Value(p2)
  }

  function CounselorRegistrationErrors(post: PostData, counselors: map<CounselorId, CounselorProfile>): set<FieldName>
  {
    var eid := CharField(Field(post, EmployeeIdField), true, Some(20));
    var name := CharField(Field(post, FullNameField), true, Some(100));
    var college := CharField(Field(post, CollegeField), true, Some(100));
    var p1 := CharField(Field(post, Password1Field), true, None);
    var p2 := CharField(Field(post, Password2Field), true, None);
    ErrorIf(eid.Invalid? || EmployeeIdTaken(counselors, eid.value), EmployeeIdField)
    + ErrorIf(name.Invalid?, FullNameField)
    + ErrorIf(college.Invalid?, CollegeField)
    + ErrorIf(p1.Invalid?, Password1Field)
    + ErrorIf(p2.Invalid? || PasswordsDiffer(p1, p2), Password2Field)
  }

  /** `clean_employee_id`: the employee id is in error when it does not clean or is already registered. */
  lemma CounselorRegistrationEmployeeIdError(post: PostData, counselors: map<CounselorId, CounselorProfile>)
    ensures var eid := CharField(Field(post, EmployeeIdField), true, Some(20));
            EmployeeIdField in CounselorRegistrationErrors(post, counselors)
            <==> eid.Invalid? || EmployeeIdTaken(counselors, eid.value)
  {
  }

  /**
   * `clean` compares the passwords with `!=` even when one is missing, so the
   * password2 error is raised exactly when the cleaned passwords differ or password2 fails.
   */
  lemma CounselorRegistrationPasswordError(post: PostData, counselors: map<CounselorId, CounselorProfile>)
    ensures var p1 := CharField(Field(post, Password1Field), true, None);
            var p2 := CharField(Field(post, Password2Field), true, None);
            Password2Field in CounselorRegistrationErrors(post, counselors) <==> p2.Invalid? || Value(p1) != Value(p2)
  {
  }

  /** `CounselorRegistrationForm.is_valid()`: an accepted employee id is new and non-empty, the passwords agree. */
  function CounselorRegistrationForm(post: PostData, counselors: map<CounselorId, CounselorProfile>)
    : (r: FormResult<CounselorRegistration>)
    ensures r.Accepted? ==>
              r.data == CounselorRegistration(Posted(post, EmployeeIdField), Posted(post, FullNameField), Posted(post, CollegeField))
    ensures r.Accepted? ==> r.data.employeeId != "" && !EmployeeIdTaken(counselors, r.data.employeeId)
    ensures r.Accepted? ==> r.data.fullName != "" && r.data.college != ""
    ensures r.Accepted? ==> !PasswordsDiffer(CharField(Field(post, Password1Field), true, None), CharField(Field(post, Password2Field), true, None))
  {
    var eid := CharField(Field(post, EmployeeIdField), true, Some(20));
    var name := CharField(Field(post, FullNameField), true, Some(100));
    var college := CharField(Field(post, CollegeField), true, Some(100));
    Outcome(CounselorRegistrationErrors(post, counselors), CounselorRegistration(TextOf(eid), TextOf(name), TextOf(college)))
  }

  /* UserCreationForm (apps/admins/views.py). */

  datatype NewUser = NewUser(
    userType: string, username: string, fullName: string,
    studentId: string, college: string, employeeId: string, grade: string)

  const UserTypes: set<string> := {"student", "counselor"}

  function UserCreationErrors(post: PostData, users: map<UserId, User>): (errors: set<FieldName>)
    ensures var name := CharField(Field(post, UsernameField), true, Some(150));
            name.Cleaned? && UsernameTaken(users, name.value) ==> UsernameField in errors
    ensures PasswordsDiffer(CharField(Field(post, Password1Field), true, None), CharField(Field(post, Password2Field), true, None))
            ==> Password2Field in errors
    ensures Value(ChoiceField(Field(post, UserTypeField), UserTypes)) == Some("student")
            && !Filled(CharField(Field(post, StudentIdField), false, Some(20)))
            ==> StudentIdField in errors
    ensures Value(ChoiceField(Field(post, UserTypeField), UserTypes)) == Some("counselor")
            ==> && (!Filled(CharField(Field(post, EmployeeIdField), false, Some(20))) ==> EmployeeIdField in errors)
                && (!Filled(CharField(Field(post, GradeField), false, Some(20))) ==> GradeField in errors)
  {
    var kind := ChoiceField(Field(post, UserTypeField), UserTypes);
    var name := CharField(Field(post, UsernameField), true, Some(150));
    var p1 := CharField(Field(post, Password1Field), true, None);
    var p2 := CharField(Field(post, Password2Field), true, None);
    var fullName := CharField(Field(post, FullNameField), true, Some(100));
    var sid := CharField(Field(post, StudentIdField), false, Some(20));
    var college := CharField(Field(post, CollegeField), false, Some(100));
    var eid := CharField(Field(post, EmployeeIdField), false, Some(20));
    var grade := CharField(Field(post, GradeField), false, Some(20));
    var student := Value(kind) == Some("student");
    var counselor := Value(kind) == Some("counselor");
    ErrorIf(kind.Invalid?, UserTypeField)
    + ErrorIf(name.Invalid? || UsernameTaken(users, name.value), UsernameField)
    + ErrorIf(p1.Invalid?, Password1Field)
    + ErrorIf(p2.Invalid? || PasswordsDiffer(p1, p2), Password2Field)
    + ErrorIf(fullName.Invalid?, FullNameField)
    + ErrorIf(sid.Invalid? || (student && !Filled(sid)), StudentIdField)
    + ErrorIf(college.Invalid?, CollegeField)
    + ErrorIf(eid.Invalid? || (counselor && !Filled(eid)), EmployeeIdField)
    + ErrorIf(grade.Invalid? || (counselor && !Filled(grade)), GradeField)
  }

  /**
   * `UserCreationForm.is_valid()`: an accepted username is new; a student comes with
   * a student id, a counselor with an employee id and a grade.
   */
  function UserCreationForm(post: PostData, users: map<UserId, User>): (r: FormResult<NewUser>)
    ensures r.Accepted? ==> Field(post, UserTypeField) == Some(r.data.userType)
    ensures r.Accepted? ==> r.data.username == Posted(post, UsernameField) && r.data.fullName == Posted(post, FullNameField)
    ensures r.Accepted? ==> r.data.studentId == Posted(post, StudentIdField) && r.data.college == Posted(post, CollegeField)
    ensures r.Accepted? ==> r.data.employeeId == Posted(post, EmployeeIdField) && r.data.grade == Posted(post, GradeField)
    ensures r.Accepted? ==> r.data.userType in UserTypes && r.data.username != ""
    ensures r.Accepted? ==> !UsernameTaken(users, r.data.username)
    ensures r.Accepted? && r.data.userType == "student" ==> r.data.studentId != ""
    ensures r.Accepted? && r.data.userType == "counselor" ==> r.data.employeeId != "" && r.data.grade != ""
  {
    var kind := ChoiceField(Field(post, UserTypeField), UserTypes);
    var name := CharField(Field(post, UsernameField), true, Some(150));
    var fullName := CharField(Field(post, FullNameField), true, Some(100));
    var sid := CharField(Field(post, StudentIdField), false, Some(20));
    var college := CharField(Field(post, CollegeField), false, Some(100));
    var eid := CharField(Field(post, EmployeeIdField), false, Some(20));
    var grade := CharField(Field(post, GradeField), false, Some(20));
    Outcome(UserCreationErrors(post, users),
            NewUser(TextOf(kind), TextOf(name), TextOf(fullName), TextOf(sid), TextOf(college), TextOf(eid), TextOf(grade)))
  }

  /* UserEditForm (apps/admins/views.py). */

  datatype EditData = EditData(fullName: string, college: string, grade: string, studentId: string, employeeId: string)

  const Colleges: set<string> := {"info", "other"}

  /**
   * `clean_student_id`: an empty id passes; otherwise it is refused when a user
   * other than `userId` has it as username, or a profile not owned by `userId`
   * has it as student id.
   */
  predicate StudentIdClash(users: map<UserId, User>, students: map<ProfileId, StudentProfile>, userId: UserId, sid: string) {
    sid != "" &&
    ((exists u :: u in users && u != userId && users[u].username == sid) ||
     (exists p :: p in students && students[p].user != Some(userId) && students[p].studentId == sid))
  }

  /** `clean_employee_id`, the same check against usernames and employee ids. */
  predicate EmployeeIdClash(users: map<UserId, User>, counselors: map<CounselorId, CounselorProfile>, userId: UserId, eid: string) {
    eid != "" &&
    ((exists u :: u in users && u != userId && users[u].username == eid) ||
     (exists c :: c in counselors && counselors[c].user != userId && counselors[c].employeeId == eid))
  }

  function UserEditErrors(post: PostData, userId: UserId, users: map<UserId, User>,
                          students: map<ProfileId, StudentProfile>, counselors: map<CounselorId, CounselorProfile>)
    : set<FieldName>
  {
    var fullName := CharField(Field(post, FullNameField), true, Some(100));
    var college := ChoiceField(Field(post, CollegeField), Colleges);
    var grade := CharField(Field(post, GradeField), true, Some(20));
    var sid := CharField(Field(post, StudentIdField), false, Some(20));
    var eid := CharField(Field(post, EmployeeIdField), false, Some(20));
    ErrorIf(fullName.Invalid?, FullNameField)
    + ErrorIf(college.Invalid?, CollegeField)
    + ErrorIf(grade.Invalid?, GradeField)
    + ErrorIf(sid.Invalid? || StudentIdClash(users, students, userId, sid.value), StudentIdField)
    + ErrorIf(eid.Invalid? || EmployeeIdClash(users, counselors, userId, eid.value), EmployeeIdField)
  }

  /** `clean_student_id` of the edit form: a cleaned id is in error exactly when it clashes. */
  lemma UserEditStudentIdError(post: PostData, userId: UserId, users: map<UserId, User>,
                               students: map<ProfileId, StudentProfile>, counselors: map<CounselorId, CounselorProfile>)
    ensures var sid := CharField(Field(post, StudentIdField), false, Some(20));
            sid.Cleaned? ==> (StudentIdField in UserEditErrors(post, userId, users, students, counselors)
                              <==> StudentIdClash(users, students, userId, sid.value))
  {
  }

  /** `clean_employee_id` of the edit form: a cleaned id is in error exactly when it clashes. */
  lemma UserEditEmployeeIdError(post: PostData, userId: UserId, users: map<UserId, User>,
                                students: map<ProfileId, StudentProfile>, counselors: map<CounselorId, CounselorProfile>)
    ensures var eid := CharField(Field(post, EmployeeIdField), false, Some(20));
            eid.Cleaned? ==> (EmployeeIdField in UserEditErrors(post, userId, users, students, counselors)
                              <==> EmployeeIdClash(users, counselors, userId, eid.value))
  {
  }

  /** `UserEditForm(request.POST, user_id=...).is_valid()`. */
  function UserEditForm(post: PostData, userId: UserId, users: map<UserId, User>,
                        students: map<ProfileId, StudentProfile>, counselors: map<CounselorId, CounselorProfile>)
    : (r: FormResult<EditData>)
    ensures r.Accepted? ==> Field(post, CollegeField) == Some(r.data.college)
    ensures r.Accepted? ==> r.data.fullName == Posted(post, FullNameField) && r.data.grade == Posted(post, GradeField)
    ensures r.Accepted? ==> r.data.studentId == Posted(post, StudentIdField) && r.data.employeeId == Posted(post, EmployeeIdField)
    ensures r.Accepted? ==> r.data.college in Colleges && r.data.fullName != "" && r.data.grade != ""
    ensures r.Accepted? ==> !StudentIdClash(users, students, userId, r.data.studentId)
    ensures r.Accepted? ==> !EmployeeIdClash(users, counselors, userId, r.data.employeeId)
  {
    var fullName := CharField(Field(post, FullNameField), true, Some(100));
    var college := ChoiceField(Field(post, CollegeField), Colleges);
    var grade := CharField(Field(post, GradeField), true, Some(20));
    var sid := CharField(Field(post, StudentIdField), false, Some(20));
    var eid := CharField(Field(post, EmployeeIdField), false, Some(20));
    Outcome(UserEditErrors(post, userId, users, students, counselors),
            EditData(TextOf(fullName), TextOf(college), TextOf(grade), TextOf(sid), TextOf(eid)))
  }

  /**
   * A student who keeps the student id that is also their username passes
   * `clean_student_id`, when usernames and student ids are unique.
   */
  lemma KeepingOwnStudentIdPasses(users: map<UserId, User>, students: map<ProfileId, StudentProfile>,
                                  userId: UserId, pid: ProfileId)
    requires userId in users && pid in students && students[pid].user == Some(userId)
    requires users[userId].username == students[pid].studentId
    requires forall u, v :: u in users && v in users && u != v ==> users[u].username != users[v].username
    requires forall p, q :: p in students && q in students && p != q ==> students[p].studentId != students[q].studentId
    ensures !StudentIdClash(users, students, userId, students[pid].studentId)
  {
  }

  /* RuleForm (apps/counselors/forms.py). */

  datatype ScoreResult = ScoreOk(score: Option<real>) | ScoreError

  /** `RuleForm.clean_score`: no score passes; a present score must be above zero. */
  function CleanScore(score: Option<real>): (r: ScoreResult)
    ensures r.ScoreOk? <==> score.None? || score.value > 0.0
    ensures r.ScoreOk? ==> r.score == score
  {
    if score.Some? && score.value <= 0.0 then ScoreError else ScoreOk(score)
  }
}
