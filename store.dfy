/**
 * The database behind the views: the four tables as maps from primary key to
 * row, the unique constraints the models declare, the foreign keys and their
 * CASCADE deletes. A create or save that would break a unique constraint
 * raises IntegrityError and writes nothing; here it reports failure instead.
 */
module Store {
  import opened Wrappers
  import opened Models

  /* Unique constraints, stated for one row against the rest of its table. */

  /** `auth_user.username` is unique. */
  predicate UserFits(users: map<UserId, User>, id: UserId, u: User) {
    forall v :: v in users && v != id ==> users[v].username != u.username
  }

  /** `student_id` and `email` are unique, and the one-to-one `user` link is too. */
  predicate StudentFits(students: map<ProfileId, StudentProfile>, id: ProfileId, p: StudentProfile) {
    forall q :: q in students && q != id ==>
      students[q].studentId != p.studentId && students[q].email != p.email &&
      (p.user.Some? ==> students[q].user != p.user)
  }

  /** `employee_id` is unique, and the one-to-one `user` link is too. */
  predicate CounselorFits(counselors: map<CounselorId, CounselorProfile>, id: CounselorId, c: CounselorProfile) {
    forall d :: d in counselors && d != id ==> counselors[d].employeeId != c.employeeId && counselors[d].user != c.user
  }

  predicate UsersUnique(users: map<UserId, User>) {
    forall id :: id in users ==> UserFits(users, id, users[id])
  }

  predicate StudentsUnique(students: map<ProfileId, StudentProfile>) {
    forall id :: id in students ==> StudentFits(students, id, students[id])
  }

  predicate CounselorsUnique(counselors: map<CounselorId, CounselorProfile>) {
    forall id :: id in counselors ==> CounselorFits(counselors, id, counselors[id])
  }

  /** Every foreign key points at a stored row. */
  predicate ReferencesStored(users: map<UserId, User>, students: map<ProfileId, StudentProfile>,
                             counselors: map<CounselorId, CounselorProfile>, submissions: map<SubmissionId, Submission>) {
    && (forall p :: p in students && students[p].user.Some? ==> students[p].user.value in users)
    && (forall c :: c in counselors ==> counselors[c].user in users)
    && (forall s :: s in submissions ==> submissions[s].student in students)
  }

  /** The constraints the database enforces on its four tables. */
  predicate Consistent(users: map<UserId, User>, students: map<ProfileId, StudentProfile>,
                       counselors: map<CounselorId, CounselorProfile>, submissions: map<SubmissionId, Submission>) {
    UsersUnique(users) && StudentsUnique(students) && CounselorsUnique(counselors) &&
    ReferencesStored(users, students, counselors, submissions)
  }

  /** Every key of `m` is below the auto-increment counter `n`. */
  predicate KeysUnder<V>(m: map<nat, V>, n: nat) {
    forall k :: k in m ==> k < n
  }

  /** Storing a fitting row keeps a table's unique constraints. */
  lemma UsersStayUnique(users: map<UserId, User>, id: UserId, u: User)
    requires UsersUnique(users) && UserFits(users, id, u)
    ensures UsersUnique(users[id := u])
  {
  }

  lemma StudentsStayUnique(students: map<ProfileId, StudentProfile>, id: ProfileId, p: StudentProfile)
    requires StudentsUnique(students) && StudentFits(students, id, p)
    ensures StudentsUnique(students[id := p])
  {
  }

  lemma CounselorsStayUnique(counselors: map<CounselorId, CounselorProfile>, id: CounselorId, c: CounselorProfile)
    requires CounselorsUnique(counselors) && CounselorFits(counselors, id, c)
    ensures CounselorsUnique(counselors[id := c])
  {
  }

  /** Under the student constraints, at most one profile has a given student id. */
  lemma StudentIdsUnique(students: map<ProfileId, StudentProfile>, p: ProfileId, q: ProfileId)
    requires StudentsUnique(students) && p in students && q in students
    requires students[p].studentId == students[q].studentId
    ensures p == q
  {
  }

  /** A stored profile saved with the same student id, email and user still fits. */
  lemma SameKeysFit(students: map<ProfileId, StudentProfile>, id: ProfileId, p: StudentProfile)
    requires StudentsUnique(students) && id in students
    requires p.studentId == students[id].studentId && p.email == students[id].email && p.user == students[id].user
    ensures StudentFits(students, id, p)
  {
    assert StudentFits(students, id, students[id]);
  }

  /** A user that is not stored yet has no profile, so any profile of it passes the one-to-one check. */
  lemma NewUserHasNoProfile(users: map<UserId, User>, students: map<ProfileId, StudentProfile>,
                            counselors: map<CounselorId, CounselorProfile>, submissions: map<SubmissionId, Submission>,
                            u: UserId)
    requires ReferencesStored(users, students, counselors, submissions) && u !in users
    ensures !HasStudentProfile(students, u) && !IsCounselor(counselors, u)
  {
  }

  /** The one-to-one link: a user has at most one student profile. */
  lemma OneProfilePerUser(students: map<ProfileId, StudentProfile>, u: UserId, p: ProfileId)
    requires StudentsUnique(students) && p in students && students[p].user == Some(u)
    ensures forall q :: q in students && students[q].user == Some(u) ==> q == p
  {
    assert StudentFits(students, p, students[p]);
  }

  /** And at most one counselor profile. */
  lemma OneCounselorPerUser(counselors: map<CounselorId, CounselorProfile>, u: UserId, c: CounselorId)
    requires CounselorsUnique(counselors) && c in counselors && counselors[c].user == u
    ensures forall d :: d in counselors && counselors[d].user == u ==> d == c
  {
    assert CounselorFits(counselors, c, counselors[c]);
  }

  /**
   * `email` is unique but defaults to "": once one profile has no email, a second
   * profile without one does not fit.
   */
  lemma SecondBlankEmailRefused(students: map<ProfileId, StudentProfile>, id: ProfileId, p: StudentProfile)
    requires exists q :: q in students && q != id && students[q].email == ""
    requires p.email == ""
    ensures !StudentFits(students, id, p)
  {
  }

  /* Cascades. */

  /** Submission.student is CASCADE: deleting profile `p` deletes its submissions. */
  function WithoutSubmissionsOf(submissions: map<SubmissionId, Submission>, p: ProfileId): (r: map<SubmissionId, Submission>)
    ensures forall s :: s in r <==> s in submissions && submissions[s].student != p
    ensures forall s :: s in r ==> r[s] == submissions[s]
  {
    map s | s in submissions && submissions[s].student != p :: submissions[s]
  }

  /** The profiles of `u`, which StudentProfile.user's CASCADE deletes with it. */
  function StudentsOfUser(students: map<ProfileId, StudentProfile>, u: UserId): set<ProfileId> {
    set p | p in students && students[p].user == Some(u)
  }

  function CounselorsOfUser(counselors: map<CounselorId, CounselorProfile>, u: UserId): set<CounselorId> {
    set c | c in counselors && counselors[c].user == u
  }

  /** The student table once the user's profiles are gone. */
  function StudentsWithoutUser(students: map<ProfileId, StudentProfile>, u: UserId): (r: map<ProfileId, StudentProfile>)
    ensures forall p :: p in r <==> p in students && students[p].user != Some(u)
    ensures forall p :: p in r ==> r[p] == students[p]
  {
    map p | p in students && students[p].user != Some(u) :: students[p]
  }

  function CounselorsWithoutUser(counselors: map<CounselorId, CounselorProfile>, u: UserId): (r: map<CounselorId, CounselorProfile>)
    ensures forall c :: c in r <==> c in counselors && counselors[c].user != u
    ensures forall c :: c in r ==> r[c] == counselors[c]
  {
    map c | c in counselors && counselors[c].user != u :: counselors[c]
  }

  /** The submission table once the user's profiles (and so their submissions) are gone. */
  function SubmissionsWithoutUser(students: map<ProfileId, StudentProfile>, submissions: map<SubmissionId, Submission>,
                                  u: UserId): (r: map<SubmissionId, Submission>)
    ensures forall s :: s in r <==>
              s in submissions && !(submissions[s].student in students && students[submissions[s].student].user == Some(u))
    ensures forall s :: s in r ==> r[s] == submissions[s]
  {
    map s | s in submissions && !(submissions[s].student in students && students[submissions[s].student].user == Some(u))
      :: submissions[s]
  }

  /* Queries. */

  /** `hasattr(user, 'profile')`. */
  predicate HasStudentProfile(students: map<ProfileId, StudentProfile>, u: UserId) {
    exists p :: p in students && students[p].user == Some(u)
  }

  /** `hasattr(user, 'counselor_profile')`. */
  predicate IsCounselor(counselors: map<CounselorId, CounselorProfile>, u: UserId) {
    exists c :: c in counselors && counselors[c].user == u
  }

  /**
   * Deleting a user with its profiles and their submissions keeps the unique
   * constraints and leaves no dangling reference.
   */
  lemma CascadeKeepsConsistent(users: map<UserId, User>, students: map<ProfileId, StudentProfile>,
                               counselors: map<CounselorId, CounselorProfile>, submissions: map<SubmissionId, Submission>,
                               u: UserId)
    requires Consistent(users, students, counselors, submissions)
    ensures Consistent(users - {u}, StudentsWithoutUser(students, u), CounselorsWithoutUser(counselors, u),
                       SubmissionsWithoutUser(students, submissions, u))
  {
    assert UsersUnique(users - {u});
    assert StudentsUnique(StudentsWithoutUser(students, u));
    assert CounselorsUnique(CounselorsWithoutUser(counselors, u));
  }

  /** Removing rows keeps keys under the counter. */
  lemma SubmapKeysUnder<V>(m: map<nat, V>, r: map<nat, V>, n: nat)
    requires KeysUnder(m, n) && r.Keys <= m.Keys
    ensures KeysUnder(r, n)
  {
  }

  /** The keys below `n` of a table, in ascending order: a scan in primary-key order. */
  function KeysBelow<V>(m: map<nat, V>, n: nat): (r: seq<nat>)
    ensures forall k :: k in r <==> k in m && k < n
    ensures forall i, j :: 0 <= i < j < |r| ==> r[i] < r[j]
  {
    if n == 0 then []
    else
      var below := KeysBelow(m, n - 1);
      assert forall i :: 0 <= i < |below| ==> below[i] in below;
      below + (if n - 1 in m then [n - 1] else [])
  }

  /** A submission's timestamp; ids not in the table sort as time 0. */
  function Time(submissions: map<SubmissionId, Submission>, id: SubmissionId): int {
    if id in submissions then submissions[id].timestamp else 0
  }

  /** `order_by('-timestamp')`: no submission is listed before a newer one. */
  predicate NewestFirst(submissions: map<SubmissionId, Submission>, ids: seq<SubmissionId>) {
    forall i, j :: 0 <= i < j < |ids| ==> Time(submissions, ids[i]) >= Time(submissions, ids[j])
  }

  predicate Distinct(ids: seq<nat>) {
    forall i, j :: 0 <= i < j < |ids| ==> ids[i] != ids[j]
  }

  /** Places `id` in front of the first submission that is not newer. */
  function InsertNewest(submissions: map<SubmissionId, Submission>, id: SubmissionId, sorted: seq<SubmissionId>)
    : (r: seq<SubmissionId>)
    ensures |r| == |sorted| + 1
    ensures forall x :: x in r <==> x in sorted || x == id
    ensures NewestFirst(submissions, sorted) ==> NewestFirst(submissions, r)
    ensures Distinct(sorted) && id !in sorted ==> Distinct(r)
    decreases |sorted|
  {
    if sorted == [] || Time(submissions, id) >= Time(submissions, sorted[0]) then
      [id] + sorted
    else
      var rest := InsertNewest(submissions, id, sorted[1..]);
      InsertBehindHead(submissions, id, sorted, rest);
      [sorted[0]] + rest
  }

  /** Keeping the head in front of a list that holds the tail and `id` keeps order and distinctness. */
  lemma InsertBehindHead(submissions: map<SubmissionId, Submission>, id: SubmissionId,
                         sorted: seq<SubmissionId>, rest: seq<SubmissionId>)
    requires sorted != [] && Time(submissions, id) < Time(submissions, sorted[0])
    requires forall x :: x in rest <==> x in sorted[1..] || x == id
    requires NewestFirst(submissions, sorted[1..]) ==> NewestFirst(submissions, rest)
    requires Distinct(sorted[1..]) && id !in sorted[1..] ==> Distinct(rest)
    ensures NewestFirst(submissions, sorted) ==> NewestFirst(submissions, [sorted[0]] + rest)
    ensures Distinct(sorted) && id !in sorted ==> Distinct([sorted[0]] + rest)
  {
    var r := [sorted[0]] + rest;
    if NewestFirst(submissions, sorted) {
      assert NewestFirst(submissions, sorted[1..]);
      forall j | 0 < j < |r|
        ensures Time(submissions, r[0]) >= Time(submissions, r[j])
      {
        assert r[j] == rest[j - 1] && r[j] in rest;
        if r[j] != id {
          var k :| 0 <= k < |sorted[1..]| && sorted[1..][k] == r[j];
          assert sorted[k + 1] == r[j];
        }
      }
    }
    if Distinct(sorted) && id !in sorted {
      assert Distinct(sorted[1..]) && id !in sorted[1..];
      forall j | 0 < j < |r|
        ensures r[0] != r[j]
      {
        assert r[j] == rest[j - 1] && r[j] in rest;
        if r[j] != id {
          var k :| 0 <= k < |sorted[1..]| && sorted[1..][k] == r[j];
          assert sorted[k + 1] == r[j];
        }
      }
    }
  }

  /** The ORM's ordering of a query result, newest first. */
  function SortNewestFirst(submissions: map<SubmissionId, Submission>, ids: seq<SubmissionId>): (r: seq<SubmissionId>)
    ensures |r| == |ids|
    ensures forall x :: x in r <==> x in ids
    ensures NewestFirst(submissions, r)
    ensures Distinct(ids) ==> Distinct(r)
    decreases |ids|
  {
    if ids == [] then []
    else InsertNewest(submissions, ids[0], SortNewestFirst(submissions, ids[1..]))
  }

  /** `filter(student=p)` over a scan. */
  function OfStudent(submissions: map<SubmissionId, Submission>, ids: seq<SubmissionId>, p: ProfileId): (r: seq<SubmissionId>)
    ensures forall x :: x in r <==> x in ids && x in submissions && submissions[x].student == p
    ensures Distinct(ids) ==> Distinct(r)
    decreases |ids|
  {
    if ids == [] then []
    else
      var rest := OfStudent(submissions, ids[1..], p);
      assert forall x :: x in ids[1..] ==> x in ids;
      if ids[0] in submissions && submissions[ids[0]].student == p then [ids[0]] + rest else rest
  }

  /** `filter(approved=False)` over a scan. */
  function Unapproved(submissions: map<SubmissionId, Submission>, ids: seq<SubmissionId>): (r: seq<SubmissionId>)
    ensures forall x :: x in r <==> x in ids && x in submissions && !submissions[x].approved
    ensures Distinct(ids) ==> Distinct(r)
    decreases |ids|
  {
    if ids == [] then []
    else
      var rest := Unapproved(submissions, ids[1..]);
      assert forall x :: x in ids[1..] ==> x in ids;
      if ids[0] in submissions && !submissions[ids[0]].approved then [ids[0]] + rest else rest
  }

  /** Keys listed in ascending order are distinct. */
  lemma AscendingDistinct(ids: seq<nat>)
    requires forall i, j :: 0 <= i < j < |ids| ==> ids[i] < ids[j]
    ensures Distinct(ids)
  {
  }

  /** The in-memory database. */
  class Db {
    var users: map<UserId, User>
    var students: map<ProfileId, StudentProfile>
    var counselors: map<CounselorId, CounselorProfile>
    var submissions: map<SubmissionId, Submission>
    /** The next primary key of each table (auto-increment). */
    var nextUser: nat
    var nextStudent: nat
    var nextCounselor: nat
    var nextSubmission: nat

    /** The four auto-increment counters, in the order users, students, counselors, submissions. */
    function Counters(): (nat, nat, nat, nat)
      reads this
    {
      (nextUser, nextStudent, nextCounselor, nextSubmission)
    }

    /** The constraints the database enforces, and keys below the auto-increment counters. */
    ghost predicate Valid()
      reads this
    {
      && Consistent(users, students, counselors, submissions)
      && KeysUnder(users, nextUser) && KeysUnder(students, nextStudent)
      && KeysUnder(counselors, nextCounselor) && KeysUnder(submissions, nextSubmission)
    }

    constructor ()
      ensures Valid()
      ensures users == map[] && students == map[] && counselors == map[] && submissions == map[]
    {
      users, students, counselors, submissions := map[], map[], map[], map[];
      nextUser, nextStudent, nextCounselor, nextSubmission := 0, 0, 0, 0;
    }

    /**
     * `User.objects.create_user(username=...)`: an empty username is a ValueError,
     * a taken one an IntegrityError; otherwise a new user row.
     */
    method CreateUser(username: string) returns (id: Option<UserId>)
      requires Valid()
      modifies this`users, this`nextUser
      ensures Valid()
      ensures id.Some? <==> username != "" && UserFits(old(users), old(nextUser), User(username))
      ensures id.Some? ==> id.value == old(nextUser) && id.value !in old(users) && users == old(users)[id.value := User(username)]
      ensures id.None? ==> users == old(users)
      ensures nextUser == if id.Some? then old(nextUser) + 1 else old(nextUser)
      ensures students == old(students) && counselors == old(counselors) && submissions == old(submissions)
    {
      var key := nextUser;
      if username != "" && UserFits(users, key, User(username)) {
        UsersStayUnique(users, key, User(username));
        users := users[key := User(username)];
        nextUser := nextUser + 1;
        id := Some(key);
      } else {
        id := None;
      }
    }

    /** `user.save()` on a stored user: the row is replaced unless the username is taken. */
    method SaveUser(id: UserId, u: User) returns (ok: bool)
      requires Valid() && id in users
      modifies this`users
      ensures Valid()
      ensures ok <==> UserFits(old(users), id, u)
      ensures users == if ok then old(users)[id := u] else old(users)
      ensures students == old(students) && counselors == old(counselors) && submissions == old(submissions)
    {
      ok := UserFits(users, id, u);
      if ok {
        UsersStayUnique(users, id, u);
        users := users[id := u];
      }
    }

    /** `StudentProfile.objects.create(...)` for a row whose user, if any, is stored. */
    method CreateStudentProfile(p: StudentProfile) returns (id: Option<ProfileId>)
      requires Valid() && (p.user.Some? ==> p.user.value in users)
      modifies this`students, this`nextStudent
      ensures Valid()
      ensures id.Some? <==> StudentFits(old(students), old(nextStudent), p)
      ensures id.Some? ==> id.value == old(nextStudent) && id.value !in old(students) && students == old(students)[id.value := p]
      ensures id.None? ==> students == old(students)
      ensures nextStudent == if id.Some? then old(nextStudent) + 1 else old(nextStudent)
      ensures users == old(users) && counselors == old(counselors) && submissions == old(submissions)
    {
      var key := nextStudent;
      if StudentFits(students, key, p) {
        StudentsStayUnique(students, key, p);
        students := students[key := p];
        nextStudent := nextStudent + 1;
        id := Some(key);
      } else {
        id := None;
      }
    }

    /** `profile.save()` on a stored student profile. */
    method SaveStudentProfile(id: ProfileId, p: StudentProfile) returns (ok: bool)
      requires Valid() && id in students && (p.user.Some? ==> p.user.value in users)
      modifies this`students
      ensures Valid()
      ensures ok <==> StudentFits(old(students), id, p)
      ensures students == if ok then old(students)[id := p] else old(students)
      ensures users == old(users) && counselors == old(counselors) && submissions == old(submissions)
    {
      ok := StudentFits(students, id, p);
      if ok {
        StudentsStayUnique(students, id, p);
        students := students[id := p];
      }
    }

    /** `CounselorProfile.objects.create(...)` for a stored user. */
    method CreateCounselorProfile(c: CounselorProfile) returns (id: Option<CounselorId>)
      requires Valid() && c.user in users
      modifies this`counselors, this`nextCounselor
      ensures Valid()
      ensures id.Some? <==> CounselorFits(old(counselors), old(nextCounselor), c)
      ensures id.Some? ==> id.value == old(nextCounselor) && id.value !in old(counselors) && counselors == old(counselors)[id.value := c]
      ensures id.None? ==> counselors == old(counselors)
      ensures nextCounselor == if id.Some? then old(nextCounselor) + 1 else old(nextCounselor)
      ensures users == old(users) && students == old(students) && submissions == old(submissions)
    {
      var key := nextCounselor;
      if CounselorFits(counselors, key, c) {
        CounselorsStayUnique(counselors, key, c);
        counselors := counselors[key := c];
        nextCounselor := nextCounselor + 1;
        id := Some(key);
      } else {
        id := None;
      }
    }

    /** `counselor_profile.save()` on a stored counselor profile. */
    method SaveCounselorProfile(id: CounselorId, c: CounselorProfile) returns (ok: bool)
      requires Valid() && id in counselors && c.user in users
      modifies this`counselors
      ensures Valid()
      ensures ok <==> CounselorFits(old(counselors), id, c)
      ensures counselors == if ok then old(counselors)[id := c] else old(counselors)
      ensures users == old(users) && students == old(students) && submissions == old(submissions)
    {
      ok := CounselorFits(counselors, id, c);
      if ok {
        CounselorsStayUnique(counselors, id, c);
        counselors := counselors[id := c];
      }
    }

    /** Saving a new submission of a stored student. */
    method CreateSubmission(s: Submission) returns (id: SubmissionId)
      requires Valid() && s.student in students
      modifies this`submissions, this`nextSubmission
      ensures Valid()
      ensures id == old(nextSubmission) && id !in old(submissions) && submissions == old(submissions)[id := s]
      ensures nextSubmission == old(nextSubmission) + 1
      ensures users == old(users) && students == old(students) && counselors == old(counselors)
    {
      id := nextSubmission;
      submissions := submissions[id := s];
      nextSubmission := nextSubmission + 1;
    }

    /** `submission.save()` on a stored submission (no unique constraint applies). */
    method SaveSubmission(id: SubmissionId, s: Submission)
      requires Valid() && id in submissions && s.student in students
      modifies this`submissions
      ensures Valid()
      ensures submissions == old(submissions)[id := s]
      ensures users == old(users) && students == old(students) && counselors == old(counselors)
    {
      submissions := submissions[id := s];
    }

    /** `submission.delete()`. */
    method DeleteSubmission(id: SubmissionId)
      requires Valid()
      modifies this`submissions
      ensures Valid()
      ensures submissions == old(submissions) - {id}
      ensures users == old(users) && students == old(students) && counselors == old(counselors)
    {
      submissions := submissions - {id};
    }

    /** `profile.delete()`: the profile and, by CASCADE, its submissions. */
    method DeleteStudentProfile(id: ProfileId)
      requires Valid()
      modifies this`students, this`submissions
      ensures Valid()
      ensures students == old(students) - {id}
      ensures submissions == WithoutSubmissionsOf(old(submissions), id)
      ensures users == old(users) && counselors == old(counselors)
    {
      students := students - {id};
      submissions := WithoutSubmissionsOf(submissions, id);
    }

    /** `counselor_profile.delete()`. */
    method DeleteCounselorProfile(id: CounselorId)
      requires Valid()
      modifies this`counselors
      ensures Valid()
      ensures counselors == old(counselors) - {id}
      ensures users == old(users) && students == old(students) && submissions == old(submissions)
    {
      counselors := counselors - {id};
    }

    /** `user.delete()`: the user and, by CASCADE, its profiles and their submissions. */
    method DeleteUser(id: UserId)
      requires Valid()
      modifies this`users, this`students, this`counselors, this`submissions
      ensures Valid()
      ensures users == old(users) - {id}
      ensures students == StudentsWithoutUser(old(students), id)
      ensures counselors == CounselorsWithoutUser(old(counselors), id)
      ensures submissions == SubmissionsWithoutUser(old(students), old(submissions), id)
    {
      DeleteSubmissionsOfUser(id);
      DeleteStudentProfilesOfUser(id);
      DeleteCounselorProfilesOfUser(id);
      DeleteUserRow(id);
    }

    /** The last step: the user row, which no profile refers to any more. */
    method DeleteUserRow(id: UserId)
      requires Valid() && !HasStudentProfile(students, id) && !IsCounselor(counselors, id)
      modifies this`users
      ensures Valid()
      ensures users == old(users) - {id}
    {
      users := users - {id};
      SubmapKeysUnder(old(users), users, nextUser);
    }

    /** The first step of the cascade: the submissions of the user's student profiles. */
    method DeleteSubmissionsOfUser(id: UserId)
      requires Valid()
      modifies this`submissions
      ensures Valid()
      ensures submissions == SubmissionsWithoutUser(students, old(submissions), id)
      ensures forall s :: s in submissions ==> students[submissions[s].student].user != Some(id)
    {
      submissions := SubmissionsWithoutUser(students, submissions, id);
      SubmapKeysUnder(old(submissions), submissions, nextSubmission);
    }

    /** The second step: the user's student profiles, which no submission refers to any more. */
    method DeleteStudentProfilesOfUser(id: UserId)
      requires Valid()
      requires forall s :: s in submissions ==> students[submissions[s].student].user != Some(id)
      modifies this`students
      ensures Valid()
      ensures students == StudentsWithoutUser(old(students), id)
      ensures !HasStudentProfile(students, id)
    {
      students := StudentsWithoutUser(students, id);
      SubmapKeysUnder(old(students), students, nextStudent);
    }

    /** The third step: the user's counselor profiles. */
    method DeleteCounselorProfilesOfUser(id: UserId)
      requires Valid()
      modifies this`counselors
      ensures Valid()
      ensures counselors == CounselorsWithoutUser(old(counselors), id)
      ensures !IsCounselor(counselors, id)
    {
      counselors := CounselorsWithoutUser(counselors, id);
      SubmapKeysUnder(old(counselors), counselors, nextCounselor);
    }

    /** The profile `user.profile` refers to, if any. */
    method StudentProfileOf(u: UserId) returns (p: Option<ProfileId>)
      ensures p.Some? <==> HasStudentProfile(students, u)
      ensures p.Some? ==> p.value in students && students[p.value].user == Some(u)
    {
      if HasStudentProfile(students, u) {
        var k :| k in students && students[k].user == Some(u);
        p := Some(k);
      } else {
        p := None;
      }
    }

    /** The profile `user.counselor_profile` refers to, if any. */
    method CounselorProfileOf(u: UserId) returns (c: Option<CounselorId>)
      ensures c.Some? <==> IsCounselor(counselors, u)
      ensures c.Some? ==> c.value in counselors && counselors[c.value].user == u
    {
      if IsCounselor(counselors, u) {
        var k :| k in counselors && counselors[k].user == u;
        c := Some(k);
      } else {
        c := None;
      }
    }
  }
}
