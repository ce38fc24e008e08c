# GradPath core, modelled in Dafny

GradPath is a Django site where students upload supporting material for
graduate recommendation, counselors review it, and a superadmin manages
accounts. This project models the part of it that decides things:

- **Review and scoring** (`apps/counselors/views.py`).
  - Approving a submission stores the posted score text. It then adds the score's exact decimal value to one subtotal of the student. The subtotal is the academic expertise score or the comprehensive performance score, chosen by a fixed category list.
  - Rejecting a submission marks it rejected with a reason.
  - Setting the academic comprehensive score stores a parsed decimal.
  - Registering a counselor, the dashboard counts and the review list (unapproved submissions, newest first).
- **Forms and validation.**
  - Django's `CharField` (strip, required, `max_length`, NUL characters) and `ChoiceField`.
  - The student and counselor registration forms, the admin's user creation and user edit forms, and `RuleForm.clean_score`.
  - The student-id pattern, and the `__str__` texts of profiles and submissions.
- **The store and the views that change it.**
  - A class `Store.Db` holds the four tables (users, student profiles, counselor profiles, submissions) as maps from primary key to row. It enforces the unique constraints and CASCADE deletes the models declare. A write that would break a constraint reports failure, as IntegrityError does, and writes nothing.
  - The views are methods over a `Db`:
    - students register, upload, list and delete their submissions;
    - the superadmin's dashboard filters profiles and builds the sorted grade list;
    - the superadmin adds users, edits users (the username follows the student or employee id) and deletes them with everything that hangs on them.

Responses are reduced to what a view decides: a page (by template), a redirect
(by URL name), not found, the login redirect, or a server error where Python
raises. A view takes the acting user as `Option<UserId>` (None when anonymous)
or, for the superadmin views, whether the user passes `is_superadmin`.

Scores are `real`, so decimal arithmetic is exact. `Decimals.Parse` reads
Python's plain decimal notation. The lemmas `ApprovedAmountExact` and
`AcademicScoreExact` show that `whole.fraction`, surrounded by any white space,
is credited or stored exactly.

apps/students/models.py declares no submission `category`, `approved_score`,
`rejected` or `reject_reason` field, no student score fields, and
apps/counselors/models.py no counselor `grade`, although the views read and
write them. For these fields the record takes its shape from the view code:
- submission `category`, `approved_score`, `rejected` and `reject_reason`;
- the student score fields;
- the counselor `grade`.

A view does not always behave as its form promises; the model follows the code:
- `approve_submission` saves the approved submission before parsing the score. A score that is not a decimal therefore leaves the submission approved, with no credit and a server error.
- `email` is unique but defaults to `""`. Once one profile has no email, every later `register` or `add_user` of a student fails after the user was created (`Store.SecondBlankEmailRefused`, `StudentViews.RegisteredProfileFits`).
- `register` and `counselor_register` check the id only against profile ids, not usernames, so `create_user` can still fail.
- `edit_user` accepts an empty id and writes it as the username (`AdminViews.BlankIdEditRefused`).
- No modelled view runs the student-id validator of apps/students/models.py:21: `objects.create` and `save()` skip model validators. So `register` (apps/students/views.py:52-56) and `add_user` (apps/admins/views.py:221-227) store any student id of 1 to 20 characters, and `edit_user` any id of at most 20 characters, the empty one included.

## Model

| member | source | states |
|---|---|---|
| Text.Strip | apps/counselors/views.py:173 | `str.strip()`: the result is never longer, and neither starts nor ends with white space (Python's `isspace` set) |
| Text.StripIsMiddle | apps/counselors/views.py:173 | the stripped text is a contiguous slice of the input with only white space cut on either side |
| Text.StripIdempotent | apps/admins/views.py:122 | stripping a stripped text changes nothing |
| Text.StripBlank | apps/counselors/views.py:173-174 | the stripped text is empty exactly when the input is all white space |
| Text.StripSurrounded | apps/admins/views.py:122-124 | white space around a text with non-space ends is removed exactly |
| Text.ContainsWindow | apps/admins/views.py:133-137 | substring search holds exactly when some window of the haystack equals the needle |
| Text.IContainsWindow | apps/admins/views.py:133-137 | `__icontains` holds exactly when some window of the haystack folds to the folded needle |
| Text.LowerIdempotent | apps/admins/views.py:133-137 | case folding twice is folding once |
| Text.LessIrreflexive | apps/admins/views.py:159 | Python's string order is irreflexive |
| Text.LessTransitive | apps/admins/views.py:159 | and transitive |
| Text.LessTrichotomy | apps/admins/views.py:159 | and total: two different strings are ordered exactly one way |
| Text.NatToDigits | apps/students/models.py:43 | `str(id)` is a non-empty run of digits without a leading zero |
| Text.NatToDigitsRoundTrip | apps/students/models.py:43 | the digits of an id read back as that id |
| Text.DigitsValueAppend | apps/counselors/views.py:120 | the value of joined digit strings is the left value shifted by the right length plus the right value |
| Text.ZerosValue | apps/counselors/views.py:120 | leading zeros do not change a digit string's value |
| Decimals.Parse | apps/counselors/views.py:120 | `Decimal(text)` accepts only an optional sign followed by digits and points |
| Decimals.ParseParts | apps/counselors/views.py:120 | `[-]whole.fraction` parses to the coefficient of all its digits with `|fraction|` places |
| Decimals.ParseMeaning | apps/counselors/views.py:120 | `[-]whole.fraction` denotes exactly `±(whole + fraction / 10^|fraction|)` |
| Decimals.RenderRoundTrip | apps/counselors/views.py:120 | rendering a decimal and parsing the text gives back the same decimal, digit for digit |
| Decimals.FromTextIgnoresSpace | apps/counselors/views.py:176 | white space around decimal text does not change what `Decimal` reads |
| Models.NewStudentProfile | apps/students/models.py:11-26 | a created profile has the given user, id, name and college; blank grade and email; no academic comprehensive score; zero subtotals |
| Models.NewSubmission | apps/students/models.py:33-38 | a new submission belongs to the given student, has the posted description and the creation time, and is not approved, not rejected, with no score and no reason |
| Models.StudentIdFormat | apps/students/models.py:21 | without a newline, the pattern accepts exactly 10 to 20 decimal digits |
| Models.StrippedStudentIdFormat | apps/students/models.py:21 | on stripped form input the pattern accepts exactly 10 to 20 decimal digits |
| Models.TrailingNewlineAccepted | apps/students/models.py:21 | Python's `$` lets `"2023000001\n"` through although it is not all digits |
| Models.ProfileText | apps/students/models.py:28-29 | `__str__` is the full name if non-empty, else the student id if non-empty, else the user's text (`str(None)` without a user); empty only when all three are |
| Models.SubmissionText | apps/students/models.py:40-43 | `__str__` is "提交#", the id's decimal digits, " - " and the full name, or the username when the name is empty; missing (AttributeError) exactly when the student has no name and no user |
| Models.SubmissionTextDistinguishesIds | apps/students/models.py:40-43 | two submissions with the same text have the same id |
| Forms.CharField | apps/students/views.py:20-23 | a cleaned value is the stripped input; an empty one is an error only when required; a non-empty one keeps within `max_length` and has no NUL |
| Forms.ChoiceField | apps/admins/views.py:57-63 | a value cleans exactly when it is one of the choices, unstripped |
| Forms.Outcome | apps/admins/views.py:212 | a form is valid exactly when no field has an error, and then its data is the cleaned data |
| Forms.RegistrationStudentIdError | apps/students/views.py:25-29 | the student id is in error exactly when it does not clean or some profile already has it |
| Forms.RegistrationPasswordError | apps/students/views.py:31-38 | the password error is raised exactly when both passwords are non-empty and differ |
| Forms.StudentRegistrationForm | apps/students/views.py:19-38 | an accepted form yields the stripped posted student id and name; the id is 1 to 20 characters and unregistered, the name at most 100, and the two passwords agree |
| Forms.CounselorRegistrationEmployeeIdError | apps/counselors/views.py:21-25 | the employee id is in error exactly when it does not clean or a counselor already has it |
| Forms.CounselorRegistrationPasswordError | apps/counselors/views.py:27-30 | the password error is raised exactly when password2 does not clean or the cleaned passwords differ |
| Forms.CounselorRegistrationForm | apps/counselors/views.py:14-30 | an accepted form yields the stripped posted employee id, name and college; the employee id is unused and non-empty, name and college are non-empty, and the passwords match |
| Forms.UserCreationErrors | apps/admins/views.py:34-51 | a taken username, differing passwords, a student without a student id, and a counselor without an employee id or grade each flag their field |
| Forms.UserCreationForm | apps/admins/views.py:19-51 | an accepted form yields the posted user type as sent and every other field stripped; the type is valid, the username new and non-empty; a student has a student id; a counselor has an employee id and a grade |
| Forms.UserEditStudentIdError | apps/admins/views.py:77-88 | a cleaned student id is in error exactly when it is non-empty and another user has it as username or a profile of another user has it as student id |
| Forms.UserEditEmployeeIdError | apps/admins/views.py:90-101 | the same for the employee id against usernames and counselor profiles |
| Forms.UserEditForm | apps/admins/views.py:55-101 | an accepted form yields the posted college as sent and the stripped name, grade and ids; the college is a choice, name and grade are non-empty, and the ids clash with nobody else |
| Forms.KeepingOwnStudentIdPasses | apps/admins/views.py:77-88 | a student who keeps the student id that is their username passes the check |
| Forms.CleanScore | apps/counselors/forms.py:22-27 | a missing score passes unchanged; a present one passes, unchanged, exactly when above zero (zero and negatives are refused) |
| Scoring.GroupOf | apps/counselors/views.py:123-130 | a category feeds the academic subtotal exactly when in the academic list, the comprehensive one exactly when in that list, and none otherwise |
| Scoring.CategoriesDisjoint | apps/counselors/views.py:123-125 | no category is in both lists |
| Scoring.ApprovedAmount | apps/counselors/views.py:120 | a missing or empty score counts as zero; other text is credited as its decimal value, or fails when it is not a decimal |
| Scoring.ApprovedAmountExact | apps/counselors/views.py:120 | a posted `whole.fraction`, with white space around it, is credited exactly |
| Scoring.Approve | apps/counselors/views.py:114-116 | approval sets approved and the posted score text and leaves everything else, the rejection included |
| Scoring.Reject | apps/counselors/views.py:145-148 | rejection clears approved, sets rejected and the reason, and keeps the score text |
| Scoring.ApproveAfterReject | apps/counselors/views.py:113-116 | approving a rejected submission leaves it both approved and rejected, with its reason |
| Scoring.Credit | apps/counselors/views.py:127-130 | exactly the subtotal of the category's group grows by the amount; every other field is kept |
| Scoring.CreditAcademic | apps/counselors/views.py:127-128 | an academic category raises the academic expertise score and leaves the comprehensive one |
| Scoring.CreditComprehensive | apps/counselors/views.py:129-130 | a comprehensive category raises the comprehensive performance score and leaves the academic one |
| Scoring.CreditUngrouped | apps/counselors/views.py:127-130 | a category in neither list changes no subtotal |
| Scoring.CreditZero | apps/counselors/views.py:120 | a missing or empty score changes no subtotal |
| Scoring.CreditTwice | apps/counselors/views.py:113-130 | with no status guard, approving twice credits the amount twice |
| Scoring.CreditCommutes | apps/counselors/views.py:127-132 | approvals may be credited in either order |
| Scoring.CreditAllTotals | apps/counselors/views.py:127-132 | after any run of approvals each subtotal has grown by exactly the amounts approved in its group |
| Scoring.AcademicScoreInput | apps/counselors/views.py:173-177 | blank input sets nothing; otherwise a score is set exactly when the stripped text is a decimal, and it is that decimal's exact value |
| Scoring.AcademicScoreExact | apps/counselors/views.py:173-177 | a posted `whole.fraction` with white space around it is stored exactly |
| Store.UsersStayUnique | apps/admins/views.py:296-297 | writing a user that fits keeps usernames unique |
| Store.StudentsStayUnique | apps/students/models.py:13-26 | writing a profile that fits keeps student ids, emails and user links unique |
| Store.CounselorsStayUnique | apps/counselors/models.py:6-12 | writing a counselor that fits keeps employee ids and user links unique |
| Store.StudentIdsUnique | apps/students/models.py:21 | no two stored profiles share a student id |
| Store.OneProfilePerUser | apps/students/models.py:13-18 | a user has at most one student profile |
| Store.OneCounselorPerUser | apps/counselors/models.py:6-10 | a user has at most one counselor profile |
| Store.SameKeysFit | apps/counselors/views.py:132 | re-saving a profile with its id, email and user unchanged always fits |
| Store.NewUserHasNoProfile | apps/students/views.py:47-56 | a user not yet stored has no profile of either kind |
| Store.SecondBlankEmailRefused | apps/students/models.py:26 | once one profile has no email, another profile without one does not fit |
| Store.WithoutSubmissionsOf | apps/students/models.py:34 | deleting a profile deletes exactly its submissions |
| Store.StudentsWithoutUser | apps/students/models.py:13-18 | deleting a user deletes exactly its student profiles |
| Store.CounselorsWithoutUser | apps/counselors/models.py:6-10 | deleting a user deletes exactly its counselor profiles |
| Store.SubmissionsWithoutUser | apps/students/models.py:34 | deleting a user deletes exactly the submissions of its profiles |
| Store.CascadeKeepsConsistent | apps/admins/views.py:254 | the cascade of a user delete keeps every constraint and leaves no dangling reference |
| Store.KeysBelow | apps/students/views.py:182 | a table scan lists exactly the stored keys, in ascending order |
| Store.InsertNewest | apps/students/views.py:182 | inserting one id keeps a newest-first list newest-first and distinct |
| Store.InsertBehindHead | apps/students/views.py:182 | an id older than the head goes behind it without breaking newest-first order or distinctness |
| Store.SortNewestFirst | apps/students/views.py:182 | `order_by('-timestamp')` keeps exactly the given ids and orders them newest first |
| Store.OfStudent | apps/students/views.py:182 | `filter(student=p)` keeps exactly the student's submissions |
| Store.Unapproved | apps/counselors/views.py:86 | `filter(approved=False)` keeps exactly the unapproved submissions |
| Store.AscendingDistinct | apps/counselors/views.py:100 | keys in ascending order are distinct |
| Store.Db.constructor | apps/students/models.py:11-43 | the store starts empty |
| Store.Db.CreateUser | apps/students/views.py:47-50 | for a username already in NFKC form, `create_user` succeeds exactly on a non-empty, unused username, with the next user id; the counter advances exactly on success |
| Store.Db.SaveUser | apps/admins/views.py:296-297 | `user.save()` writes exactly when the username stays unique |
| Store.Db.CreateStudentProfile | apps/students/views.py:52-56 | `objects.create` adds the profile under the next id exactly when it fits the unique constraints; the counter advances exactly then |
| Store.Db.SaveStudentProfile | apps/counselors/views.py:132 | `student.save()` writes exactly when the profile fits |
| Store.Db.CreateCounselorProfile | apps/counselors/views.py:43-48 | `objects.create` adds the counselor under the next id exactly when it fits; the counter advances exactly then |
| Store.Db.SaveCounselorProfile | apps/admins/views.py:310-314 | `save()` writes the counselor exactly when it fits |
| Store.Db.CreateSubmission | apps/students/views.py:166-170 | a submission is added under the next id, and the counter advances |
| Store.Db.SaveSubmission | apps/counselors/views.py:116 | the submission row is replaced |
| Store.Db.DeleteSubmission | apps/students/views.py:196 | exactly that submission is removed |
| Store.Db.DeleteStudentProfile | apps/admins/views.py:250-251 | the profile and, by CASCADE, exactly its submissions are removed |
| Store.Db.DeleteCounselorProfile | apps/admins/views.py:252-253 | exactly that counselor profile is removed |
| Store.Db.DeleteUser | apps/admins/views.py:254 | the user and, by CASCADE, its profiles and their submissions are removed |
| Store.Db.DeleteSubmissionsOfUser | apps/students/models.py:34 | the cascade first removes exactly the submissions of the user's profiles, leaving none that refers to them |
| Store.Db.DeleteStudentProfilesOfUser | apps/students/models.py:13 | the cascade then removes exactly the user's student profiles |
| Store.Db.DeleteCounselorProfilesOfUser | apps/counselors/models.py:6 | the cascade then removes exactly the user's counselor profiles |
| Store.Db.DeleteUserRow | apps/admins/views.py:254 | the user row goes last, once no profile refers to it, and every constraint still holds |
| Store.Db.StudentProfileOf | apps/admins/views.py:264 | `hasattr(user, 'profile')` and the profile it finds |
| Store.Db.CounselorProfileOf | apps/admins/views.py:265 | `hasattr(user, 'counselor_profile')` and the profile it finds |
| CounselorViews.CounselorGate | apps/counselors/views.py:107-110 | only a logged-in user with a counselor profile gets past; anonymous users get the login redirect, others the student login |
| CounselorViews.CounselorRegister | apps/counselors/views.py:34-52 | GET or an invalid form changes nothing. For an employee id already in NFKC form, a valid form creates a user named by it and a counselor profile with blank grade, or fails with no change when that username is taken |
| CounselorViews.CreateCounselorAccount | apps/counselors/views.py:38-49 | the same, once the form is valid, for an employee id already in NFKC form |
| CounselorViews.NewCounselorFits | apps/counselors/views.py:43-48 | an unused employee id on a user without a counselor profile always fits |
| CounselorViews.CounselorDashboard | apps/counselors/views.py:81-91 | the pending count is the number of unapproved submissions, rejected ones included; the student count is the number of profiles |
| CounselorViews.ReviewSubmissions | apps/counselors/views.py:96-103 | the review list has every unapproved submission, each once, newest first |
| CounselorViews.ApproveSubmission | apps/counselors/views.py:108-133 | non-counselors, a missing submission and GET change nothing. POST approves the submission with the posted text, then credits the category's subtotal by the parsed amount; an unparsable score leaves the submission approved and the student unchanged |
| CounselorViews.RejectSubmission | apps/counselors/views.py:138-149 | POST marks the submission rejected with the posted reason; no score is ever taken back; nothing else changes |
| CounselorViews.SetAcademicScore | apps/counselors/views.py:165-186 | POST stores a non-blank decimal exactly as the academic comprehensive score, and blank or invalid text changes nothing; GET and non-counselors change nothing |
| AdminViews.Param | apps/admins/views.py:119-124 | a missing query parameter reads as "" |
| AdminViews.AdminDashboard | apps/admins/views.py:116-171 | the listed students and counselors are exactly those passing the college and grade filters and their own stripped search. The grade choices are ascending, without "", and are exactly the grades of students and counselors |
| AdminViews.ListStudents | apps/admins/views.py:127-138 | the narrowed student query is exactly the profiles passing every filter that is set |
| AdminViews.ListCounselors | apps/admins/views.py:141-152 | the narrowed counselor query is exactly the counselors passing every filter that is set |
| AdminViews.GradeChoices | apps/admins/views.py:156-159 | the choices are strictly ascending and are exactly the non-empty grades of students and counselors |
| AdminViews.StudentFoundById | apps/admins/views.py:133-137 | searching a student's own id in its cohort lists it |
| AdminViews.CounselorFoundById | apps/admins/views.py:147-151 | searching a counselor's own employee id in its cohort lists it |
| AdminViews.StudentSearchIgnoresCase | apps/admins/views.py:133-137 | a search and its lower-cased form list the same students |
| AdminViews.InsertGrade | apps/admins/views.py:158-159 | inserting a grade keeps the list strictly ascending and adds exactly that grade |
| AdminViews.SortedGrades | apps/admins/views.py:159 | `sorted(g for g in grades if g)` is strictly ascending and holds exactly the non-empty grades |
| AdminViews.AscendingUnique | apps/admins/views.py:159 | two strictly ascending lists with the same elements are equal, so the choices are the one sorted list |
| AdminViews.AddUser | apps/admins/views.py:208-242 | a non-superadmin, GET or an invalid form changes nothing. For a username already in NFKC form, a valid form always creates the user, then a student profile (type "student") or a counselor profile (otherwise), each only when it fits, else a server error with the user kept |
| AdminViews.CreateAccount | apps/admins/views.py:213-238 | the same, once the form is valid, for a username already in NFKC form |
| AdminViews.AddedStudentFits | apps/admins/views.py:221-227 | the added student profile fits exactly when no profile has its student id or a blank email |
| AdminViews.AddedCounselorFits | apps/admins/views.py:229-235 | the added counselor profile fits exactly when no counselor has its employee id |
| AdminViews.DeleteUser | apps/admins/views.py:246-256 | a missing user is not found; otherwise exactly the user, its profiles and its profile's submissions are gone, and nothing else |
| AdminViews.ProfileFirst | apps/admins/views.py:250-254 | deleting the student profile before the user leaves the same tables as the user's CASCADE alone |
| AdminViews.CounselorFirst | apps/admins/views.py:252-254 | likewise for the counselor profile |
| AdminViews.DeletedUserLeavesNoProfile | apps/admins/views.py:247-254 | after the delete the user has no profile, and every other profile stays |
| AdminViews.EditUser | apps/admins/views.py:260-326 | a missing user is not found; a user with neither profile, GET or an invalid form changes nothing. A student (tested first) or counselor gets the posted fields and a username equal to the new id, the user saved before the profile |
| AdminViews.EditedStudent | apps/admins/views.py:298-301 | the edited profile takes the posted name, student id, college and grade, and keeps its user, email and the three scores |
| AdminViews.EditedCounselor | apps/admins/views.py:310-313 | the edited counselor takes the posted name, employee id, college and grade, and keeps its user |
| AdminViews.SaveStudentEdit | apps/admins/views.py:293-303 | the username becomes the student id unless another user has it, then the profile is saved unless it clashes |
| AdminViews.SaveCounselorEdit | apps/admins/views.py:305-315 | the same with the employee id |
| AdminViews.AcceptedStudentEditSaves | apps/admins/views.py:77-88 | a non-empty student id accepted by the form never fails to save |
| AdminViews.AcceptedCounselorEditSaves | apps/admins/views.py:90-101 | a non-empty employee id accepted by the form never fails to save |
| AdminViews.BlankIdEditRefused | apps/admins/views.py:80-81 | an empty id passes the form but fails as a username once another user has the empty username |
| StudentViews.Register | apps/students/views.py:40-60 | GET or an invalid form changes nothing. For a student id already in NFKC form, a valid form creates a user named by it and a profile with that id, unless the username is taken (no change) or the profile does not fit (user kept) |
| StudentViews.CreateStudentAccount | apps/students/views.py:46-57 | the same, once the form is valid, for a student id already in NFKC form |
| StudentViews.RegisteredProfileFits | apps/students/views.py:52-56 | with the id unregistered, the new profile fits exactly when no profile has a blank email |
| StudentViews.LoginGuard | apps/students/views.py:63-76 | only a POST with a non-empty student id and password reaches `authenticate`, with exactly the posted text; any other POST is the missing-input error |
| StudentViews.LoginResponse | apps/students/views.py:70-84 | only an authenticated POST leads to the home page; every other answer is the login page |
| StudentViews.LoginKeepsSpaces | apps/students/views.py:66-76 | a student id posted with spaces around it reaches `authenticate` unstripped |
| StudentViews.ProfileOf | apps/students/views.py:160 | anonymous users get the login redirect; a user without a profile raises; otherwise the user's profile |
| StudentViews.Upload | apps/students/views.py:146-176 | a valid POST adds exactly one submission, of the current user's profile, with the stripped description and the given time; anything else changes nothing |
| StudentViews.UploadedDescription | apps/students/views.py:163-170 | a description with white space around it is saved without it |
| StudentViews.Submissions | apps/students/views.py:178-183 | the listing has exactly the current user's submissions, each once, newest first |
| StudentViews.DeleteSubmission | apps/students/views.py:185-201 | a missing submission is not found; a non-owner deletes nothing; an owner's GET deletes nothing; an owner's POST removes exactly that submission; scores are never touched |

## Left out

- Authentication, sessions, logging in and out, and password hashing are not modelled. `create_user`'s password, `authenticate` and `login` are framework calls. Which user is acting, and whether `authenticate` succeeded, are parameters.
- The admin and counselor login and logout views, `index`, `rules`, `profile` with `ProfileForm`, `view_all_students`, the rule pages and `reset_password` with `PasswordResetForm` are not modelled. They hold no logic beyond framework calls, or depend on the `Rule` model, which is not part of this model.
- Templates, context values and the `messages` framework are not modelled. A page is named by its template and a redirect by its URL name. The `next` parameter of the login redirects is not modelled.
- URL routing is not modelled; every view is modelled as if routed.
- File upload and storage (`Submission.file`) are not modelled.
- The student fields `major`, `enrollment_year` and `phone` are not modelled. No view modelled here reads or writes them.
- The weighted total score recomputed by `save()` is not modelled; that override is not part of this model.
- Upload: apps/students/models.py declares no `category` field on `Submission`, so its default is a parameter of `StudentViews.Upload`. The time `auto_now_add` gives is the `now` parameter.
- Store.Db.CreateUser: Django's `create_user` first applies `normalize_username` (Unicode NFKC), stores that form and checks uniqueness on it. The model stores and compares the username as given, so for a name not in NFKC form (fullwidth digits, say) it loses the normalized stored username, the uniqueness check on the normalized form, and the IntegrityError (a server error) when only the normalized form is taken.
- AddUser: `clean_username` checks the raw name, so when its NFKC form is already taken `create_user` fails with a server error; the model, lacking normalization, always creates the user after a valid form.
- CreateAccount: the same gap as AddUser; the branch where `create_user` fails is unreachable in the model only because names are not normalized.
- Register: the new user is named by the NFKC form of the student id, and a collision of that form gives a server error; the model names the user by the id as posted.
- CreateStudentAccount: the same gap as Register.
- CounselorRegister: the new user is named by the NFKC form of the employee id, and a collision of that form gives a server error; the model names the user by the id as posted.
- CreateCounselorAccount: the same gap as CounselorRegister.
- Decimals.Parse: does not accept exponents, `NaN`, `Infinity`, underscores or non-ASCII digits, which Python's `Decimal` also reads. Such text is treated as invalid.
- Scoring.ApprovedAmount: a score written with an exponent, `NaN`, `Infinity`, underscores or non-ASCII digits is treated as invalid, as in `Decimals.Parse`.
- Scoring.AcademicScoreInput: the same limitation as `Decimals.Parse`.
- Models.MatchesStudentIdPattern, Models.StudentIdFormat, Models.StrippedStudentIdFormat: `\d` is read as '0' to '9' only. Python's `re` without `re.ASCII` also matches every other Unicode decimal digit (such as U+0660 to U+0669), which the model refuses; the set depends on the Python version's Unicode tables.
- Text.IContains: folds ASCII letters only. SQLite's `LIKE` does the same, but other databases fold all of Unicode.
- Store.SortNewestFirst: submissions with equal timestamps are ordered by insertion into the list, whereas the database leaves their order unspecified. Only "newest first" is promised.
- `approved_score` is stored as the posted text, because its type is declared nowhere in apps/students/models.py.
- Concurrent requests are not modelled, and `ATOMIC_REQUESTS` is taken to be off, so a failure late in a view keeps the earlier writes.
