# Users app of the PG-management backend, modelled in Dafny

This project models the authentication core of the `users` app of a
paying-guest (PG) management backend. It covers four pieces.

- **Registration** (`RegisterView.post`). The registration serializer
  validates the request. Then one atomic unit creates the user, the profile
  its role calls for and one `USER_REGISTERED` activity-log row. An error
  inside the unit rolls the whole unit back.
- **Login** (`LoginView.post`) and its per-address throttle in the cache.
  A live lockout entry refuses the request before it is read. The login
  serializer checks that both fields are present. The identifier is
  resolved against username, email or phone number. Each failed
  authentication increments a counter that lives for 900 seconds. The fifth
  counted failure sets a lockout flag that lives for 1800 seconds. A
  success deletes both entries and writes one `USER_LOGIN` row.
- **The serializers**: the six registration fields, trimming, blank and
  NUL-character refusal, the choice and uniqueness checks, the
  password/confirmation comparison, and how `create` builds the user.
  A rejected field is reported with every check it failed, as the
  serializer runs all of a field's validators. Also the two required
  login fields.
- **The Aadhaar-number check** `validate_aadhaar_number`, including two
  details of Python's `re` module: `$` also matches before a final
  newline, and `\d` matches every Unicode decimal digit (the model uses
  the Unicode 15.0 table).

The store (users, profiles, activity logs) is an immutable value. Each
insert either yields the extended store or the integrity error the
database raises. The atomic block is "commit everything or return the old
store". The cache is a map from key to value and expiry. An entry is
visible while the clock is strictly before its expiry, as in Django's
in-process cache, which is what the settings select. That cache drops an
expired entry when it is read; the model leaves it in place, and an
expired entry reads exactly as a missing one
(`LoginThrottle.ExpiredReadsAsMissing`). Requests are handled
one at a time. The clock, the client address, the new user's key, the
authentication backend and the username/email/password validators are
parameters.

Modules, one per file:

- `Base` (`base.dfy`): `Option`, `Result`, and Python's `str.strip`.
- `CustomUsers` (`custom_users.dfy`): roles, the user row, uniqueness.
- `Store` (`store.dfy`): rows, constraints, inserts, the identifier lookup.
- `AuthSerializers` (`auth_serializers.dfy`): both serializers.
- `Registration` (`registration.dfy`): the registration view.
- `LoginThrottle` (`login_throttle.dfy`): the login view and its cache.
- `Aadhaar` (`aadhaar.dfy`): the Aadhaar check as written and a strict
  counterpart.

Three consequences of the code as written are proved rather than assumed.

- A valid MANAGER or STAFF registration is always rolled back and answered
  400 (`Registration.StaffRegistrationRollsBack`). `StaffProfile`'s
  `daily_rate` and `joining_date` are NOT NULL without a default
  (`apps/users/models/staff_profile.py:18-20`), and the view creates the
  profile with only `user`.
- The 403 "Account is disabled" answer exists, but Django's default
  backend never reaches it (`LoginThrottle.DisabledUnreachable` with
  `LoginThrottle.ModelBackendRefusesInactive`). The settings configure no
  other backend. The default backend refuses inactive accounts itself, so
  a correct password for an inactive account is counted as a failure. The
  model keeps the backend abstract, so the 403 path is modelled and
  characterised as well (`LoginThrottle.DisabledKeepsCounters`).
- Only one user can ever register without an email
  (`Registration.SecondEmailLessRegistrationFails`). The user manager
  stores a missing email as the empty string, not as NULL, and the email
  column is unique. The Findings table below records this.

## Model

| member | source | states |
|---|---|---|
| CustomUsers.ParseRole | apps/users/models/custom_user.py:11-16 | A role value is accepted exactly when it is one of the five stored values, and it reads back as the role whose stored value it is |
| CustomUsers.RoleValuesRoundTrip | apps/users/models/custom_user.py:11-19 | Every role is stored as one of exactly five values, each fits the 20-character column, and parsing a stored value gives the same role back |
| CustomUsers.UniqueUsersDistinctContacts | apps/users/models/custom_user.py:20-21 | In a table that meets the constraints, no two users share a phone number or a non-null email |
| CustomUsers.NullEmailsCoexist | apps/users/models/custom_user.py:21 | Any number of users may have a null email without violating uniqueness |
| Store.UserConflict | apps/users/models/custom_user.py:18-21 | A column is reported exactly when the new row clashes with a stored row on key, username, phone or non-null email |
| Store.InsertUser | apps/users/models/custom_user.py:18-21 | Inserting a user fails exactly when a unique column clashes, and otherwise appends the row and changes nothing else |
| Store.InsertProfile | apps/users/models/staff_profile.py:16-20 | Inserting a profile succeeds exactly when its user exists, its NOT NULL columns are filled and the user has no profile of that kind; on success only the profile is appended |
| Store.InsertLog | apps/users/models/activity_log.py:11 | Inserting an activity-log row succeeds exactly when its user exists, and then only appends the row |
| Store.InsertUserKeepsValid | apps/users/models/custom_user.py:18-21 | A successful user insert keeps every store constraint: uniqueness, profile and log foreign keys, one profile per kind |
| Store.InsertProfileKeepsValid | apps/users/models/staff_profile.py:16-20 | A successful profile insert keeps every store constraint |
| Store.InsertLogKeepsValid | apps/users/models/activity_log.py:11 | A successful log insert keeps every store constraint |
| Store.Resolve | apps/users/views/auth_views.py:104-112 | The lookup is "no user" exactly when no row answers to the identifier through username, email or phone; it is the one matching row when exactly one matches; it is the multiple-rows error exactly when two rows match |
| Store.CrossFieldCollision | apps/users/views/auth_views.py:106-110 | A store that satisfies every constraint can still make an identifier ambiguous, when one user's username is another's phone number |
| Store.AmbiguityNeedsTwoColumns | apps/users/models/custom_user.py:20-21 | In a valid store, two rows that match one identifier match it through different columns |
| Base.StripIsSlice | apps/users/serializers/auth_serializers.py:39-41 | The trimmed value is the slice of the input between its leading and trailing whitespace |
| Base.StripEmptyIffAllSpace | apps/users/serializers/auth_serializers.py:39-41 | A value trims to the empty string exactly when every character is whitespace, which is when a character field counts as blank |
| Base.StripIdempotent | apps/users/serializers/auth_serializers.py:39-41 | Trimming a trimmed value changes nothing |
| AuthSerializers.RegistrationKeys | apps/users/serializers/auth_serializers.py:14-17 | Registration declares exactly six distinct fields, read under the keys username, email, phone_number, password, confirm_password and role |
| AuthSerializers.SubmissionOf | apps/users/serializers/auth_serializers.py:14-17 | A field is submitted exactly when its key is in the request body, and its raw text is the body's value under that key |
| AuthSerializers.Declared | apps/users/serializers/auth_serializers.py:14-17 | Restricting a body to the declared keys keeps exactly those keys with their values |
| AuthSerializers.UndeclaredFieldsIgnored | apps/users/serializers/auth_serializers.py:14-17 | Keys the serializers do not declare change neither what is read nor the outcome of registration or login validation |
| AuthSerializers.CleanText | apps/users/serializers/auth_serializers.py:8-11 | A character field is accepted exactly when its trimmed value is non-empty, has no NUL and passes the field's own checks, or is empty where blanks are allowed; a value that trims to empty where blanks are not allowed is reported as blank alone; any other rejection reports a NUL code exactly when the trimmed value holds a NUL, together with every own check that failed; a rejection always carries a code; an accepted value is the trimmed text |
| AuthSerializers.CleanUsername | apps/users/serializers/auth_serializers.py:14-17 | The username is accepted exactly when it is present, non-blank, NUL-free, passes the username validator and no stored user has it; the value kept is the trimmed text; a rejection always carries a code |
| AuthSerializers.UsernameCodes | apps/users/serializers/auth_serializers.py:14-17 | A missing username is reported as required alone and a blank one as blank alone; otherwise a rejection carries a NUL code exactly when the value holds a NUL, an invalid code exactly when the username validator refuses it, and a uniqueness code exactly when a stored user has it, and nothing else |
| AuthSerializers.CleanEmail | apps/users/models/custom_user.py:21 | The optional email is accepted exactly when it is absent, blank, or a NUL-free valid email that no stored user has; the value kept is the trimmed text, or none when absent; a rejection always carries a code |
| AuthSerializers.EmailCodes | apps/users/models/custom_user.py:21 | A rejected email is never blank, and carries a NUL code exactly when it holds a NUL, an invalid code exactly when the email validator refuses it, and a uniqueness code exactly when a stored user has it, and nothing else |
| AuthSerializers.CleanPhone | apps/users/models/custom_user.py:20 | The phone number is accepted exactly when it is present, non-blank, NUL-free, at most 15 characters and not stored for another user; a rejection always carries a code |
| AuthSerializers.PhoneCodes | apps/users/models/custom_user.py:20 | A missing phone number is reported as required alone and a blank one as blank alone; otherwise a rejection carries a NUL code exactly when the value holds a NUL, a length code exactly when it exceeds 15 characters, and a uniqueness code exactly when a stored user has it, and nothing else |
| AuthSerializers.CleanSecret | apps/users/serializers/auth_serializers.py:8-11 | Password and confirmation are accepted exactly when present, non-blank and NUL-free, the password also passing the password validators; the value kept is the trimmed text; a rejection always carries a code |
| AuthSerializers.SecretCodes | apps/users/serializers/auth_serializers.py:8-11 | A missing password or confirmation is reported as required alone and a blank one as blank alone; otherwise a rejection carries a NUL code exactly when the value holds a NUL, and an invalid code exactly when it is the password and the password validators refuse it, and nothing else |
| AuthSerializers.CleanRole | apps/users/models/custom_user.py:19 | The optional role is accepted exactly when it is absent or exactly one of the five stored values, and kept as given; a rejection reports the invalid-choice code alone |
| AuthSerializers.FieldErrors | apps/users/serializers/auth_serializers.py:6-17 | The field-level error report is empty exactly when every declared field is acceptable; it names a field exactly when that field's checks report some failure, and under that field carries every code its checks report |
| AuthSerializers.FieldErrorsPerField | apps/users/serializers/auth_serializers.py:6-17 | For each of username, email, phone_number, password, confirm_password and role: the report has the field's key exactly when the field's own cleaning fails, and under it carries the whole set of codes that cleaning reports |
| AuthSerializers.UsernameReportsEveryFailure | apps/users/serializers/auth_serializers.py:14-17 | A username that both holds a NUL and fails the username validator is reported under `username` with both codes, not only the first |
| AuthSerializers.ValidateFields | apps/users/serializers/auth_serializers.py:6-17 | Field validation succeeds exactly when every declared field is acceptable, and then yields attributes keyed by exactly the submitted fields, with every required field, a real role choice and the submitted values; otherwise it yields the field-level error report, which names some field |
| AuthSerializers.ValidatePasswords | apps/users/serializers/auth_serializers.py:20-26 | Differing password and confirmation are reported as a mismatch under `password` and nothing else; equal ones return the attributes unchanged |
| AuthSerializers.CleanAttributes | apps/users/serializers/auth_serializers.py:14-17 | The validated attributes hold exactly the required fields plus whichever optional fields were submitted, each the trimmed submitted text, and the role as given |
| AuthSerializers.RegistrationValidation | apps/users/views/auth_views.py:19-22 | `is_valid` on a request body is the field and password validation of the declared keys it carries: a body missing username, phone_number, password or confirm_password is rejected, and accepted data holds only submitted fields, every required one, and matching passwords |
| AuthSerializers.ValidateSubmission | apps/users/serializers/auth_serializers.py:6-26 | Registration data validates exactly when every field is acceptable and the trimmed passwords agree; the result then holds every required field, a real role choice and the submitted values; a field-valid request with differing passwords is reported as exactly a mismatch under `password`; any other rejection is exactly the field-level error report; a rejection always reports some field |
| AuthSerializers.ModelFields | apps/users/serializers/auth_serializers.py:29-31 | `create` keeps every validated field except the confirmation, with its value unchanged |
| AuthSerializers.Create | apps/users/serializers/auth_serializers.py:29-37 | The new user is active and carries the validated username, phone and password, and the submitted role, or TENANT when none was given. Its email is never null: it is the submitted email, or the empty string when none was submitted, as the user manager normalises it |
| AuthSerializers.CreateIntended | apps/users/models/custom_user.py:21 | The intended user row leaves the nullable email null exactly when no email, or a blank one, was submitted, and otherwise equals the row `create` builds |
| AuthSerializers.EmailLessUsersClash | apps/users/serializers/auth_serializers.py:34 | Two users created from registrations without an email clash on the unique email column, whatever else they carry |
| AuthSerializers.IntendedEmailLessCoexist | apps/users/models/custom_user.py:20-21 | Under the intended creation, two email-less registrations with different keys, usernames and phone numbers fit together in the table |
| AuthSerializers.CreateIgnoresConfirmation | apps/users/serializers/auth_serializers.py:29-34 | Validated data that differs only in the confirmation builds the same user |
| AuthSerializers.ValidatedRoleKept | apps/users/models/custom_user.py:19 | A registration that validates keeps exactly the role it names, and a registration that names none gets TENANT |
| AuthSerializers.LoginText | apps/users/serializers/auth_serializers.py:39-41 | A login field is accepted exactly when its key is present and its trimmed value is non-empty and NUL-free, and the trimmed value is kept; a missing key is reported as required, a whitespace-only value exactly as blank, and a value holding a NUL exactly as a NUL character |
| AuthSerializers.ValidateLogin | apps/users/serializers/auth_serializers.py:39-41 | Login input is valid exactly when both username and password are present, non-blank and NUL-free; a missing one is always an error; a rejection names username exactly when the username fails, and password exactly when the password fails, each with its own codes, and no other field |
| Registration.ProfileFor | apps/users/views/auth_views.py:32-45 | TENANT gets a tenant profile, MANAGER and STAFF a staff profile, SUPERADMIN an owner profile, PARENT none, each for the new user |
| Registration.RegistrationLog | apps/users/views/auth_views.py:49-54 | The registration log row belongs to the new user, records `USER_REGISTERED` and the client address |
| Registration.Atomic | apps/users/views/auth_views.py:25-54 | When the atomic unit completes, the store has gained exactly the user built by `create`, its role's profile and one registration log row |
| Registration.AtomicCompletes | apps/users/views/auth_views.py:25-54 | In a store that meets its constraints, the atomic unit completes exactly when the new user clashes with no stored user on key, username, phone or email, and its role is neither MANAGER nor STAFF |
| Registration.Commit | apps/users/views/auth_views.py:22-73 | Once the serializer has run: the answer is 201 or 400; every 400 leaves the store unchanged; invalid input is answered with the serializer's errors; for valid input the answer is 201 exactly when the atomic unit completes, and otherwise a rollback answered with the database error the atomic unit raised; a 201 commits exactly the user built from the validated data, its profile and one log row |
| Registration.Register | apps/users/views/auth_views.py:15-73 | The answer is 201 or 400; every 400 leaves the store unchanged; invalid input is answered with the serializer's errors; a valid request is answered 201 exactly when the atomic unit completes, and otherwise is rolled back and answered with the database error the atomic unit raised; a 201 commits exactly the new user, its profile and one log row |
| Registration.CommitKeepsValid | apps/users/views/auth_views.py:25-69 | Committing or rolling back never breaks a store constraint |
| Registration.RegisterKeepsValid | apps/users/views/auth_views.py:25-69 | A registration, committed or rolled back, never breaks a store constraint |
| Registration.AcceptedUserFits | apps/users/serializers/auth_serializers.py:6-26 | A submission the serializer accepts validates, and its user clashes with no stored user whose key differs; when the submission leaves its email empty, stored users with an empty email are also excluded |
| Registration.SubmissionCommits | apps/users/views/auth_views.py:22-65 | In a valid store, an acceptable submission with matching passwords and a role other than MANAGER or STAFF commits (201) whenever the key is unused and, if the submission leaves its email empty, no stored user has an empty email |
| Registration.RegistrationCommits | apps/users/views/auth_views.py:22-65 | In a valid store, a valid request that does not name MANAGER or STAFF is answered 201 whenever the key is unused and, if the request has no email or a blank one, no stored user has an empty email |
| Registration.StaffCommitRollsBack | apps/users/views/auth_views.py:37-40 | Validated data naming MANAGER or STAFF is always rolled back and nothing is written, because the staff profile is created without its NOT NULL columns; when the user row itself fits, the answer carries the NOT NULL error on `daily_rate` |
| Registration.StaffRegistrationRollsBack | apps/users/views/auth_views.py:37-40 | Every valid MANAGER or STAFF registration is answered 400 and writes nothing, because the staff profile is created without its NOT NULL columns |
| Registration.EmailLessAfterEmailLessFails | apps/users/serializers/auth_serializers.py:34 | Once a user with an empty email is stored, a registration without an email is rolled back with a unique-constraint error and writes nothing |
| Registration.SecondEmailLessRegistrationFails | apps/users/views/auth_views.py:25-69 | After one committed registration without an email, every later registration without an email is answered 400 and writes nothing |
| Registration.OneProfilePerRole | apps/users/views/auth_views.py:32-54 | A committed registration adds one user, one `USER_REGISTERED` row, and one profile unless the answered role is PARENT |
| LoginThrottle.SetThenGet | apps/users/views/auth_views.py:122-125 | A value set with a timeout is read back exactly until the timeout has run out, and the write changes what no other key reads |
| LoginThrottle.DeleteThenGet | apps/users/views/auth_views.py:144-145 | A deleted key reads as missing at every instant, and the delete changes what no other key reads |
| LoginThrottle.ThrottleReadsAfterWrite | apps/users/views/auth_views.py:90-125 | A stored count reads back as that count inside its window and as the default 0 after it; a stored `True` lockout is truthy exactly while it lives; a deleted key reads as 0 and as false; a zero count or `False` is never truthy |
| LoginThrottle.ExpiredReadsAsMissing | apps/users/views/auth_views.py:90-121 | An expired entry reads exactly as a missing key: no value, a count of 0 and no lockout |
| LoginThrottle.ModelBackendRefusesInactive | apps/users/views/auth_views.py:117 | The default backend never accepts an inactive account |
| LoginThrottle.LoginLog | apps/users/views/auth_views.py:155-161 | The login log row belongs to the user, records `USER_LOGIN` and the client address |
| LoginThrottle.Failure | apps/users/views/auth_views.py:119-134 | A failed authentication stores the previous visible count plus one, with a fresh 900-second window; it answers 429 and sets an 1800-second lockout exactly when the new count reaches 5, and otherwise answers 401 with the lockout entry untouched; no other key and no row changes |
| LoginThrottle.Attempt | apps/users/views/auth_views.py:103-173 | After the serializer: an ambiguous identifier is a 500 with nothing changed; no matching row or a refused password is a counted failure; an accepted inactive account is 403 with nothing changed; an accepted active account is 200, deletes both throttle entries and appends one login log row |
| LoginThrottle.Guarded | apps/users/views/auth_views.py:90-98 | A live lockout answers 429 and changes nothing; otherwise invalid input answers 400 and changes nothing, and valid input proceeds to resolution and authentication |
| LoginThrottle.Login | apps/users/views/auth_views.py:83-173 | A live lockout answers 429 whatever the body and changes nothing; otherwise the body is validated, then the identifier resolved and the credentials authenticated |
| LoginThrottle.LoginFrame | apps/users/views/auth_views.py:86-173 | A login touches only its own address's two entries; it changes the cache only for a counted failure or a success, and the store only on success, by one log row |
| LoginThrottle.FailingLogin | apps/users/views/auth_views.py:116-122 | A request whose credentials fail, from an address that is not locked out, is exactly a counted failure |
| LoginThrottle.KeysDistinct | apps/users/views/auth_views.py:86-88 | A counter key never equals a lockout key, and two addresses share a key exactly when they render alike |
| LoginThrottle.MissingAddressSharesBucket | apps/users/views/auth_views.py:86-88 | A request without a client address shares its throttle entries with the address text `None` |
| LoginThrottle.FullCountMeansLocked | apps/users/views/auth_views.py:90-125 | Under the throttle invariant, a visible count of 5 means the address is locked, so the request is answered 429 without being evaluated |
| LoginThrottle.GuardedKeepsThrottleInv | apps/users/views/auth_views.py:119-145 | Every request past the serializer, from any address, keeps every address's throttle invariant |
| LoginThrottle.LoginKeepsThrottleInv | apps/users/views/auth_views.py:119-145 | Every login, from any address, keeps every address's invariant: the count lies between 1 and 5, the lockout entry holds `True`, and a count of 5 is covered by a lockout that outlives it |
| LoginThrottle.DisabledKeepsCounters | apps/users/views/auth_views.py:136-141 | The 403 answer is given exactly when the one matching row is accepted by the backend but inactive, and it changes neither the counters nor the store |
| LoginThrottle.DisabledUnreachable | apps/users/views/auth_views.py:116-141 | With a backend that refuses inactive accounts, as the default one does, the 403 answer is never given |
| LoginThrottle.MalformedLoginRejected | apps/users/views/auth_views.py:96-98 | A body without a username or a password, from an unlocked address, is answered 400 with errors on login fields only, and neither cache nor store changes |
| LoginThrottle.ExpiredCountRestarts | apps/users/views/auth_views.py:121-122 | A failure after the count has expired stores a count of 1 with a window starting now, and answers 401 |
| LoginThrottle.AmbiguousLoginNotCounted | apps/users/views/auth_views.py:105-112 | An identifier that matches several rows gives a server error before the password is checked, and is not counted |
| LoginThrottle.ReplayIsValidated | apps/users/views/auth_views.py:96-98 | Replaying a run of request bodies, each its own, is the same as replaying their serializer results in order |
| LoginThrottle.ReplayStaysLocked | apps/users/views/auth_views.py:90-94 | While the lockout entry lives, every request is answered 429 whatever its body |
| LoginThrottle.FailureStep | apps/users/views/auth_views.py:119-134 | Within a run of failures with no live lockout: below the limit a failure answers 401, revives no lockout and leaves a count the next request in the window sees one higher; at the limit it answers 429 and sets an 1800-second lockout |
| LoginThrottle.FailuresLockOut | apps/users/views/auth_views.py:119-134 | Starting from n counted failures and no live lockout (an expired one may linger), requests that each arrive no earlier than, and within the window of, the previous one, and whose credentials fail while the count is below 5, are answered 401 until the count reaches 5, then 429 with a new lockout, then 429 for every request within 1800 seconds of it, whatever those later requests carry |
| LoginThrottle.FiveFailuresLock | apps/users/views/auth_views.py:119-134 | From an address with no live count and no live lockout, including one locked out before whose entries have expired, five requests in a row within the window whose credentials fail, each with a body of its own, are answered 401, 401, 401, 401, 429, and every later request within 30 minutes is 429 whatever it carries, a correct password included, so a sixth attempt is never evaluated |
| LoginThrottle.SuccessResetsCount | apps/users/views/auth_views.py:143-145 | After a successful login both throttle entries are gone, so the next failure counts from one |
| Aadhaar.ValidateAadhaar | apps/users/utils.py:11-18 | The check as written returns true exactly for a digit 2-9, then eleven Unicode decimal digits, then the end of the string or a final newline; it is total and never fails |
| Aadhaar.ValidateAadhaarStrict | apps/users/utils.py:11-18 | The strict check returns true exactly for twelve ASCII digits starting 2-9; an accepted string is the twelve-digit rendering of a number from 200000000000 to 999999999999 |
| Aadhaar.AsciiDigits | apps/users/utils.py:15 | The ASCII digits are Unicode decimal digits, and the only ones below code point 128 |
| Aadhaar.AcceptsEveryAadhaarNumber | apps/users/utils.py:15-16 | The check as written accepts every real Aadhaar number |
| Aadhaar.AcceptedShape | apps/users/utils.py:13-16 | Whatever the check accepts starts with 2-9 (never 0 or 1), has no hyphen or space among its twelve digits, and is twelve characters long or thirteen with a final newline |
| Aadhaar.AsciiInputAgrees | apps/users/utils.py:15-16 | On ASCII text without a newline, the check as written and the strict check agree in both directions |
| Aadhaar.NewlineSuffixAccepted | apps/users/utils.py:15-16 | The check as written accepts `234567890123` followed by a newline, which is not an Aadhaar number |
| Aadhaar.NonAsciiDigitsAccepted | apps/users/utils.py:15-16 | The check as written accepts a 2 followed by eleven Devanagari digits, which is not an Aadhaar number |
| Aadhaar.AadhaarParses | apps/users/utils.py:13-15 | Every Aadhaar number denotes a number from 200000000000 to 999999999999 and is that number's twelve-digit rendering |
| Aadhaar.RenderedAadhaar | apps/users/utils.py:13-15 | Every number in that range renders to an Aadhaar number that denotes it |

## Left out

- JWT access and refresh tokens, the `last_login` update and the login response's token fields: opaque library output with nothing to prove. A successful login is modelled by its status, the user fields, the cache deletions and the log row.
- Password hashing, `validate_password`, and the username and email validators: library code. They are parameters (`PasswordCheck`, `Checks`).
- The authentication backend: the view calls it with the resolved row's username, which is unique. It is a parameter that accepts or refuses that row. `ModelBackend` is Django's default.
- AuthSerializers.Create: does not lower-case the domain part of a submitted email, as the user manager's `normalize_email` does; only its mapping of a missing email to the empty string is modelled. Lower-casing is library text handling, and the email is otherwise stored as validated.
- AuthSerializers.Create: does not apply the user manager's NFKC normalisation of the username. The uniqueness check compares the raw trimmed text, so two usernames that differ only before NFKC both pass validation, and the second would then fail at the database with a 400; the model stores the trimmed text and does not see that clash. Unicode normalisation tables are out of scope.
- Request bodies are modelled as text values only (`Payload` maps keys to strings), so non-text JSON values are not represented. A JSON number would be accepted by a character field through its text form. `true` and `false` would be refused as not a valid string. `null` on `email` would be accepted, because that field allows null; the user manager would then store the empty string, exactly as for a missing email. `null` on any other field would be refused.
- AuthSerializers.FieldErrors: a field's failures are a set of codes, so the order in which the serializer lists a field's messages, and their wording, are not modelled. `Invalid` stands for whatever the username, email or password validators report, which may be several messages (`validate_password` lists every configured validator that fails); those validators are parameters.
- AuthSerializers.FieldErrorsPerField: the same abstraction as `FieldErrors`: codes form a set, and one `Invalid` code stands for the messages of the validators that are parameters.
- Aadhaar.ValidateAadhaar: the digits `\d` matches are those of Unicode 15.0 (`Aadhaar.IsUnicodeDigit`). Python takes the table from its own `unicodedata` version, which the repository does not pin; a later version that adds decimal digits would accept strings the model refuses.
- The whitespace that trimming removes is likewise the Unicode 15.0 set that `str.isspace` uses (`Base.IsSpace`); the interpreter's Unicode version is not pinned.
- A JSON string holding a lone surrogate code point cannot be represented, because a Dafny string holds Unicode scalar values only. The character fields refuse such text with their surrogate-character validator.
- The serializer's output rendering: no view uses it. The 201 body is built by the view from the new user's key, username and role, which is what `Registration.Created` carries.
- Case-insensitive comparison by the database collation: storage configuration. Lookups and unique checks compare strings exactly.
- Primary keys are UUIDs drawn at random: the new user's key is a parameter.
- The activity log's timestamp, severity and entity columns, and every profile column other than those that decide whether an insert succeeds: not read by the views.
- The client address comes from the request metadata: it is a parameter. A missing address is rendered as the text `None`, as the f-string does.
- Concurrent requests, including the race between reading and writing the attempt counter: requests are modelled one at a time.
- Cache culling when the in-process cache exceeds its size, and fractional seconds: the clock is a whole number of seconds, and no entry is evicted early.
- Fernet encryption and the police-verification PDF in `apps/users/utils.py`: cryptography and file output, outside the authentication core.
- The duplicate `CustomUser` in `apps/users/models/user.py`: the views use the one in `custom_user.py`.
- Admin, settings and URL configuration: no behaviour. `apps/users/urls.py` names an upload view that is not part of this model.
- Booking, meal-billing, invoice, notice and refund rules: the repository describes them, but no source file implements them.

## Findings

| source | as written | input that shows it | evidently intended | confidence | as-written member | corrected member |
|---|---|---|---|---|---|---|
| apps/users/utils.py:15-16 | `re.match` with `$` also matches just before a newline that ends the string | `"234567890123\n"` is accepted | exactly twelve characters, nothing after them | not executed | Aadhaar.ValidateAadhaar, Aadhaar.NewlineSuffixAccepted | Aadhaar.ValidateAadhaarStrict |
| apps/users/serializers/auth_serializers.py:34 | `create_user` is called without an email when none is submitted, and the user manager normalises the missing email to `""`, which the unique email column then holds | two registrations with no `email` key and different usernames, phone numbers and keys: the second is refused with a unique-constraint error and answered 400 | an email-less user stored with a NULL email, which the nullable column (`null=True`) lets any number of users share | not executed | AuthSerializers.Create, AuthSerializers.EmailLessUsersClash, Registration.SecondEmailLessRegistrationFails | AuthSerializers.CreateIntended, AuthSerializers.IntendedEmailLessCoexist |
| apps/users/utils.py:15-16 | `\d` in a `str` pattern matches any Unicode decimal digit | `"2०१२३४५६७८९०"` (a 2 and eleven Devanagari digits) is accepted | eleven ASCII digits `0`-`9` | not executed | Aadhaar.ValidateAadhaar, Aadhaar.NonAsciiDigitsAccepted | Aadhaar.ValidateAadhaarStrict |
