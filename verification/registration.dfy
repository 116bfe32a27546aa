/** The registration endpoint: validate the request, then, in one atomic
    unit, create the user, the profile its role calls for and one
    activity-log entry. Any integrity error inside the unit rolls the
    whole unit back. */
module Registration {
  import opened Base
  import opened CustomUsers
  import opened Store
  import opened AuthSerializers

  /** What the endpoint answers. */
  datatype RegisterResponse =
    | Created(id: UserId, username: string, role: string)  // the new user
    | Rejected(errors: Errors)                            // the serializer's errors
    | Failed(error: DbError)                              // an error raised inside the atomic unit

  function Status(r: RegisterResponse): int {
    match r
    case Created(_, _, _) => 201
    case Rejected(_) => 400
    case Failed(_) => 400
  }

  /** The action recorded for a registration. */
  const RegisteredAction: string := "USER_REGISTERED"

  /** The profile row created for a new user: a tenant gets a tenant
      profile, a manager or staff member an (empty) staff profile, a super
      admin an owner profile, and a parent none. */
  function ProfileFor(role: Role, id: UserId): (p: Option<Profile>)
    ensures p.None? <==> role == Parent
    ensures p.Some? ==> p.value.user == id
    ensures p.Some? && p.value.TenantProfile? <==> role == Tenant
    ensures p.Some? && p.value.StaffProfile? <==> role == Manager || role == Staff
    ensures p.Some? && p.value.OwnerProfile? <==> role == SuperAdmin
  {
    match role
    case Tenant => Some(TenantProfile(id))
    case Manager => Some(StaffProfile(id, "", None, None))
    case Staff => Some(StaffProfile(id, "", None, None))
    case SuperAdmin => Some(OwnerProfile(id, ""))
    case Parent => None
  }

  /** The profile rows a registration adds, as a sequence of zero or one. */
  function ProfileRows(role: Role, id: UserId): seq<Profile> {
    match ProfileFor(role, id)
    case Some(p) => [p]
    case None => []
  }

  /** The audit entry written for a registration. */
  function RegistrationLog(u: User, ip: Option<string>): (l: ActivityLog)
    ensures l.user == u.id && l.action == RegisteredAction && l.ip == ip
  {
    ActivityLog(u.id, RegisteredAction, "User " + u.username + " registered with role " + RoleValue(u.role), ip)
  }

  /** The profile insert of the atomic unit, skipped for a parent. */
  function InsertProfileFor(db: Db, u: User): (r: Result<Db, DbError>)
    ensures ProfileFor(u.role, u.id).None? ==> r == Ok(db)
    ensures ProfileFor(u.role, u.id).Some? ==> r == InsertProfile(db, ProfileFor(u.role, u.id).value)
  {
    match ProfileFor(u.role, u.id)
    case None => Ok(db)
    case Some(p) => InsertProfile(db, p)
  }

  /** The body of the atomic unit: on success the store has gained exactly
      the new user, its role's profile and one registration log entry. */
  function Atomic(db: Db, attrs: Attrs, id: UserId, ip: Option<string>): (r: Result<(Db, User), DbError>)
    requires RegistrationShape(attrs)
    ensures r.Ok? ==>
      var (db', u) := r.value;
      && u == Create(attrs, id)
      && db'.users == db.users + [u]
      && db'.profiles == db.profiles + ProfileRows(u.role, u.id)
      && db'.logs == db.logs + [RegistrationLog(u, ip)]
  {
    var u := Create(attrs, id);
    var db1 :- InsertUser(db, u);
    var db2 :- InsertProfileFor(db1, u);
    var db3 :- InsertLog(db2, RegistrationLog(u, ip));
    Ok((db3, u))
  }

  /** In a store that meets its constraints, the atomic unit completes
      exactly when the new user clashes with no stored user and its role
      does not call for a staff profile, whose NOT NULL columns the view
      leaves empty. */
  lemma AtomicCompletes(db: Db, attrs: Attrs, id: UserId, ip: Option<string>)
    requires Valid(db) && RegistrationShape(attrs)
    ensures Atomic(db, attrs, id, ip).Ok? <==>
      && (forall i :: 0 <= i < |db.users| ==> !Clash(db.users[i], Create(attrs, id)))
      && Create(attrs, id).role != Manager && Create(attrs, id).role != Staff
  {
    var u := Create(attrs, id);
    if forall i :: 0 <= i < |db.users| ==> !Clash(db.users[i], u) {
      var db1 := InsertUser(db, u).value;
      assert HasUser(db1.users, id) by {
        assert db1.users[|db.users|] == u;
      }
      forall i | 0 <= i < |db1.profiles|
        ensures db1.profiles[i].user != id
      {
        assert HasUser(db.users, db.profiles[i].user);
      }
      if u.role == Manager || u.role == Staff {
        assert InsertProfileFor(db1, u) == Err(NotNullViolation("daily_rate"));
      } else {
        assert HasUser(InsertProfileFor(db1, u).value.users, id);
      }
    }
  }

  /** The view once the serializer has run, `v` being its result. Invalid
      input is answered before anything is written; an error inside the
      atomic unit leaves the store exactly as it was; success commits the
      user, its profile and one log entry together. */
  function Commit(db: Db, v: Result<Attrs, Errors>, ip: Option<string>, id: UserId): (out: (RegisterResponse, Db))
    requires v.Ok? ==> RegistrationShape(v.value)
    ensures Status(out.0) == 201 || Status(out.0) == 400
    ensures Status(out.0) == 400 ==> out.1 == db
    ensures v.Err? ==> out.0 == Rejected(v.error)
    ensures out.0.Failed? ==> v.Ok? && Atomic(db, v.value, id, ip).Err?
    ensures v.Ok? && Atomic(db, v.value, id, ip).Err? ==> out.0 == Failed(Atomic(db, v.value, id, ip).error)
    ensures v.Ok? ==> (out.0.Created? <==> Atomic(db, v.value, id, ip).Ok?)
    ensures out.0.Created? ==>
      && v.Ok?
      && var u := Create(v.value, id);
         && out.0 == Created(id, u.username, RoleValue(u.role))
         && out.1 == Db(db.users + [u], db.profiles + ProfileRows(u.role, id), db.logs + [RegistrationLog(u, ip)])
  {
    if v.Err? then (Rejected(v.error), db)
    else
      var a := Atomic(db, v.value, id, ip);
      if a.Err? then (Failed(a.error), db)
      else (Created(a.value.1.id, a.value.1.username, RoleValue(a.value.1.role)), a.value.0)
  }

  /** `RegisterView.post`: the response and the store afterwards. */
  function Register(db: Db, data: Payload, ip: Option<string>, id: UserId, checks: Checks): (out: (RegisterResponse, Db))
    ensures Status(out.0) == 201 || Status(out.0) == 400
    ensures Status(out.0) == 400 ==> out.1 == db
    ensures ValidateRegistration(data, db.users, checks).Err? ==>
      out.0 == Rejected(ValidateRegistration(data, db.users, checks).error)
    ensures out.0.Failed? ==>
      && ValidateRegistration(data, db.users, checks).Ok?
      && Atomic(db, ValidateRegistration(data, db.users, checks).value, id, ip).Err?
    ensures ValidateRegistration(data, db.users, checks).Ok? ==>
      (out.0.Created? <==> Atomic(db, ValidateRegistration(data, db.users, checks).value, id, ip).Ok?)
    ensures ValidateRegistration(data, db.users, checks).Ok? && Atomic(db, ValidateRegistration(data, db.users, checks).value, id, ip).Err? ==>
      out.0 == Failed(Atomic(db, ValidateRegistration(data, db.users, checks).value, id, ip).error)
    ensures out.0.Created? ==>
      && ValidateRegistration(data, db.users, checks).Ok?
      && var u := Create(ValidateRegistration(data, db.users, checks).value, id);
         && out.0 == Created(id, u.username, RoleValue(u.role))
         && out.1 == Db(db.users + [u], db.profiles + ProfileRows(u.role, id), db.logs + [RegistrationLog(u, ip)])
  {
    Commit(db, ValidateRegistration(data, db.users, checks), ip, id)
  }

  /** Committing never breaks the constraints of the store. */
  lemma CommitKeepsValid(db: Db, v: Result<Attrs, Errors>, ip: Option<string>, id: UserId)
    requires Valid(db)
    requires v.Ok? ==> RegistrationShape(v.value)
    ensures Valid(Commit(db, v, ip, id).1)
  {
    if v.Ok? {
      var u := Create(v.value, id);
      var r1 := InsertUser(db, u);
      if r1.Ok? {
        InsertUserKeepsValid(db, u);
        var db1 := r1.value;
        var r2 := InsertProfileFor(db1, u);
        if r2.Ok? {
          if ProfileFor(u.role, u.id).Some? {
            InsertProfileKeepsValid(db1, ProfileFor(u.role, u.id).value);
          }
          var r3 := InsertLog(r2.value, RegistrationLog(u, ip));
          if r3.Ok? {
            InsertLogKeepsValid(r2.value, RegistrationLog(u, ip));
          }
        }
      }
    }
  }

  /** A registration never breaks the constraints of the store. */
  lemma RegisterKeepsValid(db: Db, data: Payload, ip: Option<string>, id: UserId, checks: Checks)
    requires Valid(db)
    ensures Valid(Register(db, data, ip, id, checks).1)
  {
    CommitKeepsValid(db, ValidateRegistration(data, db.users, checks), ip, id);
  }

  /** The email a submission leaves its user with is empty: none was
      submitted, or a blank one. */
  predicate EmptyEmail(sub: Submission) {
    Email !in sub || Trimmed(sub, Email) == []
  }

  /** A submission whose fields are all acceptable, whose passwords agree
      and whose role (if any) has no staff profile commits whenever the new
      key is unused and, if it leaves its email empty, no stored user has
      an empty email: the unique checks of the serializer already rule out
      every other clash. */
  lemma SubmissionCommits(db: Db, sub: Submission, ip: Option<string>, id: UserId, checks: Checks)
    requires Valid(db)
    requires FieldsAcceptable(sub, db.users, checks)
    requires Trimmed(sub, Password) == Trimmed(sub, ConfirmPassword)
    requires forall i :: 0 <= i < |db.users| ==> db.users[i].id != id
    requires EmptyEmail(sub) ==> forall i :: 0 <= i < |db.users| ==> db.users[i].email != Some([])
    requires RoleField in sub ==> sub[RoleField] != "MANAGER" && sub[RoleField] != "STAFF"
    ensures Status(Commit(db, ValidateSubmission(sub, db.users, checks), ip, id).0) == 201
  {
    var attrs := ValidateSubmission(sub, db.users, checks).value;
    var u := Create(attrs, id);
    assert u.role != Manager && u.role != Staff;
    AcceptedUserFits(db.users, sub, id, checks);
    AtomicCompletes(db, attrs, id, ip);
  }

  /** The user built from an acceptable submission clashes with no stored
      user whose key differs, unless the submission leaves its email empty
      and a stored user's email is empty too: the serializer has already
      checked username, phone number and any non-blank email. */
  lemma AcceptedUserFits(users: seq<User>, sub: Submission, id: UserId, checks: Checks)
    requires FieldsAcceptable(sub, users, checks)
    requires Trimmed(sub, Password) == Trimmed(sub, ConfirmPassword)
    requires forall i :: 0 <= i < |users| ==> users[i].id != id
    requires EmptyEmail(sub) ==> forall i :: 0 <= i < |users| ==> users[i].email != Some([])
    ensures ValidateSubmission(sub, users, checks).Ok?
    ensures forall i :: 0 <= i < |users| ==> !Clash(users[i], Create(ValidateSubmission(sub, users, checks).value, id))
  {
    var u := Create(ValidateSubmission(sub, users, checks).value, id);
    forall i | 0 <= i < |users|
      ensures !Clash(users[i], u)
    {
      assert UsernameAcceptable(sub, users, checks);
      assert PhoneAcceptable(sub, users);
      assert EmailAcceptable(sub, users, checks);
    }
  }

  /** A registration for a role without the staff profile's NOT NULL
      columns commits whenever the request is valid, the new key is unused
      and, if the request leaves its email empty, no stored user has an
      empty email. */
  lemma RegistrationCommits(db: Db, data: Payload, ip: Option<string>, id: UserId, checks: Checks)
    requires Valid(db)
    requires ValidateRegistration(data, db.users, checks).Ok?
    requires forall i :: 0 <= i < |db.users| ==> db.users[i].id != id
    requires ("email" !in data || Strip(data["email"]) == []) ==>
      forall i :: 0 <= i < |db.users| ==> db.users[i].email != Some([])
    requires "role" in data ==> data["role"] != "MANAGER" && data["role"] != "STAFF"
    ensures Status(Register(db, data, ip, id, checks).0) == 201
  {
    var sub := SubmissionOf(data);
    FieldNames();
    SubmissionCommits(db, sub, ip, id, checks);
  }

  /** As declared, a staff profile needs a daily rate and a joining date
      that the registration does not supply, so every otherwise valid
      registration of a manager or staff member is rolled back: the answer
      is 400 and nothing is written. */
  lemma StaffCommitRollsBack(db: Db, attrs: Attrs, ip: Option<string>, id: UserId)
    requires RegistrationShape(attrs)
    requires RoleField in attrs && (attrs[RoleField] == "MANAGER" || attrs[RoleField] == "STAFF")
    ensures Commit(db, Ok(attrs), ip, id).0.Failed?
    ensures InsertUser(db, Create(attrs, id)).Ok? ==>
      Commit(db, Ok(attrs), ip, id).0 == Failed(NotNullViolation("daily_rate"))
    ensures Commit(db, Ok(attrs), ip, id).1 == db
  {
    var u := Create(attrs, id);
    assert u.role == Manager || u.role == Staff by {
      RoleValuesRoundTrip(u.role);
    }
    if InsertUser(db, u).Ok? {
      var db1 := InsertUser(db, u).value;
      assert InsertProfileFor(db1, u) == Err(NotNullViolation("daily_rate"));
    }
  }

  /** The same, for a request: a valid registration naming MANAGER or STAFF
      is answered 400 and writes nothing. */
  lemma StaffRegistrationRollsBack(db: Db, data: Payload, ip: Option<string>, id: UserId, checks: Checks)
    requires ValidateRegistration(data, db.users, checks).Ok?
    requires "role" in data && (data["role"] == "MANAGER" || data["role"] == "STAFF")
    ensures Register(db, data, ip, id, checks).0.Failed?
    ensures Register(db, data, ip, id, checks).1 == db
  {
    var attrs := ValidateRegistration(data, db.users, checks).value;
    FieldNames();
    StaffCommitRollsBack(db, attrs, ip, id);
  }

  /** A committed registration writes exactly one user, one log entry, and
      one profile row unless the role is PARENT. */
  lemma OneProfilePerRole(db: Db, v: Result<Attrs, Errors>, ip: Option<string>, id: UserId)
    requires v.Ok? ==> RegistrationShape(v.value)
    requires Commit(db, v, ip, id).0.Created?
    ensures
      var (resp, db') := Commit(db, v, ip, id);
      && |db'.users| == |db.users| + 1
      && |db'.logs| == |db.logs| + 1
      && db'.logs[|db.logs|].action == RegisteredAction
      && |db'.profiles| == |db.profiles| + (if resp.role == "PARENT" then 0 else 1)
  {
    var u := Create(v.value, id);
    RoleValuesRoundTrip(u.role);
  }

  /** As written, a registration without an email is refused with a
      unique-constraint error, and writes nothing, as soon as the table
      holds a user whose email is empty. */
  lemma EmailLessAfterEmailLessFails(db: Db, attrs: Attrs, ip: Option<string>, id: UserId, i: int)
    requires RegistrationShape(attrs) && Email !in attrs
    requires 0 <= i < |db.users| && db.users[i].email == Some([])
    ensures Commit(db, Ok(attrs), ip, id).0.Failed?
    ensures Commit(db, Ok(attrs), ip, id).1 == db
  {
    assert Clash(db.users[i], Create(attrs, id));
  }

  /** Hence, as written, once one registration without an email has been
      committed, every later one is answered 400, however much its
      username, phone number and key differ. */
  lemma SecondEmailLessRegistrationFails(db: Db, a: Attrs, b: Attrs, ip: Option<string>, ida: UserId, idb: UserId)
    requires RegistrationShape(a) && RegistrationShape(b)
    requires Email !in a && Email !in b
    requires Commit(db, Ok(a), ip, ida).0.Created?
    ensures
      var db1 := Commit(db, Ok(a), ip, ida).1;
      && Status(Commit(db1, Ok(b), ip, idb).0) == 400
      && Commit(db1, Ok(b), ip, idb).1 == db1
  {
    var db1 := Commit(db, Ok(a), ip, ida).1;
    assert db1.users[|db.users|] == Create(a, ida);
    EmailLessAfterEmailLessFails(db1, b, ip, idb, |db.users|);
  }
}
