/** The rows the authentication views write (users, role profiles and
    activity-log entries) and the constraints the database enforces on
    each insert. The store is an immutable value: an insert either yields
    the extended store or the integrity error the database raises. */
module Store {
  import opened Base
  import opened CustomUsers

  /** The per-role profile rows. Only the columns that decide whether an
      insert succeeds are kept: a staff profile's `daily_rate` and
      `joining_date` are NOT NULL and have no default. */
  datatype Profile =
    | TenantProfile(user: UserId)
    | StaffProfile(user: UserId, staffRole: string, dailyRate: Option<int>, joiningDate: Option<int>)
    | OwnerProfile(user: UserId, businessName: string)

  /** An audit-trail row. */
  datatype ActivityLog = ActivityLog(user: UserId, action: string, details: string, ip: Option<string>)

  datatype Db = Db(users: seq<User>, profiles: seq<Profile>, logs: seq<ActivityLog>)

  /** The integrity errors an insert can raise. */
  datatype DbError =
    | UniqueViolation(column: string)
    | NotNullViolation(column: string)
    | ForeignKeyViolation(column: string)

  predicate HasUser(users: seq<User>, id: UserId) {
    exists i :: 0 <= i < |users| && users[i].id == id
  }

  /** Profiles of the same kind for the same user (each profile table is
      one-to-one with the user table). */
  predicate SameProfileKind(p: Profile, q: Profile) {
    p.user == q.user
    && ((p.TenantProfile? && q.TenantProfile?)
        || (p.StaffProfile? && q.StaffProfile?)
        || (p.OwnerProfile? && q.OwnerProfile?))
  }

  /** Columns of a profile row that are NULL but must not be. */
  predicate ProfileComplete(p: Profile) {
    p.StaffProfile? ==> p.dailyRate.Some? && p.joiningDate.Some?
  }

  /** Everything the schema guarantees about a store. */
  predicate Valid(db: Db) {
    && UniqueUsers(db.users)
    && (forall i :: 0 <= i < |db.profiles| ==>
          HasUser(db.users, db.profiles[i].user) && ProfileComplete(db.profiles[i]))
    && (forall i, j :: 0 <= i < j < |db.profiles| ==> !SameProfileKind(db.profiles[i], db.profiles[j]))
    && (forall i :: 0 <= i < |db.logs| ==> HasUser(db.users, db.logs[i].user))
  }

  /** Which column a new user would clash on, checked in declaration order. */
  function UserConflict(users: seq<User>, u: User): (r: Option<string>)
    ensures r.None? <==> forall i :: 0 <= i < |users| ==> !Clash(users[i], u)
  {
    if exists i :: 0 <= i < |users| && users[i].id == u.id then Some("id")
    else if exists i :: 0 <= i < |users| && users[i].username == u.username then Some("username")
    else if exists i :: 0 <= i < |users| && users[i].phone == u.phone then Some("phone_number")
    else if u.email.Some? && exists i :: 0 <= i < |users| && users[i].email == u.email then Some("email")
    else None
  }

  /** Inserting a user row: fails exactly when it clashes with a row
      already present, and otherwise appends it and nothing else. */
  function InsertUser(db: Db, u: User): (r: Result<Db, DbError>)
    ensures r.Ok? <==> forall i :: 0 <= i < |db.users| ==> !Clash(db.users[i], u)
    ensures r.Ok? ==> r.value == db.(users := db.users + [u])
  {
    match UserConflict(db.users, u)
    case Some(column) => Err(UniqueViolation(column))
    case None => Ok(db.(users := db.users + [u]))
  }

  /** Inserting a profile row: fails when its user is missing, when a
      NOT NULL column is empty, or when the user already has a profile of
      that kind; otherwise appends it and nothing else. */
  function InsertProfile(db: Db, p: Profile): (r: Result<Db, DbError>)
    ensures r.Ok? <==>
      && HasUser(db.users, p.user)
      && ProfileComplete(p)
      && forall i :: 0 <= i < |db.profiles| ==> !SameProfileKind(db.profiles[i], p)
    ensures r.Ok? ==> r.value == db.(profiles := db.profiles + [p])
  {
    if p.StaffProfile? && p.dailyRate.None? then Err(NotNullViolation("daily_rate"))
    else if p.StaffProfile? && p.joiningDate.None? then Err(NotNullViolation("joining_date"))
    else if !HasUser(db.users, p.user) then Err(ForeignKeyViolation("user_id"))
    else if exists i :: 0 <= i < |db.profiles| && SameProfileKind(db.profiles[i], p) then Err(UniqueViolation("user_id"))
    else Ok(db.(profiles := db.profiles + [p]))
  }

  /** Inserting an activity-log row: fails only for an unknown user. */
  function InsertLog(db: Db, l: ActivityLog): (r: Result<Db, DbError>)
    ensures r.Ok? <==> HasUser(db.users, l.user)
    ensures r.Ok? ==> r.value == db.(logs := db.logs + [l])
  {
    if HasUser(db.users, l.user) then Ok(db.(logs := db.logs + [l]))
    else Err(ForeignKeyViolation("user_id"))
  }

  /** Appending rows never loses a user. */
  lemma HasUserGrows(users: seq<User>, extra: seq<User>, id: UserId)
    requires HasUser(users, id)
    ensures HasUser(users + extra, id)
  {
    var i :| 0 <= i < |users| && users[i].id == id;
    assert (users + extra)[i].id == id;
  }

  /** Every successful insert keeps the store valid. */
  lemma InsertUserKeepsValid(db: Db, u: User)
    requires Valid(db)
    requires InsertUser(db, u).Ok?
    ensures Valid(InsertUser(db, u).value)
  {
    var db' := InsertUser(db, u).value;
    forall i, j | 0 <= i < j < |db'.users|
      ensures !Clash(db'.users[i], db'.users[j])
    {
      if j == |db.users| {
        assert db'.users[j] == u;
        assert db'.users[i] == db.users[i];
      }
    }
    forall i | 0 <= i < |db'.profiles|
      ensures HasUser(db'.users, db'.profiles[i].user)
    {
      HasUserGrows(db.users, [u], db.profiles[i].user);
    }
    forall i | 0 <= i < |db'.logs|
      ensures HasUser(db'.users, db'.logs[i].user)
    {
      HasUserGrows(db.users, [u], db.logs[i].user);
    }
  }

  lemma InsertProfileKeepsValid(db: Db, p: Profile)
    requires Valid(db)
    requires InsertProfile(db, p).Ok?
    ensures Valid(InsertProfile(db, p).value)
  {
  }

  lemma InsertLogKeepsValid(db: Db, l: ActivityLog)
    requires Valid(db)
    requires InsertLog(db, l).Ok?
    ensures Valid(InsertLog(db, l).value)
  {
  }

  /** Outcome of looking a login identifier up in the user table. */
  datatype Lookup = NoUser | Found(user: User) | Ambiguous

  /** A user answers to an identifier through its username, its email or
      its phone number. */
  predicate AnswersTo(u: User, ident: string) {
    u.username == ident || u.email == Some(ident) || u.phone == ident
  }

  /** Indices, in increasing order, of the first `n` rows that answer to
      `ident`. */
  function MatchIndices(users: seq<User>, ident: string, n: nat): (ix: seq<nat>)
    requires n <= |users|
    ensures forall k :: 0 <= k < |ix| ==> ix[k] < n && AnswersTo(users[ix[k]], ident)
    ensures forall i :: 0 <= i < n && AnswersTo(users[i], ident) ==> i in ix
    ensures forall a, b :: 0 <= a < b < |ix| ==> ix[a] < ix[b]
  {
    if n == 0 then []
    else
      var before := MatchIndices(users, ident, n - 1);
      if AnswersTo(users[n - 1], ident) then before + [n - 1] else before
  }

  /** A single-row `get` over `username OR email OR phone`: no row is the
      handled not-found case, exactly one row is the user, and two or more
      rows is the unhandled multiple-rows error. */
  function Resolve(users: seq<User>, ident: string): (r: Lookup)
    ensures r.NoUser? <==> forall i :: 0 <= i < |users| ==> !AnswersTo(users[i], ident)
    ensures r.Found? ==>
      exists i ::
        && 0 <= i < |users| && users[i] == r.user
        && AnswersTo(users[i], ident)
        && forall j :: 0 <= j < |users| && AnswersTo(users[j], ident) ==> j == i
    ensures r.Ambiguous? <==>
      exists i, j ::
        && 0 <= i < j < |users|
        && AnswersTo(users[i], ident) && AnswersTo(users[j], ident)
  {
    var ix := MatchIndices(users, ident, |users|);
    if |ix| == 0 then NoUser
    else if |ix| == 1 then
      assert forall j :: 0 <= j < |users| && AnswersTo(users[j], ident) ==> j == ix[0];
      Found(users[ix[0]])
    else
      assert ix[0] < ix[1];
      Ambiguous
  }

  /** The constraints do not prevent an ambiguous identifier: one user's
      username may be another user's phone number. */
  lemma CrossFieldCollision()
    ensures
      var a := User(1, "9876543210", None, "9000000001", Tenant, true, "pw-a");
      var b := User(2, "bob", None, "9876543210", Tenant, true, "pw-b");
      && Valid(Db([a, b], [], []))
      && Resolve([a, b], "9876543210") == Ambiguous
  {
    var a := User(1, "9876543210", None, "9000000001", Tenant, true, "pw-a");
    var b := User(2, "bob", None, "9876543210", Tenant, true, "pw-b");
    assert AnswersTo([a, b][0], "9876543210") && AnswersTo([a, b][1], "9876543210");
  }

  /** In a valid store, an identifier that matches two rows matches them
      through different columns: no column alone is ambiguous. */
  lemma AmbiguityNeedsTwoColumns(users: seq<User>, ident: string, i: nat, j: nat)
    requires UniqueUsers(users)
    requires i < j < |users|
    requires AnswersTo(users[i], ident) && AnswersTo(users[j], ident)
    ensures !(users[i].username == ident && users[j].username == ident)
    ensures !(users[i].phone == ident && users[j].phone == ident)
    ensures !(users[i].email == Some(ident) && users[j].email == Some(ident))
  {
    assert !Clash(users[i], users[j]);
  }
}
