/** The central user record: its five roles, the default role, and the
    uniqueness constraints the user table enforces. */
module CustomUsers {
  import opened Base

  /** The role choices of a user. */
  datatype Role = SuperAdmin | Manager | Tenant | Parent | Staff

  /** A user created without an explicit role is a tenant. */
  const DefaultRole: Role := Tenant

  /** Column width of the stored role value. */
  const RoleMaxLength: nat := 20

  /** Column width of the phone number. */
  const PhoneMaxLength: nat := 15

  /** The value stored in the `role` column for each choice. */
  function RoleValue(r: Role): string {
    match r
    case SuperAdmin => "SUPERADMIN"
    case Manager => "MANAGER"
    case Tenant => "TENANT"
    case Parent => "PARENT"
    case Staff => "STAFF"
  }

  /** The complete set of accepted role values. */
  const RoleValues: set<string> := {"SUPERADMIN", "MANAGER", "TENANT", "PARENT", "STAFF"}

  /** Reads a role value back, as a choice field does: only an exact
      match of one of the five stored values is accepted. */
  function ParseRole(s: string): (r: Option<Role>)
    ensures r.Some? <==> s in RoleValues
    ensures r.Some? ==> RoleValue(r.value) == s
  {
    if s == "SUPERADMIN" then Some(SuperAdmin)
    else if s == "MANAGER" then Some(Manager)
    else if s == "TENANT" then Some(Tenant)
    else if s == "PARENT" then Some(Parent)
    else if s == "STAFF" then Some(Staff)
    else None
  }

  /** Every role is stored as one of exactly five distinct values, each
      of which fits the column, and reading a stored value back gives the
      same role. */
  lemma RoleValuesRoundTrip(r: Role)
    ensures RoleValue(r) in RoleValues
    ensures |RoleValue(r)| <= RoleMaxLength
    ensures ParseRole(RoleValue(r)) == Some(r)
    ensures |RoleValues| == 5
  {
    assert RoleValues == {"SUPERADMIN", "MANAGER", "TENANT", "PARENT", "STAFF"};
  }

  /** The primary key of a user (a UUID, kept opaque). */
  type UserId = nat

  /** A user row. `email` is nullable; `password` is the credential handed
      to the user manager, which hashes it (hashing is not modelled). */
  datatype User = User(
    id: UserId,
    username: string,
    email: Option<string>,
    phone: string,
    role: Role,
    isActive: bool,
    password: string)

  /** Two users clash when they share a key, a username, a phone number,
      or a non-null email. Any number of users may have a null email. */
  predicate Clash(a: User, b: User) {
    || a.id == b.id
    || a.username == b.username
    || a.phone == b.phone
    || (a.email.Some? && a.email == b.email)
  }

  /** The uniqueness constraints of the user table. */
  predicate UniqueUsers(users: seq<User>) {
    forall i, j :: 0 <= i < j < |users| ==> !Clash(users[i], users[j])
  }

  /** A table that satisfies the constraints never holds two rows with the
      same phone number, nor two rows with the same non-null email. */
  lemma UniqueUsersDistinctContacts(users: seq<User>, i: nat, j: nat)
    requires UniqueUsers(users)
    requires i < |users| && j < |users| && i != j
    ensures users[i].phone != users[j].phone
    ensures users[i].email.Some? ==> users[i].email != users[j].email
  {
    if i < j {
      assert !Clash(users[i], users[j]);
    } else {
      assert !Clash(users[j], users[i]);
    }
  }

  /** Null emails never clash: a table may hold any number of users
      without an email. */
  lemma NullEmailsCoexist(a: User, b: User)
    requires a.email.None? && b.email.None?
    requires a.id != b.id && a.username != b.username && a.phone != b.phone
    ensures UniqueUsers([a, b])
  {
  }
}
