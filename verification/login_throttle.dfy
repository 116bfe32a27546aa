/** The login endpoint and its per-address throttle. Failed logins from one
    client address are counted in a cache entry that lives for fifteen
    minutes after the latest failure; the fifth counted failure sets a
    lockout entry that lives for thirty minutes, and while it lives every
    login from that address is refused before the request is even read. */
module LoginThrottle {
  import opened Base
  import opened CustomUsers
  import opened Store
  import opened AuthSerializers

  /** The values the view stores in the cache: a failure count or the
      lockout flag. */
  datatype CacheValue = Count(n: int) | Flag(b: bool)

  /** A cache entry and the instant (in seconds) from which it has expired. */
  datatype Entry = Entry(value: CacheValue, expiry: int)

  /** The in-process cache: an entry is visible while the clock is strictly
      before its expiry. Expired entries may linger; they are never seen. */
  type Cache = map<string, Entry>

  /** Seconds a failure count survives after the latest failure. */
  const AttemptWindow: int := 900

  /** Seconds an address stays locked out. */
  const LockoutPeriod: int := 1800

  /** The failure count at which the address is locked out. */
  const MaxAttempts: int := 5

  /** `cache.get(key)`: the stored value while it has not expired. */
  function Get(cache: Cache, key: string, now: int): (r: Option<CacheValue>)
    ensures r.Some? <==> key in cache && now < cache[key].expiry
    ensures r.Some? ==> r.value == cache[key].value
  {
    if key in cache && now < cache[key].expiry then Some(cache[key].value) else None
  }

  /** `cache.set(key, value, timeout)`. */
  function Set(cache: Cache, key: string, v: CacheValue, timeout: int, now: int): Cache {
    cache[key := Entry(v, now + timeout)]
  }

  /** `cache.delete(key)`. */
  function Delete(cache: Cache, key: string): Cache {
    cache - {key}
  }

  /** Python truthiness of a cache lookup: a missing value, zero and
      `False` are false. */
  predicate Truthy(v: Option<CacheValue>) {
    match v
    case None => false
    case Some(Count(n)) => n != 0
    case Some(Flag(b)) => b
  }

  /** The number a stored value contributes to `+ 1` (`True` counts as 1). */
  function AsInt(v: CacheValue): int {
    match v
    case Count(n) => n
    case Flag(b) => if b then 1 else 0
  }

  /** `cache.get(key, 0)` read as a number. */
  function PriorAttempts(cache: Cache, key: string, now: int): int {
    match Get(cache, key, now)
    case None => 0
    case Some(v) => AsInt(v)
  }

  /** A value set under a key is read back exactly until its timeout runs
      out, and the write leaves what every other key reads alone. */
  lemma SetThenGet(cache: Cache, key: string, v: CacheValue, timeout: int, now: int, other: string, later: int)
    ensures Get(Set(cache, key, v, timeout, now), key, later) == (if later < now + timeout then Some(v) else None)
    ensures other != key ==> Get(Set(cache, key, v, timeout, now), other, later) == Get(cache, other, later)
  {
  }

  /** A deleted key reads as missing at every instant, and the delete
      leaves what every other key reads alone. */
  lemma DeleteThenGet(cache: Cache, key: string, other: string, later: int)
    ensures Get(Delete(cache, key), key, later) == None
    ensures other != key ==> Get(Delete(cache, key), other, later) == Get(cache, other, later)
  {
  }

  /** The two reads the view makes, after the writes it makes: a stored
      count reads back as that count inside its window and as 0 after it,
      a stored `True` flag is truthy exactly while it lives, and a deleted
      key reads as 0 and as false. A zero count and `False` read as false
      even while they live. */
  lemma ThrottleReadsAfterWrite(cache: Cache, key: string, n: int, timeout: int, now: int, later: int)
    ensures PriorAttempts(Set(cache, key, Count(n), timeout, now), key, later) == (if later < now + timeout then n else 0)
    ensures Truthy(Get(Set(cache, key, Flag(true), timeout, now), key, later)) <==> later < now + timeout
    ensures PriorAttempts(Delete(cache, key), key, later) == 0
    ensures !Truthy(Get(Delete(cache, key), key, later))
    ensures !Truthy(Get(Set(cache, key, Count(0), timeout, now), key, later))
    ensures !Truthy(Get(Set(cache, key, Flag(false), timeout, now), key, later))
  {
  }

  /** An entry whose expiry has passed reads exactly as a missing one. */
  lemma ExpiredReadsAsMissing(cache: Cache, key: string, now: int)
    requires key in cache && cache[key].expiry <= now
    ensures Get(cache, key, now) == Get(Delete(cache, key), key, now) == None
    ensures PriorAttempts(cache, key, now) == 0 && !Truthy(Get(cache, key, now))
  {
  }

  /** The client address as it appears inside an f-string: a request
      without an address renders as `None`. */
  function IpText(ip: Option<string>): string {
    match ip
    case None => "None"
    case Some(a) => a
  }

  const AttemptsPrefix: string := "login_attempts_"
  const LockoutPrefix: string := "login_lockout_"

  function AttemptsKey(ip: Option<string>): string {
    AttemptsPrefix + IpText(ip)
  }

  function LockoutKey(ip: Option<string>): string {
    LockoutPrefix + IpText(ip)
  }

  /** Two caches agree on every key outside `keys`. */
  ghost predicate SameOutside(c: Cache, d: Cache, keys: set<string>) {
    forall k :: k !in keys ==> (k in c <==> k in d) && (k in c ==> c[k] == d[k])
  }

  /** The authentication backend, kept abstract: whether it accepts the
      given password for the given stored row. The view calls it with the
      resolved row's username, which is unique, so a user it returns is
      that same row. */
  type Backend = (User, string) -> bool

  /** `authenticate(username=user.username, password=password)`: the row
      when the backend accepts it, nothing otherwise. */
  function Authenticate(u: User, password: string, backend: Backend): (r: Option<User>)
    ensures r.Some? <==> backend(u, password)
    ensures r.Some? ==> r.value == u
  {
    if backend(u, password) then Some(u) else None
  }

  /** The stored-credential check of the password hasher, kept abstract. */
  type PasswordCheck = (string, string) -> bool

  /** Django's default backend: the password must match and the account
      must be active. */
  function ModelBackend(check: PasswordCheck): (backend: Backend)
    ensures forall u, password :: backend(u, password) <==> check(u.password, password) && u.isActive
  {
    (u: User, password: string) => check(u.password, password) && u.isActive
  }

  /** A backend that never accepts an inactive account. */
  ghost predicate RefusesInactive(backend: Backend) {
    forall u, password :: backend(u, password) ==> u.isActive
  }

  /** The action recorded for a successful login. */
  const LoginAction: string := "USER_LOGIN"

  function LoginLog(u: User, ip: Option<string>): (l: ActivityLog)
    ensures l.user == u.id && l.action == LoginAction && l.ip == ip
  {
    ActivityLog(u.id, LoginAction, "User " + u.username + " logged in successfully", ip)
  }

  /** What the endpoint answers. */
  datatype LoginResponse =
    | Locked                                          // the address is locked out
    | Rejected(errors: Errors)                        // the login serializer's errors
    | InvalidCredentials                              // a counted failure below the limit
    | NowLocked                                       // the counted failure that reaches the limit
    | Disabled                                        // the account is inactive
    | ServerError                                     // an unhandled exception
    | LoggedIn(id: UserId, username: string, role: string)

  function Status(r: LoginResponse): int {
    match r
    case Locked => 429
    case Rejected(_) => 400
    case InvalidCredentials => 401
    case NowLocked => 429
    case Disabled => 403
    case ServerError => 500
    case LoggedIn(_, _, _) => 200
  }

  /** The response together with the cache and the store afterwards. */
  datatype Outcome = Outcome(response: LoginResponse, cache: Cache, db: Db)

  /** A failed authentication: the count is read (zero when absent or
      expired), incremented and stored for another window; reaching the
      limit also sets the lockout flag. */
  function Failure(cache: Cache, db: Db, now: int, ip: Option<string>): (out: Outcome)
    ensures out.db == db
    ensures SameOutside(cache, out.cache, {AttemptsKey(ip), LockoutKey(ip)})
    ensures out.response == InvalidCredentials || out.response == NowLocked
    ensures
      var n := PriorAttempts(cache, AttemptsKey(ip), now) + 1;
      && AttemptsKey(ip) in out.cache
      && out.cache[AttemptsKey(ip)] == Entry(Count(n), now + AttemptWindow)
      && (out.response == NowLocked <==> n >= MaxAttempts)
      && (out.response == NowLocked ==>
            LockoutKey(ip) in out.cache && out.cache[LockoutKey(ip)] == Entry(Flag(true), now + LockoutPeriod))
      && (out.response == InvalidCredentials ==>
            (LockoutKey(ip) in out.cache <==> LockoutKey(ip) in cache)
            && (LockoutKey(ip) in cache ==> out.cache[LockoutKey(ip)] == cache[LockoutKey(ip)]))
  {
    KeysDistinct(ip, ip);
    var ak := AttemptsKey(ip);
    var n := PriorAttempts(cache, ak, now) + 1;
    var c1 := Set(cache, ak, Count(n), AttemptWindow, now);
    if n >= MaxAttempts then Outcome(NowLocked, Set(c1, LockoutKey(ip), Flag(true), LockoutPeriod, now), db)
    else Outcome(InvalidCredentials, c1, db)
  }

  /** The part of the view after the lockout check and the login
      serializer: `lookup` is the result of resolving the identifier. */
  function Attempt(cache: Cache, db: Db, now: int, ip: Option<string>, cred: Credentials, lookup: Lookup, backend: Backend): (out: Outcome)
    requires lookup.Found? ==> HasUser(db.users, lookup.user.id)
    ensures lookup.Ambiguous? ==> out == Outcome(ServerError, cache, db)
    ensures lookup.NoUser? ==> out == Failure(cache, db, now, ip)
    ensures lookup.Found? ==>
      var u := lookup.user;
      if !backend(u, cred.password) then out == Failure(cache, db, now, ip)
      else if !u.isActive then out == Outcome(Disabled, cache, db)
      else
        && out.response == LoggedIn(u.id, u.username, RoleValue(u.role))
        && out.cache == cache - {AttemptsKey(ip), LockoutKey(ip)}
        && out.db == db.(logs := db.logs + [LoginLog(u, ip)])
    ensures SameOutside(cache, out.cache, {AttemptsKey(ip), LockoutKey(ip)})
  {
    if lookup.Ambiguous? then Outcome(ServerError, cache, db)
    else if lookup.NoUser? then Failure(cache, db, now, ip)
    else
      var auth := Authenticate(lookup.user, cred.password, backend);
      if auth.None? then Failure(cache, db, now, ip)
      else if !auth.value.isActive then Outcome(Disabled, cache, db)
      else
        var u := auth.value;
        Outcome(LoggedIn(u.id, u.username, RoleValue(u.role)),
                Delete(Delete(cache, AttemptsKey(ip)), LockoutKey(ip)),
                InsertLog(db, LoginLog(u, ip)).value)
  }

  /** A row the resolver finds is a row of the store. */
  lemma FoundIsStored(users: seq<User>, ident: string)
    requires Resolve(users, ident).Found?
    ensures HasUser(users, Resolve(users, ident).user.id)
  {
    var i :| 0 <= i < |users| && users[i] == Resolve(users, ident).user;
    assert users[i].id == Resolve(users, ident).user.id;
  }

  /** The view once the login serializer has run, `v` being its result:
      a live lockout refuses the request untouched; invalid input is
      answered 400; otherwise the identifier is resolved and the
      credentials checked as in `Attempt`. */
  function Guarded(cache: Cache, db: Db, now: int, ip: Option<string>, v: Result<Credentials, Errors>, backend: Backend): (out: Outcome)
    ensures Truthy(Get(cache, LockoutKey(ip), now)) ==> out == Outcome(Locked, cache, db)
    ensures !Truthy(Get(cache, LockoutKey(ip), now)) ==>
      match v
      case Err(errs) => out == Outcome(Rejected(errs), cache, db)
      case Ok(cred) =>
        && (Resolve(db.users, cred.username).Found? ==> HasUser(db.users, Resolve(db.users, cred.username).user.id))
        && out == Attempt(cache, db, now, ip, cred, Resolve(db.users, cred.username), backend)
  {
    if Truthy(Get(cache, LockoutKey(ip), now)) then Outcome(Locked, cache, db)
    else if v.Err? then Outcome(Rejected(v.error), cache, db)
    else
      var lookup := Resolve(db.users, v.value.username);
      if lookup.Found? then
        FoundIsStored(db.users, v.value.username);
        Attempt(cache, db, now, ip, v.value, lookup, backend)
      else Attempt(cache, db, now, ip, v.value, lookup, backend)
  }

  /** `LoginView.post`: the lockout check comes before the request body is
      even validated. */
  function Login(cache: Cache, db: Db, now: int, ip: Option<string>, data: Payload, backend: Backend): (out: Outcome)
    ensures Truthy(Get(cache, LockoutKey(ip), now)) ==> out == Outcome(Locked, cache, db)
    ensures !Truthy(Get(cache, LockoutKey(ip), now)) ==>
      match ValidateLogin(data)
      case Err(errs) => out == Outcome(Rejected(errs), cache, db)
      case Ok(cred) =>
        && (Resolve(db.users, cred.username).Found? ==> HasUser(db.users, Resolve(db.users, cred.username).user.id))
        && out == Attempt(cache, db, now, ip, cred, Resolve(db.users, cred.username), backend)
  {
    Guarded(cache, db, now, ip, ValidateLogin(data), backend)
  }

  /** The frame of `Guarded`, for any serializer result. */
  lemma GuardedFrame(cache: Cache, db: Db, now: int, ip: Option<string>, v: Result<Credentials, Errors>, backend: Backend)
    ensures
      var out := Guarded(cache, db, now, ip, v, backend);
      && SameOutside(cache, out.cache, {AttemptsKey(ip), LockoutKey(ip)})
      && (!out.response.LoggedIn? ==> out.db == db)
      && (out.response.LoggedIn? ==>
            && out.cache == cache - {AttemptsKey(ip), LockoutKey(ip)}
            && out.db.users == db.users && out.db.profiles == db.profiles
            && |out.db.logs| == |db.logs| + 1)
      && (out.response.InvalidCredentials? || out.response.NowLocked? ==>
            !Truthy(Get(cache, LockoutKey(ip), now)) && out == Failure(cache, db, now, ip))
      && (!(out.response.InvalidCredentials? || out.response.NowLocked? || out.response.LoggedIn?) ==> out.cache == cache)
  {
    if !Truthy(Get(cache, LockoutKey(ip), now)) && v.Ok? {
      var lookup := Resolve(db.users, v.value.username);
      assert Guarded(cache, db, now, ip, v, backend) == Attempt(cache, db, now, ip, v.value, lookup, backend);
    }
  }

  /** Whatever the request, a login touches only its own address's two
      entries; it leaves the cache alone unless it counts a failure (which
      is exactly `Failure`) or succeeds (which deletes both entries); and
      it writes to the store only when it succeeds, one log row then. */
  lemma LoginFrame(cache: Cache, db: Db, now: int, ip: Option<string>, data: Payload, backend: Backend)
    ensures
      var out := Login(cache, db, now, ip, data, backend);
      && SameOutside(cache, out.cache, {AttemptsKey(ip), LockoutKey(ip)})
      && (!out.response.LoggedIn? ==> out.db == db)
      && (out.response.LoggedIn? ==>
            && out.cache == cache - {AttemptsKey(ip), LockoutKey(ip)}
            && out.db.users == db.users && out.db.profiles == db.profiles
            && |out.db.logs| == |db.logs| + 1)
      && (out.response.InvalidCredentials? || out.response.NowLocked? ==>
            !Truthy(Get(cache, LockoutKey(ip), now)) && out == Failure(cache, db, now, ip))
      && (!(out.response.InvalidCredentials? || out.response.NowLocked? || out.response.LoggedIn?) ==> out.cache == cache)
  {
    GuardedFrame(cache, db, now, ip, ValidateLogin(data), backend);
  }

  /** The serializer accepted the request and its credentials fail
      against this store: no row answers to the identifier, or the one row
      that does refuses the password or is inactive. */
  predicate FailsCredentials(db: Db, v: Result<Credentials, Errors>, backend: Backend) {
    && v.Ok?
    && match Resolve(db.users, v.value.username)
       case NoUser => true
       case Found(u) => !backend(u, v.value.password)
       case Ambiguous => false
  }

  /** The request would fail authentication against this store. */
  predicate FailsAuth(db: Db, data: Payload, backend: Backend) {
    FailsCredentials(db, ValidateLogin(data), backend)
  }

  lemma FailingGuarded(cache: Cache, db: Db, now: int, ip: Option<string>, v: Result<Credentials, Errors>, backend: Backend)
    requires FailsCredentials(db, v, backend)
    requires !Truthy(Get(cache, LockoutKey(ip), now))
    ensures Guarded(cache, db, now, ip, v, backend) == Failure(cache, db, now, ip)
  {
    assert Guarded(cache, db, now, ip, v, backend) == Attempt(cache, db, now, ip, v.value, Resolve(db.users, v.value.username), backend);
  }

  /** A request that fails authentication, from an address that is not
      locked out, is a counted failure. */
  lemma FailingLogin(cache: Cache, db: Db, now: int, ip: Option<string>, data: Payload, backend: Backend)
    requires FailsAuth(db, data, backend)
    requires !Truthy(Get(cache, LockoutKey(ip), now))
    ensures Login(cache, db, now, ip, data, backend) == Failure(cache, db, now, ip)
  {
    FailingGuarded(cache, db, now, ip, ValidateLogin(data), backend);
  }

  /** The two key families never collide, and within a family two
      addresses share a key exactly when they render alike. */
  lemma KeysDistinct(a: Option<string>, b: Option<string>)
    ensures AttemptsKey(a) != LockoutKey(b)
    ensures AttemptsKey(a) == AttemptsKey(b) <==> IpText(a) == IpText(b)
    ensures LockoutKey(a) == LockoutKey(b) <==> IpText(a) == IpText(b)
  {
    assert AttemptsKey(a)[6] == 'a' && LockoutKey(b)[6] == 'l';
    if AttemptsKey(a) == AttemptsKey(b) {
      assert AttemptsKey(a)[|AttemptsPrefix|..] == IpText(a);
      assert AttemptsKey(b)[|AttemptsPrefix|..] == IpText(b);
    }
    if LockoutKey(a) == LockoutKey(b) {
      assert LockoutKey(a)[|LockoutPrefix|..] == IpText(a);
      assert LockoutKey(b)[|LockoutPrefix|..] == IpText(b);
    }
  }

  /** A request without a client address is throttled in the same bucket
      as one whose address is the text `None`. */
  lemma MissingAddressSharesBucket()
    ensures AttemptsKey(None) == AttemptsKey(Some("None"))
    ensures LockoutKey(None) == LockoutKey(Some("None"))
  {
  }

  /** What the view keeps true of one address's pair of entries: the count
      is between 1 and the limit, the lockout entry only ever holds `True`,
      and a count at the limit is covered by a lockout that outlives it. */
  predicate ThrottleInv(cache: Cache, ip: Option<string>) {
    var ak := AttemptsKey(ip);
    var lk := LockoutKey(ip);
    && (ak in cache ==> cache[ak].value.Count? && 1 <= cache[ak].value.n <= MaxAttempts)
    && (lk in cache ==> cache[lk].value == Flag(true))
    && (ak in cache && cache[ak].value == Count(MaxAttempts) ==>
          lk in cache && cache[ak].expiry <= cache[lk].expiry)
  }

  /** Under the invariant, a count that has reached the limit and is still
      visible means the address is locked: the password is not even looked
      at, so no address is ever granted a sixth evaluated attempt inside
      one window. */
  lemma FullCountMeansLocked(cache: Cache, db: Db, now: int, ip: Option<string>, data: Payload, backend: Backend)
    requires ThrottleInv(cache, ip)
    requires Get(cache, AttemptsKey(ip), now) == Some(Count(MaxAttempts))
    ensures Login(cache, db, now, ip, data, backend) == Outcome(Locked, cache, db)
  {
    assert Get(cache, LockoutKey(ip), now) == Some(Flag(true));
  }

  /** Every request that reached the serializer, from any address, keeps
      the invariant of every address. */
  lemma GuardedKeepsThrottleInv(cache: Cache, db: Db, now: int, ip: Option<string>, v: Result<Credentials, Errors>, backend: Backend, other: Option<string>)
    requires ThrottleInv(cache, other)
    ensures ThrottleInv(Guarded(cache, db, now, ip, v, backend).cache, other)
  {
    var out := Guarded(cache, db, now, ip, v, backend);
    GuardedFrame(cache, db, now, ip, v, backend);
    KeysDistinct(ip, other);
    KeysDistinct(other, ip);
    if IpText(ip) == IpText(other) && (out.response.InvalidCredentials? || out.response.NowLocked?) {
      var ak := AttemptsKey(ip);
      var prior := Get(cache, ak, now);
      if prior.Some? && prior.value == Count(MaxAttempts) {
        assert false;
      }
      assert PriorAttempts(cache, ak, now) + 1 <= MaxAttempts;
    }
  }

  /** Every login, from any address, keeps the invariant of every address. */
  lemma LoginKeepsThrottleInv(cache: Cache, db: Db, now: int, ip: Option<string>, data: Payload, backend: Backend, other: Option<string>)
    requires ThrottleInv(cache, other)
    ensures ThrottleInv(Login(cache, db, now, ip, data, backend).cache, other)
  {
    GuardedKeepsThrottleInv(cache, db, now, ip, ValidateLogin(data), backend, other);
  }

  /** The disabled answer is given exactly when the one row that answers
      to the identifier is accepted by the backend but inactive; it changes
      neither the counters nor the store. */
  lemma DisabledKeepsCounters(cache: Cache, db: Db, now: int, ip: Option<string>, data: Payload, backend: Backend)
    ensures
      var out := Login(cache, db, now, ip, data, backend);
      && (out.response.Disabled? <==>
            && !Truthy(Get(cache, LockoutKey(ip), now))
            && ValidateLogin(data).Ok?
            && var cred := ValidateLogin(data).value;
               && Resolve(db.users, cred.username).Found?
               && var u := Resolve(db.users, cred.username).user;
                  backend(u, cred.password) && !u.isActive)
      && (out.response.Disabled? ==> out.cache == cache && out.db == db)
  {
  }

  /** With a backend that refuses inactive accounts, as the default one
      does, the disabled answer is never given: a correct password for an
      inactive account is counted as a failed attempt. */
  lemma DisabledUnreachable(cache: Cache, db: Db, now: int, ip: Option<string>, data: Payload, backend: Backend)
    requires RefusesInactive(backend)
    ensures !Login(cache, db, now, ip, data, backend).response.Disabled?
  {
  }

  /** The default backend refuses inactive accounts. */
  lemma ModelBackendRefusesInactive(check: PasswordCheck)
    ensures RefusesInactive(ModelBackend(check))
  {
  }

  /** A login body without a username or without a password, from an
      address that is not locked out, is answered 400 with the serializer's
      errors, and neither the cache nor the store changes. */
  lemma MalformedLoginRejected(cache: Cache, db: Db, now: int, ip: Option<string>, data: Payload, backend: Backend)
    requires !Truthy(Get(cache, LockoutKey(ip), now))
    requires "username" !in data || "password" !in data
    ensures
      var out := Login(cache, db, now, ip, data, backend);
      && out.response.Rejected? && Status(out.response) == 400
      && out.response.errors.Keys <= LoginFields && |out.response.errors| > 0
      && out.cache == cache && out.db == db
  {
  }

  /** A failure after the count has expired starts counting afresh: the
      new count is one and its window runs from now. */
  lemma ExpiredCountRestarts(cache: Cache, db: Db, now: int, ip: Option<string>)
    requires AttemptsKey(ip) in cache ==> cache[AttemptsKey(ip)].expiry <= now
    ensures
      var out := Failure(cache, db, now, ip);
      && out.response == InvalidCredentials
      && out.cache[AttemptsKey(ip)] == Entry(Count(1), now + AttemptWindow)
  {
  }

  /** An identifier that matches several rows fails with a server error
      before the password is checked, and the failure is not counted. */
  lemma AmbiguousLoginNotCounted(cache: Cache, db: Db, now: int, ip: Option<string>, data: Payload, backend: Backend)
    requires !Truthy(Get(cache, LockoutKey(ip), now))
    requires ValidateLogin(data).Ok?
    requires Resolve(db.users, ValidateLogin(data).value.username) == Ambiguous
    ensures Login(cache, db, now, ip, data, backend) == Outcome(ServerError, cache, db)
  {
  }


  /** The answers to a run of requests from one address: the `k`-th
      carries the body `datas[k]` and arrives at `times[k]`. */
  function Replay(cache: Cache, db: Db, ip: Option<string>, datas: seq<Payload>, backend: Backend, times: seq<int>): (rs: seq<LoginResponse>)
    requires |datas| == |times|
    ensures |rs| == |times|
    decreases |times|
  {
    if times == [] then []
    else
      var out := Login(cache, db, times[0], ip, datas[0], backend);
      [out.response] + Replay(out.cache, out.db, ip, datas[1..], backend, times[1..])
  }

  /** The serializer's results for a run of request bodies. */
  function ValidateAll(datas: seq<Payload>): (vs: seq<Result<Credentials, Errors>>)
    ensures |vs| == |datas|
    ensures forall k :: 0 <= k < |datas| ==> vs[k] == ValidateLogin(datas[k])
  {
    seq(|datas|, k requires 0 <= k < |datas| => ValidateLogin(datas[k]))
  }

  /** `Replay` once the serializer's results `vs` are known. */
  function ReplayValidated(cache: Cache, db: Db, ip: Option<string>, vs: seq<Result<Credentials, Errors>>, backend: Backend, times: seq<int>): (rs: seq<LoginResponse>)
    requires |vs| == |times|
    ensures |rs| == |times|
    decreases |times|
  {
    if times == [] then []
    else
      var out := Guarded(cache, db, times[0], ip, vs[0], backend);
      [out.response] + ReplayValidated(out.cache, out.db, ip, vs[1..], backend, times[1..])
  }

  lemma {:induction false} ReplayIsValidated(cache: Cache, db: Db, ip: Option<string>, datas: seq<Payload>, backend: Backend, times: seq<int>)
    requires |datas| == |times|
    ensures Replay(cache, db, ip, datas, backend, times) == ReplayValidated(cache, db, ip, ValidateAll(datas), backend, times)
    decreases |times|
  {
    if times != [] {
      var out := Login(cache, db, times[0], ip, datas[0], backend);
      assert out == Guarded(cache, db, times[0], ip, ValidateAll(datas)[0], backend);
      assert ValidateAll(datas)[1..] == ValidateAll(datas[1..]);
      ReplayIsValidated(out.cache, out.db, ip, datas[1..], backend, times[1..]);
    }
  }

  /** While the lockout entry lives, every request is refused and changes
      nothing, whatever it carries. */
  lemma {:induction false} ReplayStaysLocked(cache: Cache, db: Db, ip: Option<string>, vs: seq<Result<Credentials, Errors>>, backend: Backend, times: seq<int>)
    requires |vs| == |times|
    requires LockoutKey(ip) in cache && cache[LockoutKey(ip)].value == Flag(true)
    requires forall j :: 0 <= j < |times| ==> times[j] < cache[LockoutKey(ip)].expiry
    ensures forall k :: 0 <= k < |times| ==> ReplayValidated(cache, db, ip, vs, backend, times)[k] == Locked
    decreases |times|
  {
    if times != [] {
      ReplayStaysLocked(cache, db, ip, vs[1..], backend, times[1..]);
    }
  }

  /** The requests after a first one that set a lockout, all inside its
      period, are refused. */
  lemma LockedAfterFirst(cache: Cache, db: Db, ip: Option<string>, vs: seq<Result<Credentials, Errors>>, backend: Backend, times: seq<int>)
    requires times != [] && |vs| == |times|
    requires LockoutKey(ip) in cache && cache[LockoutKey(ip)] == Entry(Flag(true), times[0] + LockoutPeriod)
    requires forall j :: 0 < j < |times| ==> times[j] < times[0] + LockoutPeriod
    ensures forall k :: 0 <= k < |times| - 1 ==> ReplayValidated(cache, db, ip, vs[1..], backend, times[1..])[k] == Locked
  {
    var rest := times[1..];
    forall j | 0 <= j < |rest|
      ensures rest[j] < cache[LockoutKey(ip)].expiry
    {
      assert rest[j] == times[j + 1];
    }
    ReplayStaysLocked(cache, db, ip, vs[1..], backend, rest);
  }

  /** One step of a run that starts with a failing request from an
      address that is not locked out: a counted failure, then the rest of
      the run against the cache it left behind. */
  lemma ReplayFailing(cache: Cache, db: Db, ip: Option<string>, vs: seq<Result<Credentials, Errors>>, backend: Backend, times: seq<int>)
    requires times != [] && |vs| == |times|
    requires FailsCredentials(db, vs[0], backend)
    requires !Truthy(Get(cache, LockoutKey(ip), times[0]))
    ensures
      var out := Failure(cache, db, times[0], ip);
      ReplayValidated(cache, db, ip, vs, backend, times) == [out.response] + ReplayValidated(out.cache, db, ip, vs[1..], backend, times[1..])
  {
    FailingGuarded(cache, db, times[0], ip, vs[0], backend);
  }

  /** The requests of a run that must fail authentication: those that
      come before the count, starting from `n`, reaches the limit. */
  predicate FailingUntilLock(db: Db, vs: seq<Result<Credentials, Errors>>, backend: Backend, n: int) {
    forall k :: 0 <= k < |vs| && n + k < MaxAttempts ==> FailsCredentials(db, vs[k], backend)
  }

  /** The rest of a run meets the failing condition with one more counted
      failure. */
  lemma FailingShifts(db: Db, vs: seq<Result<Credentials, Errors>>, backend: Backend, n: int)
    requires vs != [] && FailingUntilLock(db, vs, backend, n)
    ensures FailingUntilLock(db, vs[1..], backend, n + 1)
  {
    forall k | 0 <= k < |vs| - 1 && n + 1 + k < MaxAttempts
      ensures FailsCredentials(db, vs[1..][k], backend)
    {
      assert vs[1..][k] == vs[k + 1];
    }
  }

  /** The answer to the `k`-th of a run of failures that started after `n`
      counted ones. */
  function Expected(n: int, k: int): LoginResponse {
    if n + k + 1 < MaxAttempts then InvalidCredentials
    else if n + k + 1 == MaxAttempts then NowLocked
    else Locked
  }

  /** The lockout entry of the address, if any, has expired by `t`. */
  predicate LockoutDeadBy(cache: Cache, ip: Option<string>, t: int) {
    LockoutKey(ip) in cache ==> cache[LockoutKey(ip)].expiry <= t
  }

  /** The timing conditions of a run of failures, after its first request:
      the rest of the run meets them with one more counted failure. */
  lemma ScheduleShifts(times: seq<int>, n: int)
    requires times != [] && n + 1 < MaxAttempts
    requires forall k :: 0 <= k < |times| - 1 && n + k + 1 < MaxAttempts ==> times[k] <= times[k + 1] < times[k] + AttemptWindow
    requires forall j :: MaxAttempts - n - 1 < j < |times| ==> times[j] < times[MaxAttempts - n - 1] + LockoutPeriod
    ensures var rest := times[1..];
      && (forall k :: 0 <= k < |rest| - 1 && n + 1 + k + 1 < MaxAttempts ==> rest[k] <= rest[k + 1] < rest[k] + AttemptWindow)
      && (forall j :: MaxAttempts - (n + 1) - 1 < j < |rest| ==> rest[j] < rest[MaxAttempts - (n + 1) - 1] + LockoutPeriod)
  {
    var rest := times[1..];
    forall k | 0 <= k < |rest| - 1 && n + 1 + k + 1 < MaxAttempts
      ensures rest[k] <= rest[k + 1] < rest[k] + AttemptWindow
    {
      assert rest[k + 1] == times[k + 2] && rest[k] == times[k + 1];
    }
    forall j | MaxAttempts - (n + 1) - 1 < j < |rest|
      ensures rest[j] < rest[MaxAttempts - (n + 1) - 1] + LockoutPeriod
    {
      assert rest[j] == times[j + 1];
    }
  }

  /** One counted failure in a run that started from `n` counted failures
      and no live lockout: below the limit it answers 401, sets no lockout
      and leaves a count of `n + 1` that the next request, inside the
      window, still sees, with any old lockout still expired then; at the
      limit it answers 429 and sets the lockout. */
  lemma FailureStep(cache: Cache, db: Db, ip: Option<string>, times: seq<int>, n: int)
    requires times != [] && 0 <= n < MaxAttempts
    requires LockoutDeadBy(cache, ip, times[0])
    requires PriorAttempts(cache, AttemptsKey(ip), times[0]) == n
    requires |times| > 1 && n + 1 < MaxAttempts ==> times[0] <= times[1] < times[0] + AttemptWindow
    ensures
      var out := Failure(cache, db, times[0], ip);
      && out.db == db
      && (n + 1 < MaxAttempts ==>
            && out.response == InvalidCredentials
            && (|times| > 1 ==>
                  && LockoutDeadBy(out.cache, ip, times[1])
                  && PriorAttempts(out.cache, AttemptsKey(ip), times[1]) == n + 1))
      && (n + 1 >= MaxAttempts ==>
            && out.response == NowLocked
            && LockoutKey(ip) in out.cache
            && out.cache[LockoutKey(ip)] == Entry(Flag(true), times[0] + LockoutPeriod))
  {
    KeysDistinct(ip, ip);
  }

  /** A run of requests from one address, starting from `n` counted
      failures and no live lockout, each at or after the one before and
      within its window, whose requests fail authentication until the
      count reaches the limit, is answered 401 until then, 429 with a new
      lockout at the limit, and 429 for every request in the thirty
      minutes after that, whatever those later requests carry. */
  lemma {:induction false} FailuresLockOut(cache: Cache, db: Db, ip: Option<string>, vs: seq<Result<Credentials, Errors>>, backend: Backend, times: seq<int>, n: int)
    requires |vs| == |times|
    requires FailingUntilLock(db, vs, backend, n)
    requires 0 <= n < MaxAttempts
    requires |times| > 0 ==> LockoutDeadBy(cache, ip, times[0])
    requires |times| > 0 ==> PriorAttempts(cache, AttemptsKey(ip), times[0]) == n
    requires forall k :: 0 <= k < |times| - 1 && n + k + 1 < MaxAttempts ==> times[k] <= times[k + 1] < times[k] + AttemptWindow
    requires forall j :: MaxAttempts - n - 1 < j < |times| ==> times[j] < times[MaxAttempts - n - 1] + LockoutPeriod
    ensures
      var rs := ReplayValidated(cache, db, ip, vs, backend, times);
      forall k :: 0 <= k < |rs| ==> rs[k] == Expected(n, k)
    decreases |times|, 1
  {
    if times != [] {
      if n + 1 < MaxAttempts {
        FailureBelowLimit(cache, db, ip, vs, backend, times, n);
      } else {
        FailureAtLimit(cache, db, ip, vs, backend, times, n);
      }
    }
  }

  /** A failure that leaves the count below the limit: 401, then the rest
      of the run from one more counted failure. */
  lemma {:induction false} FailureBelowLimit(cache: Cache, db: Db, ip: Option<string>, vs: seq<Result<Credentials, Errors>>, backend: Backend, times: seq<int>, n: int)
    requires times != [] && n + 1 < MaxAttempts
    requires |vs| == |times|
    requires FailingUntilLock(db, vs, backend, n)
    requires 0 <= n < MaxAttempts
    requires |times| > 0 ==> LockoutDeadBy(cache, ip, times[0])
    requires |times| > 0 ==> PriorAttempts(cache, AttemptsKey(ip), times[0]) == n
    requires forall k :: 0 <= k < |times| - 1 && n + k + 1 < MaxAttempts ==> times[k] <= times[k + 1] < times[k] + AttemptWindow
    requires forall j :: MaxAttempts - n - 1 < j < |times| ==> times[j] < times[MaxAttempts - n - 1] + LockoutPeriod
    ensures
      var rs := ReplayValidated(cache, db, ip, vs, backend, times);
      forall k :: 0 <= k < |rs| ==> rs[k] == Expected(n, k)
    decreases |times|, 0
  {
    ReplayFailing(cache, db, ip, vs, backend, times);
    FailureStep(cache, db, ip, times, n);
    var out := Failure(cache, db, times[0], ip);
    var rest := times[1..];
    var tail := ReplayValidated(out.cache, db, ip, vs[1..], backend, rest);
    var rs := ReplayValidated(cache, db, ip, vs, backend, times);
    assert rs == [InvalidCredentials] + tail;
    ScheduleShifts(times, n);
    FailingShifts(db, vs, backend, n);
    FailuresLockOut(out.cache, db, ip, vs[1..], backend, rest, n + 1);
    forall k | 1 <= k < |rs|
      ensures rs[k] == Expected(n, k)
    {
      assert rs[k] == tail[k - 1] == Expected(n + 1, k - 1);
    }
  }

  /** The failure that brings the count to the limit: 429 with a new
      lockout, under which the rest of the run is refused. */
  lemma FailureAtLimit(cache: Cache, db: Db, ip: Option<string>, vs: seq<Result<Credentials, Errors>>, backend: Backend, times: seq<int>, n: int)
    requires times != [] && n + 1 >= MaxAttempts
    requires |vs| == |times|
    requires FailingUntilLock(db, vs, backend, n)
    requires 0 <= n < MaxAttempts
    requires |times| > 0 ==> LockoutDeadBy(cache, ip, times[0])
    requires |times| > 0 ==> PriorAttempts(cache, AttemptsKey(ip), times[0]) == n
    requires forall j :: MaxAttempts - n - 1 < j < |times| ==> times[j] < times[MaxAttempts - n - 1] + LockoutPeriod
    ensures
      var rs := ReplayValidated(cache, db, ip, vs, backend, times);
      forall k :: 0 <= k < |rs| ==> rs[k] == Expected(n, k)
  {
    ReplayFailing(cache, db, ip, vs, backend, times);
    FailureStep(cache, db, ip, times, n);
    var out := Failure(cache, db, times[0], ip);
    var tail := ReplayValidated(out.cache, db, ip, vs[1..], backend, times[1..]);
    var rs := ReplayValidated(cache, db, ip, vs, backend, times);
    assert rs == [NowLocked] + tail;
    LockedAfterFirst(out.cache, db, ip, vs, backend, times);
    forall k | 1 <= k < |rs|
      ensures rs[k] == Expected(n, k)
    {
      assert rs[k] == tail[k - 1] == Locked;
    }
  }

  /** From an address with no live count and no live lockout (expired
      entries may linger), five failed logins in a row, each within
      fifteen minutes after the previous one and each with a body of its
      own, are answered 401, 401, 401, 401, 429, and the address stays
      locked for thirty minutes after the fifth, whatever the later
      requests carry, a correct password included. */
  lemma FiveFailuresLock(cache: Cache, db: Db, ip: Option<string>, datas: seq<Payload>, backend: Backend, times: seq<int>)
    requires |datas| == |times| >= 5
    requires forall k :: 0 <= k < 5 ==> FailsAuth(db, datas[k], backend)
    requires Get(cache, AttemptsKey(ip), times[0]).None? && Get(cache, LockoutKey(ip), times[0]).None?
    requires forall k :: 0 <= k < 4 ==> times[k] <= times[k + 1] < times[k] + AttemptWindow
    requires forall j :: 4 < j < |times| ==> times[j] < times[4] + LockoutPeriod
    ensures forall k :: 0 <= k < 4 ==> Replay(cache, db, ip, datas, backend, times)[k] == InvalidCredentials
    ensures Replay(cache, db, ip, datas, backend, times)[4] == NowLocked
    ensures forall k :: 5 <= k < |times| ==> Replay(cache, db, ip, datas, backend, times)[k] == Locked
  {
    ReplayIsValidated(cache, db, ip, datas, backend, times);
    FailingBodies(db, datas, backend);
    FailuresLockOut(cache, db, ip, ValidateAll(datas), backend, times, 0);
    ExpectedFromZero();
  }

  /** Five bodies that fail authentication make a failing run from zero. */
  lemma FailingBodies(db: Db, datas: seq<Payload>, backend: Backend)
    requires |datas| >= 5
    requires forall k :: 0 <= k < 5 ==> FailsAuth(db, datas[k], backend)
    ensures FailingUntilLock(db, ValidateAll(datas), backend, 0)
  {
    var vs := ValidateAll(datas);
    forall k | 0 <= k < |vs| && k < MaxAttempts
      ensures FailsCredentials(db, vs[k], backend)
    {
      assert FailsAuth(db, datas[k], backend);
    }
  }

  /** The answers to a run of failures from zero counted ones. */
  lemma ExpectedFromZero()
    ensures forall k :: 0 <= k < 4 ==> Expected(0, k) == InvalidCredentials
    ensures Expected(0, 4) == NowLocked
    ensures forall k :: 5 <= k ==> Expected(0, k) == Locked
  {
  }

  /** A successful login clears the address's count and lockout entries,
      so the next failure starts counting from one. */
  lemma SuccessResetsCount(cache: Cache, db: Db, now: int, ip: Option<string>, data: Payload, backend: Backend, later: int)
    requires Login(cache, db, now, ip, data, backend).response.LoggedIn?
    ensures
      var c := Login(cache, db, now, ip, data, backend).cache;
      && AttemptsKey(ip) !in c && LockoutKey(ip) !in c
      && PriorAttempts(c, AttemptsKey(ip), later) == 0
  {
  }
}
