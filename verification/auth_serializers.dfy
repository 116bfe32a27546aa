/** The registration and login serializers: which request fields they
    read, how each field is cleaned, the cross-field password check, and
    how a validated registration becomes a user row. */
module AuthSerializers {
  import opened Base
  import opened CustomUsers

  /** A request body: field name to submitted text. Keys the serializers
      do not declare are ignored. */
  type Payload = map<string, string>

  /** The fields the serializers declare. */
  datatype Field = Username | Email | PhoneNumber | Password | ConfirmPassword | RoleField

  /** The request key of each field. */
  function Name(f: Field): string {
    match f
    case Username => "username"
    case Email => "email"
    case PhoneNumber => "phone_number"
    case Password => "password"
    case ConfirmPassword => "confirm_password"
    case RoleField => "role"
  }

  /** The request key of every field, spelled out. */
  lemma FieldNames()
    ensures Name(Username) == "username" && Name(Email) == "email"
    ensures Name(PhoneNumber) == "phone_number" && Name(Password) == "password"
    ensures Name(ConfirmPassword) == "confirm_password" && Name(RoleField) == "role"
  {
  }

  /** The registration fields, in declaration order. */
  const RegistrationFields: seq<Field> := [Username, Email, PhoneNumber, Password, ConfirmPassword, RoleField]

  /** Fields that must be present in a registration request. */
  const RegistrationRequired: set<Field> := {Username, PhoneNumber, Password, ConfirmPassword}

  /** The fields of the login serializer; both are required, and the
      password is write-only. */
  const LoginFields: set<Field> := {Username, Password}

  /** Exactly six fields are accepted on registration, under the six keys
      username, email, phone_number, password, confirm_password and role. */
  lemma RegistrationKeys()
    ensures |RegistrationFields| == 6
    ensures forall i, j :: 0 <= i < j < |RegistrationFields| ==> RegistrationFields[i] != RegistrationFields[j]
    ensures forall f: Field :: f in RegistrationFields
    ensures RegistrationRequired + {Email, RoleField} == AllFields
    ensures (set f | f in RegistrationFields :: Name(f))
         == {"username", "email", "phone_number", "password", "confirm_password", "role"}
  {
    forall f: Field ensures f in RegistrationFields {
      match f
      case Username => assert RegistrationFields[0] == f;
      case Email => assert RegistrationFields[1] == f;
      case PhoneNumber => assert RegistrationFields[2] == f;
      case Password => assert RegistrationFields[3] == f;
      case ConfirmPassword => assert RegistrationFields[4] == f;
      case RoleField => assert RegistrationFields[5] == f;
    }
    var names := set f | f in RegistrationFields :: Name(f);
    assert Name(Username) in names && Name(Email) in names && Name(PhoneNumber) in names;
    assert Name(Password) in names && Name(ConfirmPassword) in names && Name(RoleField) in names;
  }

  /** Validated data: a value for each submitted declared field. */
  type Attrs = map<Field, string>

  /** Why a field was rejected: one code per failed check. */
  datatype FieldError =
    | Required       // the field is missing
    | Blank          // empty, or only whitespace
    | NullCharacter  // contains U+0000
    | Invalid        // rejected by a validator
    | TooLong        // longer than the column
    | NotUnique      // another user already has this value
    | InvalidChoice  // not one of the role values
    | Mismatch       // password and confirmation differ

  /** The failures of one field. A field runs all of its validators and
      reports every one that fails, so a field may carry several codes. */
  type Codes = set<FieldError>

  /** The serializer's error report, keyed on the offending fields. */
  type Errors = map<Field, Codes>

  /** The code of a check, if it failed. */
  function CodeIf(failed: bool, code: FieldError): (cs: Codes)
    ensures code in cs <==> failed
    ensures cs <= {code}
  {
    if failed then {code} else {}
  }

  /** The codes of a cleaning result: none when it succeeded. */
  function CodesOf<T>(r: Result<T, Codes>): Codes {
    if r.Err? then r.error else {}
  }

  /** Validators whose code is not part of this model: the username
      validator (with its length limit), the email validator (with the
      column's 254-character limit) and the configured password
      validators. Each reports as one `Invalid` code. */
  datatype Checks = Checks(
    usernameOk: string -> bool,
    emailOk: string -> bool,
    passwordOk: string -> bool)

  /** Every declared field. */
  const AllFields: set<Field> := {Username, Email, PhoneNumber, Password, ConfirmPassword, RoleField}

  lemma AllFieldsListed()
    ensures forall f: Field :: f in AllFields && Name(f) in DeclaredNames
  {
    forall f: Field ensures f in AllFields && Name(f) in DeclaredNames {
      match f
      case Username =>
      case Email =>
      case PhoneNumber =>
      case Password =>
      case ConfirmPassword =>
      case RoleField =>
    }
  }

  /** The request keys the serializers declare. */
  const DeclaredNames: set<string> :=
    {"username", "email", "phone_number", "password", "confirm_password", "role"}

  /** The declared fields present in a request body, with their raw text. */
  type Submission = map<Field, string>

  function SubmissionOf(data: Payload): (sub: Submission)
    ensures forall f :: f in sub <==> Name(f) in data
    ensures forall f :: f in sub ==> sub[f] == data[Name(f)]
  {
    AllFieldsListed();
    map f | f in AllFields && Name(f) in data :: data[Name(f)]
  }

  /** A text field's value after trimming. */
  function Trimmed(sub: Submission, f: Field): string
    requires f in sub
  {
    Strip(sub[f])
  }

  /** Cleaning of a character field: surrounding whitespace is trimmed;
      an empty result is refused as blank unless blanks are allowed, in
      which case the empty string is returned without running validators.
      Otherwise every validator runs and every failure is reported: the
      NUL-character check every character field has, and the field's own
      checks, whose failures on the trimmed text are `own`. */
  function CleanText(raw: string, allowBlank: bool, own: Codes): (r: Result<string, Codes>)
    ensures r.Ok? <==> (Strip(raw) == [] && allowBlank) || (Strip(raw) != [] && '\0' !in Strip(raw) && own == {})
    ensures r.Ok? ==> r.value == Strip(raw)
    ensures r.Err? ==> r.error != {}
    ensures Strip(raw) == [] && !allowBlank ==> r == Err({Blank})
    ensures Strip(raw) != [] ==>
      && (NullCharacter in CodesOf(r) <==> '\0' in Strip(raw) || NullCharacter in own)
      && own <= CodesOf(r) <= own + {NullCharacter}
  {
    var v := Strip(raw);
    if v == [] then (if allowBlank then Ok([]) else Err({Blank}))
    else
      var codes := CodeIf('\0' in v, NullCharacter) + own;
      if codes == {} then Ok(v) else Err(codes)
  }

  predicate UsernameAcceptable(sub: Submission, users: seq<User>, checks: Checks) {
    && Username in sub
    && var v := Trimmed(sub, Username);
       && v != [] && '\0' !in v && checks.usernameOk(v)
       && forall i :: 0 <= i < |users| ==> users[i].username != v
  }

  /** The username runs the username validator and the uniqueness check
      besides the NUL check, and reports each of them that fails. */
  function CleanUsername(sub: Submission, users: seq<User>, checks: Checks): (r: Result<string, Codes>)
    ensures r.Ok? <==> UsernameAcceptable(sub, users, checks)
    ensures r.Ok? ==> r.value == Trimmed(sub, Username)
    ensures r.Err? ==> r.error != {}
  {
    if Username !in sub then Err({Required})
    else
      var v := Strip(sub[Username]);
      CleanText(sub[Username], false,
        CodeIf(!checks.usernameOk(v), Invalid)
        + CodeIf(exists i :: 0 <= i < |users| && users[i].username == v, NotUnique))
  }

  /** The username's report: required when missing, blank when it trims
      to nothing, and otherwise one code for each check that fails. */
  lemma UsernameCodes(sub: Submission, users: seq<User>, checks: Checks)
    ensures var r := CleanUsername(sub, users, checks);
      && (Username !in sub ==> r == Err({Required}))
      && (Username in sub ==>
            var v := Trimmed(sub, Username);
            && (r == Err({Blank}) <==> v == [])
            && (v != [] ==>
                  && (NullCharacter in CodesOf(r) <==> '\0' in v)
                  && (Invalid in CodesOf(r) <==> !checks.usernameOk(v))
                  && (NotUnique in CodesOf(r) <==> exists i :: 0 <= i < |users| && users[i].username == v)
                  && CodesOf(r) <= {NullCharacter, Invalid, NotUnique}))
  {
  }

  /** The email is optional; a blank email is accepted as the empty string
      without running the validators. */
  predicate EmailAcceptable(sub: Submission, users: seq<User>, checks: Checks) {
    Email in sub ==>
      var v := Trimmed(sub, Email);
      || v == []
      || ('\0' !in v && checks.emailOk(v) && forall i :: 0 <= i < |users| ==> users[i].email != Some(v))
  }

  /** A non-blank email runs the email validator and the uniqueness check
      besides the NUL check, and reports each of them that fails. */
  function CleanEmail(sub: Submission, users: seq<User>, checks: Checks): (r: Result<Option<string>, Codes>)
    ensures r.Ok? <==> EmailAcceptable(sub, users, checks)
    ensures r.Ok? ==> r.value == (if Email in sub then Some(Trimmed(sub, Email)) else None)
    ensures r.Err? ==> r.error != {}
  {
    if Email !in sub then Ok(None)
    else
      var v := Strip(sub[Email]);
      var cleaned :- CleanText(sub[Email], true,
        CodeIf(!checks.emailOk(v), Invalid)
        + CodeIf(exists i :: 0 <= i < |users| && users[i].email == Some(v), NotUnique));
      Ok(Some(cleaned))
  }

  /** The email's report: never required or blank, and for a non-blank
      email one code for each check that fails. */
  lemma EmailCodes(sub: Submission, users: seq<User>, checks: Checks)
    ensures var r := CleanEmail(sub, users, checks);
      r.Err? ==>
        var v := Trimmed(sub, Email);
        && v != []
        && (NullCharacter in r.error <==> '\0' in v)
        && (Invalid in r.error <==> !checks.emailOk(v))
        && (NotUnique in r.error <==> exists i :: 0 <= i < |users| && users[i].email == Some(v))
        && r.error <= {NullCharacter, Invalid, NotUnique}
  {
  }

  predicate PhoneAcceptable(sub: Submission, users: seq<User>) {
    && PhoneNumber in sub
    && var v := Trimmed(sub, PhoneNumber);
       && v != [] && '\0' !in v && |v| <= PhoneMaxLength
       && forall i :: 0 <= i < |users| ==> users[i].phone != v
  }

  /** The phone number runs the column's length limit and the uniqueness
      check besides the NUL check, and reports each of them that fails. */
  function CleanPhone(sub: Submission, users: seq<User>): (r: Result<string, Codes>)
    ensures r.Ok? <==> PhoneAcceptable(sub, users)
    ensures r.Ok? ==> r.value == Trimmed(sub, PhoneNumber)
    ensures r.Err? ==> r.error != {}
  {
    if PhoneNumber !in sub then Err({Required})
    else
      var v := Strip(sub[PhoneNumber]);
      CleanText(sub[PhoneNumber], false,
        CodeIf(|v| > PhoneMaxLength, TooLong)
        + CodeIf(exists i :: 0 <= i < |users| && users[i].phone == v, NotUnique))
  }

  /** The phone number's report: required when missing, blank when it
      trims to nothing, and otherwise one code for each check that fails. */
  lemma PhoneCodes(sub: Submission, users: seq<User>)
    ensures var r := CleanPhone(sub, users);
      && (PhoneNumber !in sub ==> r == Err({Required}))
      && (PhoneNumber in sub ==>
            var v := Trimmed(sub, PhoneNumber);
            && (r == Err({Blank}) <==> v == [])
            && (v != [] ==>
                  && (NullCharacter in CodesOf(r) <==> '\0' in v)
                  && (TooLong in CodesOf(r) <==> |v| > PhoneMaxLength)
                  && (NotUnique in CodesOf(r) <==> exists i :: 0 <= i < |users| && users[i].phone == v)
                  && CodesOf(r) <= {NullCharacter, TooLong, NotUnique}))
  {
  }

  /** A required text field with no uniqueness check; only `password`
      itself runs the password validators. */
  predicate SecretAcceptable(sub: Submission, f: Field, checks: Checks) {
    && f in sub
    && var v := Trimmed(sub, f);
       v != [] && '\0' !in v && (f == Password ==> checks.passwordOk(v))
  }

  function CleanSecret(sub: Submission, f: Field, checks: Checks): (r: Result<string, Codes>)
    ensures r.Ok? <==> SecretAcceptable(sub, f, checks)
    ensures r.Ok? ==> r.value == Trimmed(sub, f)
    ensures r.Err? ==> r.error != {}
  {
    if f !in sub then Err({Required})
    else
      var v := Strip(sub[f]);
      CleanText(sub[f], false, CodeIf(f == Password && !checks.passwordOk(v), Invalid))
  }

  /** The report of the password or its confirmation: required when
      missing, blank when it trims to nothing, and otherwise one code for
      each check that fails. */
  lemma SecretCodes(sub: Submission, f: Field, checks: Checks)
    ensures var r := CleanSecret(sub, f, checks);
      && (f !in sub ==> r == Err({Required}))
      && (f in sub ==>
            var v := Trimmed(sub, f);
            && (r == Err({Blank}) <==> v == [])
            && (v != [] ==>
                  && (NullCharacter in CodesOf(r) <==> '\0' in v)
                  && (Invalid in CodesOf(r) <==> f == Password && !checks.passwordOk(v))
                  && CodesOf(r) <= {NullCharacter, Invalid}))
  {
  }

  /** The role is optional and, when given, must be one of the five stored
      values exactly (no trimming). */
  predicate RoleAcceptable(sub: Submission) {
    RoleField in sub ==> sub[RoleField] in RoleValues
  }

  function CleanRole(sub: Submission): (r: Result<Option<string>, Codes>)
    ensures r.Ok? <==> RoleAcceptable(sub)
    ensures r.Ok? ==> r.value == (if RoleField in sub then Some(sub[RoleField]) else None)
    ensures r.Err? ==> r.error == {InvalidChoice}
  {
    if RoleField !in sub then Ok(None)
    else if ParseRole(sub[RoleField]).None? then Err({InvalidChoice})
    else Ok(Some(sub[RoleField]))
  }

  /** Records the error of field `f`, if its cleaning failed; the errors
      of other fields are kept. */
  function AddError<T>(errs: Errors, f: Field, r: Result<T, Codes>): (out: Errors)
    ensures out.Keys == errs.Keys + (if r.Err? then {f} else {})
    ensures r.Err? ==> out[f] == r.error
    ensures forall g :: g in errs && g != f ==> out[g] == errs[g]
  {
    if r.Err? then errs[f := r.error] else errs
  }

  /** The declarative acceptance condition of a registration request,
      field by field, before the password comparison. */
  predicate FieldsAcceptable(sub: Submission, users: seq<User>, checks: Checks) {
    && UsernameAcceptable(sub, users, checks)
    && EmailAcceptable(sub, users, checks)
    && PhoneAcceptable(sub, users)
    && SecretAcceptable(sub, Password, checks)
    && SecretAcceptable(sub, ConfirmPassword, checks)
    && RoleAcceptable(sub)
  }

  /** What validated registration data looks like: all required fields
      present and a role (if any) that is a real choice. */
  predicate RegistrationShape(attrs: Attrs) {
    && RegistrationRequired <= attrs.Keys
    && (RoleField in attrs ==> attrs[RoleField] in RoleValues)
  }

  /** The serializer's cross-field `validate` hook: a password that
      differs from its confirmation is an error keyed on `password`;
      otherwise the attributes are returned unchanged. */
  function ValidatePasswords(attrs: Attrs): (r: Result<Attrs, Errors>)
    requires Password in attrs && ConfirmPassword in attrs
    ensures r.Err? <==> attrs[Password] != attrs[ConfirmPassword]
    ensures r.Err? ==> r.error == map[Password := {Mismatch}]
    ensures r.Ok? ==> r.value == attrs
  {
    if attrs[Password] != attrs[ConfirmPassword] then Err(map[Password := {Mismatch}])
    else Ok(attrs)
  }

  /** The codes the cleaning of one registration field reports. */
  function FieldCheck(sub: Submission, users: seq<User>, checks: Checks, f: Field): Codes {
    match f
    case Username => CodesOf(CleanUsername(sub, users, checks))
    case Email => CodesOf(CleanEmail(sub, users, checks))
    case PhoneNumber => CodesOf(CleanPhone(sub, users))
    case Password => CodesOf(CleanSecret(sub, Password, checks))
    case ConfirmPassword => CodesOf(CleanSecret(sub, ConfirmPassword, checks))
    case RoleField => CodesOf(CleanRole(sub))
  }

  /** The field-level errors of a registration request, reported for all
      declared fields together: each field that fails its cleaning carries
      its own error under its own key, and no other field appears. */
  function FieldErrors(sub: Submission, users: seq<User>, checks: Checks): (errs: Errors)
    ensures errs == map[] <==> FieldsAcceptable(sub, users, checks)
    ensures forall f :: f in errs <==> FieldCheck(sub, users, checks, f) != {}
    ensures forall f :: f in errs ==> errs[f] == FieldCheck(sub, users, checks, f)
  {
    AllFieldsListed();
    NoFieldFails(sub, users, checks);
    var errs := map f | f in AllFields && FieldCheck(sub, users, checks, f) != {} :: FieldCheck(sub, users, checks, f);
    assert (forall f: Field :: f !in errs) <==> (forall f: Field :: FieldCheck(sub, users, checks, f) == {}) by {
      forall f: Field
        ensures f in errs <==> FieldCheck(sub, users, checks, f) != {}
      {
        assert f in AllFields;
      }
    }
    assert errs == map[] <==> forall f: Field :: f !in errs by {
      if forall f: Field :: f !in errs {
        assert errs.Keys == {};
      }
    }
    errs
  }

  /** Field by field: the error report names a field exactly when that
      field's own cleaning fails, with that cleaning's error. */
  lemma FieldErrorsPerField(sub: Submission, users: seq<User>, checks: Checks)
    ensures var errs := FieldErrors(sub, users, checks);
      && (Username in errs <==> CleanUsername(sub, users, checks).Err?)
      && (Username in errs ==> errs[Username] == CleanUsername(sub, users, checks).error)
      && (Email in errs <==> CleanEmail(sub, users, checks).Err?)
      && (Email in errs ==> errs[Email] == CleanEmail(sub, users, checks).error)
      && (PhoneNumber in errs <==> CleanPhone(sub, users).Err?)
      && (PhoneNumber in errs ==> errs[PhoneNumber] == CleanPhone(sub, users).error)
      && (Password in errs <==> CleanSecret(sub, Password, checks).Err?)
      && (Password in errs ==> errs[Password] == CleanSecret(sub, Password, checks).error)
      && (ConfirmPassword in errs <==> CleanSecret(sub, ConfirmPassword, checks).Err?)
      && (ConfirmPassword in errs ==> errs[ConfirmPassword] == CleanSecret(sub, ConfirmPassword, checks).error)
      && (RoleField in errs <==> CleanRole(sub).Err?)
      && (RoleField in errs ==> errs[RoleField] == CleanRole(sub).error)
  {
  }

  /** A username with a NUL character that the username validator also
      refuses is reported with both failures, not just the first. */
  lemma UsernameReportsEveryFailure(sub: Submission, users: seq<User>, checks: Checks)
    requires Username in sub && '\0' in Trimmed(sub, Username)
    requires !checks.usernameOk(Trimmed(sub, Username))
    ensures Username in FieldErrors(sub, users, checks)
    ensures {NullCharacter, Invalid} <= FieldErrors(sub, users, checks)[Username]
  {
    UsernameCodes(sub, users, checks);
    FieldErrorsPerField(sub, users, checks);
  }

  /** No field fails its cleaning exactly when the request is acceptable
      field by field. */
  lemma NoFieldFails(sub: Submission, users: seq<User>, checks: Checks)
    ensures (forall f: Field :: FieldCheck(sub, users, checks, f) == {}) <==> FieldsAcceptable(sub, users, checks)
  {
    if FieldsAcceptable(sub, users, checks) {
      forall f: Field
        ensures FieldCheck(sub, users, checks, f) == {}
      {
        match f
        case Username =>
        case Email =>
        case PhoneNumber =>
        case Password =>
        case ConfirmPassword =>
        case RoleField =>
      }
    } else {
      assert FieldCheck(sub, users, checks, Username) != {}
          || FieldCheck(sub, users, checks, Email) != {}
          || FieldCheck(sub, users, checks, PhoneNumber) != {}
          || FieldCheck(sub, users, checks, Password) != {}
          || FieldCheck(sub, users, checks, ConfirmPassword) != {}
          || FieldCheck(sub, users, checks, RoleField) != {};
    }
  }

  /** The fields a valid registration request yields: the required ones
      and whichever optional ones were submitted. */
  function SubmittedFields(sub: Submission): set<Field> {
    RegistrationRequired
      + (if Email in sub then {Email} else {})
      + (if RoleField in sub then {RoleField} else {})
  }

  /** Every validated value is the submitted text of its field, trimmed,
      except the role, which is taken as submitted. */
  predicate ValuesFromRequest(attrs: Attrs, sub: Submission) {
    && (Username in attrs ==> Username in sub && attrs[Username] == Trimmed(sub, Username))
    && (PhoneNumber in attrs ==> PhoneNumber in sub && attrs[PhoneNumber] == Trimmed(sub, PhoneNumber))
    && (Password in attrs ==> Password in sub && attrs[Password] == Trimmed(sub, Password))
    && (ConfirmPassword in attrs ==> ConfirmPassword in sub && attrs[ConfirmPassword] == Trimmed(sub, ConfirmPassword))
    && (Email in attrs ==> Email in sub && attrs[Email] == Trimmed(sub, Email))
    && (RoleField in attrs ==> RoleField in sub && attrs[RoleField] == sub[RoleField])
  }

  /** The cleaned attributes of an acceptable registration request: the
      declared fields that were submitted, text fields trimmed and the
      role as given. */
  function CleanAttributes(sub: Submission): (attrs: Attrs)
    requires RegistrationRequired <= sub.Keys
    ensures attrs.Keys == SubmittedFields(sub)
    ensures ValuesFromRequest(attrs, sub)
  {
    var base := map[Username := Trimmed(sub, Username),
                    PhoneNumber := Trimmed(sub, PhoneNumber),
                    Password := Trimmed(sub, Password),
                    ConfirmPassword := Trimmed(sub, ConfirmPassword)];
    var withEmail := if Email in sub then base[Email := Trimmed(sub, Email)] else base;
    if RoleField in sub then withEmail[RoleField := sub[RoleField]] else withEmail
  }

  /** A submission whose fields are all acceptable carries every required
      field. */
  lemma AcceptableHasRequired(sub: Submission, users: seq<User>, checks: Checks)
    requires FieldsAcceptable(sub, users, checks)
    ensures RegistrationRequired <= sub.Keys
  {
  }

  /** Field-level validation: every declared field is cleaned and the
      errors of all fields are reported together; when none fails, the
      cleaned values of the submitted fields are the attributes. */
  function ValidateFields(sub: Submission, users: seq<User>, checks: Checks): (r: Result<Attrs, Errors>)
    ensures r.Ok? <==> FieldsAcceptable(sub, users, checks)
    ensures r.Ok? ==> r.value.Keys == SubmittedFields(sub) && RegistrationShape(r.value)
    ensures r.Ok? ==> ValuesFromRequest(r.value, sub)
    ensures r.Err? ==> r.error == FieldErrors(sub, users, checks) && |r.error| > 0
  {
    var errs := FieldErrors(sub, users, checks);
    if errs != map[] then
      assert |errs| > 0 by { assert errs.Keys != {}; }
      Err(errs)
    else
      AcceptableHasRequired(sub, users, checks);
      Ok(CleanAttributes(sub))
  }

  /** The validation of a submission: field-level cleaning of every
      declared field, then the password comparison. */
  function ValidateSubmission(sub: Submission, users: seq<User>, checks: Checks): (r: Result<Attrs, Errors>)
    ensures r.Ok? <==>
      && FieldsAcceptable(sub, users, checks)
      && Trimmed(sub, Password) == Trimmed(sub, ConfirmPassword)
    ensures r.Ok? ==> r.value.Keys == SubmittedFields(sub) && RegistrationShape(r.value)
    ensures r.Ok? ==> r.value[Password] == r.value[ConfirmPassword]
    ensures r.Ok? ==> ValuesFromRequest(r.value, sub)
    ensures r.Err? ==> |r.error| > 0
    ensures FieldsAcceptable(sub, users, checks) && r.Err? ==> r.error == map[Password := {Mismatch}]
    ensures !FieldsAcceptable(sub, users, checks) ==> r == Err(FieldErrors(sub, users, checks))
  {
    match ValidateFields(sub, users, checks)
    case Err(errs) => Err(errs)
    case Ok(attrs) => ValidatePasswords(attrs)
  }

  /** `is_valid` of the registration serializer on a request body. */
  function ValidateRegistration(data: Payload, users: seq<User>, checks: Checks): (r: Result<Attrs, Errors>)
    ensures r == ValidateSubmission(SubmissionOf(data), users, checks)
  {
    ValidateSubmission(SubmissionOf(data), users, checks)
  }

  /** What `is_valid` on a request body promises: a body missing any of
      the four required keys is rejected, and accepted data holds only
      fields the body carried, every required one, and matching
      passwords. */
  lemma RegistrationValidation(data: Payload, users: seq<User>, checks: Checks)
    ensures ("username" !in data || "phone_number" !in data || "password" !in data
             || "confirm_password" !in data) ==> ValidateRegistration(data, users, checks).Err?
    ensures var r := ValidateRegistration(data, users, checks);
      r.Ok? ==>
        && (forall f :: f in r.value ==> Name(f) in data)
        && RegistrationShape(r.value) && r.value[Password] == r.value[ConfirmPassword]
  {
    var sub := SubmissionOf(data);
    if "username" !in data || "phone_number" !in data || "password" !in data || "confirm_password" !in data {
      assert !(RegistrationRequired <= sub.Keys) by {
        FieldNames();
      }
      if FieldsAcceptable(sub, users, checks) {
        AcceptableHasRequired(sub, users, checks);
      }
    }
  }

  /** The request restricted to the keys the serializers declare. */
  function Declared(data: Payload): (d: Payload)
    ensures forall k :: k in d <==> k in data && k in DeclaredNames
    ensures forall k :: k in d ==> d[k] == data[k]
  {
    map k | k in data && k in DeclaredNames :: data[k]
  }

  /** Keys the serializers do not declare never change what they read, so
      they never change the outcome of validation. */
  lemma UndeclaredFieldsIgnored(data: Payload, users: seq<User>, checks: Checks)
    ensures SubmissionOf(Declared(data)) == SubmissionOf(data)
    ensures ValidateRegistration(Declared(data), users, checks) == ValidateRegistration(data, users, checks)
    ensures ValidateLogin(Declared(data)) == ValidateLogin(data)
  {
    var d := Declared(data);
    AllFieldsListed();
    forall f: Field
      ensures Name(f) in d <==> Name(f) in data
      ensures Name(f) in d ==> d[Name(f)] == data[Name(f)]
    {
    }
    assert SubmissionOf(d) == SubmissionOf(data);
    assert LoginText(d, Username) == LoginText(data, Username);
    assert LoginText(d, Password) == LoginText(data, Password);
  }

  /** `create` drops the confirmation before building the user: the
      fields left are exactly the model fields that were submitted. */
  function ModelFields(attrs: Attrs): (fields: Attrs)
    ensures fields.Keys == attrs.Keys - {ConfirmPassword}
    ensures forall f :: f in fields ==> fields[f] == attrs[f]
  {
    attrs - {ConfirmPassword}
  }

  /** The user row the user manager builds from the model fields; a role
      that was not submitted takes the model default, and a new user is
      active. The manager normalises a missing email to the empty string,
      so every registered user carries a non-null email. */
  function Create(attrs: Attrs, id: UserId): (u: User)
    requires RegistrationShape(attrs)
    ensures u.id == id && u.isActive
    ensures u.username == attrs[Username] && u.phone == attrs[PhoneNumber]
    ensures u.password == attrs[Password]
    ensures u.email.Some?
    ensures u.email.value == [] <==> Email !in attrs || attrs[Email] == []
    ensures Email in attrs ==> u.email.value == attrs[Email]
    ensures RoleField in attrs ==> RoleValue(u.role) == attrs[RoleField]
    ensures RoleField !in attrs ==> u.role == DefaultRole
  {
    var fields := ModelFields(attrs);
    var role := if RoleField in fields then ParseRole(fields[RoleField]).value else DefaultRole;
    var email := if Email in fields then fields[Email] else [];
    User(id, fields[Username], Some(email), fields[PhoneNumber], role, true, fields[Password])
  }

  /** The user row a registration without an email was evidently meant to
      build: the nullable email column left null, as it is for a blank
      email too. Everything else is as `Create` builds it. */
  function CreateIntended(attrs: Attrs, id: UserId): (u: User)
    requires RegistrationShape(attrs)
    ensures u.email.None? <==> Email !in attrs || attrs[Email] == []
    ensures u.email.Some? ==> u.email.value == attrs[Email]
    ensures u.(email := Create(attrs, id).email) == Create(attrs, id)
  {
    var u := Create(attrs, id);
    if Email in attrs && attrs[Email] != [] then u else u.(email := None)
  }

  /** As written, two registrations without an email build users whose
      empty emails clash on the unique column, however much the rest
      differs. */
  lemma EmailLessUsersClash(a: Attrs, b: Attrs, ida: UserId, idb: UserId)
    requires RegistrationShape(a) && RegistrationShape(b)
    requires Email !in a && Email !in b
    ensures Clash(Create(a, ida), Create(b, idb))
  {
  }

  /** With the intended creation, users without an email never clash on
      it: two such registrations with their own key, username and phone
      number fit together in the table. */
  lemma IntendedEmailLessCoexist(a: Attrs, b: Attrs, ida: UserId, idb: UserId)
    requires RegistrationShape(a) && RegistrationShape(b)
    requires Email !in a && Email !in b
    requires ida != idb && a[Username] != b[Username] && a[PhoneNumber] != b[PhoneNumber]
    ensures UniqueUsers([CreateIntended(a, ida), CreateIntended(b, idb)])
  {
  }

  /** The confirmation never reaches the user row: two validated
      registrations that differ only in it build the same user. */
  lemma CreateIgnoresConfirmation(attrs: Attrs, other: string, id: UserId)
    requires RegistrationShape(attrs)
    ensures RegistrationShape(attrs[ConfirmPassword := other])
    ensures Create(attrs[ConfirmPassword := other], id) == Create(attrs, id)
  {
    assert ModelFields(attrs[ConfirmPassword := other]) == ModelFields(attrs);
  }

  /** A registration that validates and names a role keeps exactly that
      role; one that names no role gets the default. */
  lemma ValidatedRoleKept(data: Payload, users: seq<User>, checks: Checks, id: UserId)
    requires ValidateRegistration(data, users, checks).Ok?
    ensures
      var u := Create(ValidateRegistration(data, users, checks).value, id);
      && ("role" in data ==> Some(u.role) == ParseRole(data["role"]))
      && ("role" !in data ==> u.role == Tenant)
  {
    var sub := SubmissionOf(data);
    FieldNames();
    var attrs := ValidateSubmission(sub, users, checks).value;
    assert attrs.Keys == SubmittedFields(sub) && RegistrationShape(attrs) && ValuesFromRequest(attrs, sub);
    var u := Create(attrs, id);
    if RoleField in sub {
      assert RoleField in attrs && attrs[RoleField] == data["role"];
      RoleValuesRoundTrip(u.role);
    } else {
      assert RoleField !in attrs;
    }
  }

  /** Login credentials after cleaning. */
  datatype Credentials = Credentials(username: string, password: string)

  /** One login field, cleaned as a required text field. */
  function LoginText(data: Payload, f: Field): (r: Result<string, Codes>)
    ensures r.Ok? <==> Name(f) in data && Strip(data[Name(f)]) != [] && '\0' !in Strip(data[Name(f)])
    ensures r.Ok? ==> r.value == Strip(data[Name(f)])
    ensures Name(f) !in data ==> r == Err({Required})
    ensures r == Err({Blank}) <==> Name(f) in data && Strip(data[Name(f)]) == []
    ensures r == Err({NullCharacter}) <==> Name(f) in data && '\0' in Strip(data[Name(f)])
  {
    if Name(f) !in data then Err({Required})
    else
      var r := CleanText(data[Name(f)], false, {});
      assert '\0' in Strip(data[Name(f)]) ==> r == Err({NullCharacter}) by {
        if '\0' in Strip(data[Name(f)]) {
          assert CodesOf(r) == {NullCharacter};
        }
      }
      r
  }

  /** `is_valid` of the login serializer: both fields are required and
      cleaned as text fields. */
  function ValidateLogin(data: Payload): (r: Result<Credentials, Errors>)
    ensures r.Ok? <==>
      && "username" in data && Strip(data["username"]) != [] && '\0' !in Strip(data["username"])
      && "password" in data && Strip(data["password"]) != [] && '\0' !in Strip(data["password"])
    ensures r.Ok? ==> r.value == Credentials(Strip(data["username"]), Strip(data["password"]))
    ensures r.Err? ==> r.error.Keys <= LoginFields && |r.error| > 0
    ensures "username" !in data || "password" !in data ==> r.Err?
    ensures r.Err? ==> (Username in r.error <==> LoginText(data, Username).Err?)
    ensures r.Err? ==> (Password in r.error <==> LoginText(data, Password).Err?)
    ensures r.Err? && Username in r.error ==> r.error[Username] == LoginText(data, Username).error
    ensures r.Err? && Password in r.error ==> r.error[Password] == LoginText(data, Password).error
  {
    var u := LoginText(data, Username);
    var p := LoginText(data, Password);
    if u.Ok? && p.Ok? then Ok(Credentials(u.value, p.value))
    else Err(AddError(AddError(map[], Username, u), Password, p))
  }

}
