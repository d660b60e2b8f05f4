/**
 * The registration serializer over the built-in user model: the fields
 * username, email, password and password2. Username and both passwords are
 * required and may not be blank; email may be left out or blank. Each field
 * but the confirmation is bounded by its column's max_length. A username
 * that is already stored is refused, and once every field passes, a password
 * that differs from its confirmation is refused as a whole-body error.
 */
module RegistrationSerializer {
  import opened Wrappers
  import opened Fields
  import opened Database

  const USERNAME: string := "username"
  const EMAIL: string := "email"
  const PASSWORD: string := "password"
  const PASSWORD2: string := "password2"

  /** The key under which an error of the whole body is reported. */
  const NON_FIELD_ERRORS: string := "non_field_errors"

  /** `Meta.fields`. */
  const FIELDS: seq<string> := [USERNAME, EMAIL, PASSWORD, PASSWORD2]

  /** The confirmation is only read, never shown. */
  const WRITE_ONLY: set<string> := {PASSWORD2}

  const INPUT: set<string> := {USERNAME, EMAIL, PASSWORD, PASSWORD2}

  const USERNAME_EXISTS: string := "A user with this username already exists."
  const PASSWORDS_MUST_MATCH: string := "Passwords must match"

  /** A validated body. The email is None when it was left out. */
  datatype Registration = Registration(username: string, email: Option<string>, password: string, password2: string)

  /** The max_length of the user model's username, email and password columns; the confirmation declares none. */
  function MaxLength(f: string): Option<nat> {
    if f == USERNAME then Some(150)
    else if f == EMAIL then Some(254)
    else if f == PASSWORD then Some(128)
    else None
  }

  /** A value the field `f` accepts: text, not empty unless `f` is the email, and within the field's max_length. */
  predicate Acceptable(f: string, v: FieldValue) {
    v.Text? && (f == EMAIL || v.text != "") && (MaxLength(f).Some? ==> |v.text| <= MaxLength(f).value)
  }

  /** Field `f` fails its own checks: a required field left out, or a sent value it does not accept. */
  predicate Malformed(payload: Payload, f: string) {
    if f in payload then !Acceptable(f, payload[f]) else f != EMAIL
  }

  predicate FieldsWellFormed(payload: Payload) {
    !Malformed(payload, USERNAME) && !Malformed(payload, EMAIL)
    && !Malformed(payload, PASSWORD) && !Malformed(payload, PASSWORD2)
  }

  /** `validate_username`: refuses a username some stored user already has. */
  function ValidateUsername(users: UserTable, value: string): (r: Result<string, FieldError>)
    reads users
    requires users.Valid()
    ensures r.Ok? <==> NameFree(users.rows, value)
    ensures r.Ok? ==> r.value == value
    ensures r.Err? ==> r.error == Custom(USERNAME_EXISTS)
  {
    if users.Find(value).Some? then Err(Custom(USERNAME_EXISTS)) else Ok(value)
  }

  /** The username field: its own checks first, then `validate_username` on the text that passed them. */
  function UsernameField(users: UserTable, payload: Payload): Result<Option<string>, FieldError>
    reads users
    requires users.Valid()
  {
    match CharField(payload, USERNAME, true, false, MaxLength(USERNAME))
    case Err(e) => Err(e)
    case Ok(v) =>
      match ValidateUsername(users, v.value)
      case Err(e) => Err(e)
      case Ok(name) => Ok(Some(name))
  }

  /** The check of one input field. */
  function Check(users: UserTable, payload: Payload, f: string): (r: Result<Option<string>, FieldError>)
    reads users
    requires users.Valid() && f in INPUT
    ensures f != USERNAME ==> (r.Err? <==> Malformed(payload, f))
    ensures f == USERNAME ==> (r.Err? <==> Malformed(payload, f) || !NameFree(users.rows, payload[f].text))
    ensures r.Err? && f !in payload ==> r.error == Required
    ensures r.Err? && f in payload && payload[f].Null? ==> r.error == NotNull
    ensures r.Err? && f == USERNAME && !Malformed(payload, f) ==> r.error == Custom(USERNAME_EXISTS)
    ensures r.Ok? ==> (r.value.Some? <==> f in payload)
    ensures r.Ok? && r.value.Some? ==> payload[f] == Text(r.value.value)
  {
    if f == USERNAME then UsernameField(users, payload)
    else if f == EMAIL then CharField(payload, EMAIL, false, true, MaxLength(EMAIL))
    else CharField(payload, f, true, false, MaxLength(f))
  }

  /**
   * `is_valid()`. The fields are checked one by one and every failing field is
   * reported; only when all pass are the two passwords compared, and a mismatch
   * is then the single whole-body error. An accepted body carries the texts
   * that were sent, under a username no stored user has.
   */
  function Validate(users: UserTable, payload: Payload): (r: Result<Registration, Errors>)
    reads users
    requires users.Valid()
    ensures r.Ok? <==>
      FieldsWellFormed(payload)
      && NameFree(users.rows, payload[USERNAME].text)
      && payload[PASSWORD] == payload[PASSWORD2]
    ensures r.Ok? ==>
      && payload[USERNAME] == Text(r.value.username)
      && NameFree(users.rows, r.value.username)
      && (r.value.email.Some? <==> EMAIL in payload)
      && (r.value.email.Some? ==> payload[EMAIL] == Text(r.value.email.value))
      && payload[PASSWORD] == Text(r.value.password)
      && r.value.password == r.value.password2
    ensures r.Err? ==> forall f :: f in r.error <==>
      || (f in INPUT && Malformed(payload, f))
      || (f == USERNAME && !Malformed(payload, f) && !NameFree(users.rows, payload[f].text))
      || (f == NON_FIELD_ERRORS && FieldsWellFormed(payload) && NameFree(users.rows, payload[USERNAME].text)
          && payload[PASSWORD] != payload[PASSWORD2])
    ensures r.Err? ==> forall f :: f in r.error && f in INPUT && f !in payload ==> r.error[f] == Required
    ensures r.Err? && USERNAME in r.error && !Malformed(payload, USERNAME) ==> r.error[USERNAME] == Custom(USERNAME_EXISTS)
    ensures r.Err? && NON_FIELD_ERRORS in r.error ==> r.error == map[NON_FIELD_ERRORS := Custom(PASSWORDS_MUST_MATCH)]
  {
    var errors := map f | f in INPUT && Check(users, payload, f).Err? :: Check(users, payload, f).error;
    if errors != map[] then
      Err(errors)
    else
      assert forall f | f in INPUT :: Check(users, payload, f).Ok? by {
        forall f | f in INPUT ensures Check(users, payload, f).Ok? {
          assert f !in errors;
        }
      }
      assert Check(users, payload, USERNAME).Ok? && Check(users, payload, EMAIL).Ok?;
      assert Check(users, payload, PASSWORD).Ok? && Check(users, payload, PASSWORD2).Ok?;
      if payload[PASSWORD] != payload[PASSWORD2] then
        Err(map[NON_FIELD_ERRORS := Custom(PASSWORDS_MUST_MATCH)])
      else
        Ok(Registration(
          payload[USERNAME].text,
          if EMAIL in payload then Some(payload[EMAIL].text) else None,
          payload[PASSWORD].text,
          payload[PASSWORD2].text))
  }

  /** A lookup of a key the validated data does not hold. */
  datatype CreateError = MissingKey(key: string)

  /** Storing a user under a fresh key and a name no one has keeps usernames unique. */
  lemma InsertKeepsUnique(rows: map<nat, User>, id: nat, u: User)
    requires UniqueUsernames(rows) && NameFree(rows, u.username) && id !in rows
    ensures UniqueUsernames(rows[id := u])
  {
  }

  /**
   * `create(validated_data)`: stores a user with the validated username, email
   * and (hashed) password. The email is looked up by key, so validated data
   * without one raises instead and nothing is stored.
   */
  method Create(users: UserTable, data: Registration) returns (r: Result<nat, CreateError>)
    requires users.Valid()
    modifies users
    ensures users.Valid()
    ensures r.Err? <==> data.email.None?
    ensures r.Err? ==> r.error == MissingKey(EMAIL) && users.rows == old(users.rows) && users.nextId == old(users.nextId)
    ensures r.Ok? ==>
      && r.value !in old(users.rows)
      && users.rows == old(users.rows)[r.value := User(data.username, data.email.value, Hashed(data.password))]
    ensures UniqueUsernames(old(users.rows)) && NameFree(old(users.rows), data.username) ==> UniqueUsernames(users.rows)
  {
    if data.email.None? {
      return Err(MissingKey(EMAIL));
    }
    var id := users.CreateUser(data.username, data.email.value, data.password);
    if UniqueUsernames(old(users.rows)) && NameFree(old(users.rows), data.username) {
      InsertKeepsUnique(old(users.rows), id, User(data.username, data.email.value, Hashed(data.password)));
    }
    r := Ok(id);
  }

  /** One value of the serializer's output. */
  datatype Shown = ShownText(text: string) | ShownHash(hash: PasswordHash)

  /**
   * The serializer's output for a stored user: every declared field except the
   * write-only confirmation. The password field is not write-only, so the
   * stored hash is shown.
   */
  function Representation(u: User): (r: map<string, Shown>)
    ensures forall f :: f in r <==> f in FIELDS && f !in WRITE_ONLY
    ensures PASSWORD2 !in r
    ensures r[USERNAME] == ShownText(u.username) && r[EMAIL] == ShownText(u.email) && r[PASSWORD] == ShownHash(u.password)
  {
    map[USERNAME := ShownText(u.username), EMAIL := ShownText(u.email), PASSWORD := ShownHash(u.password)]
  }
}
