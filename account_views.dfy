/**
 * The account handlers: login, registration and logout. Issuing and checking
 * JSON web tokens is library code: a token pair is an opaque value bound to a
 * user, and whether a refresh token's signature and expiry hold is a verdict
 * the handler receives. The password-strength validators are library code as
 * well: their messages for the submitted password are a parameter, and none
 * means the password is strong enough.
 */
module AccountViews {
  import opened Wrappers
  import opened Fields
  import opened Models
  import opened Database
  import opened RegistrationSerializer

  const INVALID_CREDENTIALS: string := "Invalid username or password"
  const REGISTERED: string := "User registered successfully"
  const REFRESH: string := "refresh"
  const REFRESH_REQUIRED: string := "Refresh token is required"
  const INVALID_TOKEN: string := "Invalid token"
  const LOGGED_OUT: string := "Logged out successfully"

  /** `request.data.get(f)`: the text sent under `f`, None when nothing or JSON null was sent. */
  function Given(payload: Payload, f: string): (v: Option<string>)
    ensures v.Some? <==> f in payload && payload[f].Text?
    ensures v.Some? ==> payload[f] == Text(v.value)
  {
    if f in payload && payload[f].Text? then Some(payload[f].text) else None
  }

  datatype TokenKind = RefreshKind | AccessKind

  /** A signed token: its kind and the user it names. */
  datatype Token = Token(kind: TokenKind, user: UserId)

  /** The body of a granted login: the token under "refresh" and the one under "access". */
  datatype TokenPair = TokenPair(refresh: Token, access: Token)

  /** `get_tokens_for_user`: a refresh token for the user and the access token derived from it. */
  function TokensFor(user: UserId): (t: TokenPair)
    ensures t.refresh.user == user && t.access.user == user
    ensures t.refresh.kind == RefreshKind && t.access.kind == AccessKind
  {
    TokenPair(Token(RefreshKind, user), Token(AccessKind, user))
  }

  datatype LoginResponse = Granted(tokens: TokenPair) | Denied(error: string)

  function LoginCode(r: LoginResponse): nat {
    if r.Granted? then 200 else 401
  }

  /** Some stored user has the username that was sent and accepts the password that was sent. */
  ghost predicate Authentic(rows: map<nat, User>, payload: Payload, id: nat) {
    id in rows
    && Given(payload, USERNAME) == Some(rows[id].username)
    && CheckPassword(rows[id].password, Given(payload, PASSWORD))
  }

  /**
   * `LoginView.post`: tokens for the user whose username and password were
   * sent; otherwise one and the same 401 body, whether no user has that name
   * or the password is wrong.
   */
  function Login(users: UserTable, payload: Payload): (resp: LoginResponse)
    reads users
    requires users.Valid() && UniqueUsernames(users.rows)
    ensures resp.Granted? <==> exists id :: Authentic(users.rows, payload, id)
    ensures resp.Granted? ==> exists id :: Authentic(users.rows, payload, id) && resp.tokens == TokensFor(id)
    ensures !resp.Granted? ==> resp == Denied(INVALID_CREDENTIALS) && LoginCode(resp) == 401
  {
    match Given(payload, USERNAME)
    case None => Denied(INVALID_CREDENTIALS)
    case Some(name) =>
      match users.Find(name)
      case None => Denied(INVALID_CREDENTIALS)
      case Some(id) =>
        if CheckPassword(users.rows[id].password, Given(payload, PASSWORD)) then
          assert Authentic(users.rows, payload, id);
          Granted(TokensFor(id))
        else
          Denied(INVALID_CREDENTIALS)
  }

  /**
   * An unknown username, and a known username `id` has with any password
   * other than that user's, get the same answer.
   */
  lemma LoginHidesWhichCheckFailed(users: UserTable, unknown: Payload, wrong: Payload, id: nat)
    requires users.Valid() && UniqueUsernames(users.rows)
    requires Given(unknown, USERNAME).Some? && NameFree(users.rows, Given(unknown, USERNAME).value)
    requires id in users.rows && Given(wrong, USERNAME) == Some(users.rows[id].username)
    requires Given(wrong, PASSWORD) != Some(users.rows[id].password.password)
    ensures Login(users, unknown) == Login(users, wrong) == Denied(INVALID_CREDENTIALS)
    ensures LoginCode(Login(users, unknown)) == LoginCode(Login(users, wrong)) == 401
  {
    assert !exists other :: Authentic(users.rows, unknown, other);
    assert forall other :: Authentic(users.rows, wrong, other) ==> other == id;
  }

  datatype RegisterResponse =
    | Registered(message: string)
    | Rejected(errors: Errors)
    | WeakPassword(password: seq<string>)
    | Crashed(cause: CreateError)

  /** The HTTP status of a registration answer; the error `create` raises is answered 500 by the framework. */
  function RegisterCode(r: RegisterResponse): nat {
    match r
    case Registered(_) => 201
    case Rejected(_) => 400
    case WeakPassword(_) => 400
    case Crashed(_) => 500
  }

  /**
   * `register`: validates the body; a valid one is saved as a new user and
   * the password is then put to the strength validators. When they object, the
   * new user is deleted again and their messages are answered with 400. Only a
   * 201 leaves a new user behind, and usernames stay unique.
   */
  method Register(users: UserTable, payload: Payload, weakness: seq<string>) returns (resp: RegisterResponse)
    requires users.Valid() && UniqueUsernames(users.rows)
    modifies users
    ensures users.Valid() && UniqueUsernames(users.rows)
    ensures resp.Rejected? <==> old(Validate(users, payload)).Err?
    ensures resp.Rejected? ==> resp.errors == old(Validate(users, payload)).error
    ensures resp.Crashed? <==> old(Validate(users, payload)).Ok? && EMAIL !in payload
    ensures resp.Crashed? ==> resp.cause == MissingKey(EMAIL)
    ensures resp.WeakPassword? <==> old(Validate(users, payload)).Ok? && EMAIL in payload && weakness != []
    ensures resp.WeakPassword? ==> resp.password == weakness
    ensures resp.Registered? <==> old(Validate(users, payload)).Ok? && EMAIL in payload && weakness == []
    ensures resp.Registered? ==> resp.message == REGISTERED
    ensures !resp.Registered? ==> users.rows == old(users.rows)
    ensures resp.Registered? ==> exists id: nat ::
      && id !in old(users.rows)
      && users.rows == old(users.rows)[id := User(payload[USERNAME].text, payload[EMAIL].text, Hashed(payload[PASSWORD].text))]
  {
    var validated := Validate(users, payload);
    if validated.Err? {
      return Rejected(validated.error);
    }
    var created := Create(users, validated.value);
    if created.Err? {
      return Crashed(created.error);
    }
    if weakness != [] {
      users.Delete(created.value);
      assert users.rows == old(users.rows);
      return WeakPassword(weakness);
    }
    resp := Registered(REGISTERED);
  }

  datatype LogoutResponse = LoggedOut(message: string) | LogoutRefused(error: string)

  function LogoutCode(r: LogoutResponse): nat {
    if r.LoggedOut? then 200 else 400
  }

  /** Nothing usable was sent: no value, JSON null or the empty text. */
  predicate Missing(token: Option<string>) {
    token.None? || token.value == ""
  }

  /**
   * `logout_view`: without a refresh token, 400 "Refresh token is required".
   * A token whose signature or expiry fails (`genuine` false), or that is
   * already revoked, answers 400 "Invalid token". Any other is added to the
   * revoked set.
   */
  method Logout(blacklist: TokenBlacklist, payload: Payload, genuine: bool) returns (resp: LogoutResponse)
    modifies blacklist
    ensures resp == LogoutRefused(REFRESH_REQUIRED) <==> Missing(Given(payload, REFRESH))
    ensures resp == LogoutRefused(INVALID_TOKEN) <==>
      !Missing(Given(payload, REFRESH)) && (!genuine || Given(payload, REFRESH).value in old(blacklist.revoked))
    ensures resp.LoggedOut? <==>
      !Missing(Given(payload, REFRESH)) && genuine && Given(payload, REFRESH).value !in old(blacklist.revoked)
    ensures resp.LoggedOut? ==>
      resp.message == LOGGED_OUT && blacklist.revoked == old(blacklist.revoked) + {Given(payload, REFRESH).value}
    ensures resp.LogoutRefused? ==> blacklist.revoked == old(blacklist.revoked)
  {
    var token := Given(payload, REFRESH);
    if Missing(token) {
      return LogoutRefused(REFRESH_REQUIRED);
    }
    if !genuine || token.value in blacklist.revoked {
      return LogoutRefused(INVALID_TOKEN);
    }
    blacklist.Add(token.value);
    resp := LoggedOut(LOGGED_OUT);
  }
}
