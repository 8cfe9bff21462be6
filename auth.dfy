/**
 * The auth gateway (app/auth/auth_router.py): checking credentials, issuing a
 * bearer token at login, registering users, and the gate that turns a
 * presented token into a user or an HTTP error. Password hashing (bcrypt) is
 * abstract: a `PasswordHasher` and an uninterpreted `PasswordVerifier`.
 */
module Auth {
  import opened Wrappers
  import opened Jwt
  import opened Models

  /** An `HTTPException(status_code, detail)`. */
  datatype HttpError = HttpError(status: int, detail: string)

  const InvalidCredentials: HttpError := HttpError(401, "Invalid credentials")
  const UsernameTaken: HttpError := HttpError(400, "Username already taken")
  const InvalidOrExpiredToken: HttpError := HttpError(401, "Invalid or expired token")
  const InvalidTokenPayload: HttpError := HttpError(401, "Invalid token payload")
  const UserNotFound: HttpError := HttpError(404, "User not found")

  /** `pwd_context.verify(plain, hashed)`; left uninterpreted. */
  type PasswordVerifier = (string, string) -> bool

  /** `pwd_context.hash(plain)` given the salt that call draws; left uninterpreted. */
  type PasswordHasher = (string, string) -> string

  /** The body of a successful login. */
  datatype LoginResponse = LoginResponse(access_token: Token, token_type: string)

  /** The body of a successful registration. */
  datatype RegisterResponse = RegisterResponse(message: string, username: string)

  /** The body of a successful chat-log write. */
  datatype ChatLogResponse = ChatLogResponse(message: string, chat_id: int)

  /**
   * authenticate_user: the user with exactly this username, provided the
   * password verifies against its stored hash; otherwise None.
   */
  function AuthenticateUser(users: seq<User>, username: string, password: string, verify: PasswordVerifier): (r: Option<User>)
    ensures r.Some? <==> FindUser(users, username).Some? && verify(password, FindUser(users, username).value.hashed_password)
    ensures r.Some? ==> r.value in users && r.value.username == username
  {
    var user := FindUser(users, username);
    if user.Some? && verify(password, user.value.hashed_password) then user else None
  }

  /** Under the unique index, authentication succeeds iff some row has the name and the password verifies. */
  lemma AuthenticateUnique(users: seq<User>, username: string, password: string, verify: PasswordVerifier)
    requires UniqueUsernames(users)
    ensures AuthenticateUser(users, username, password, verify).Some? <==>
      exists i :: 0 <= i < |users| && users[i].username == username && verify(password, users[i].hashed_password)
  {
    if i :| 0 <= i < |users| && users[i].username == username && verify(password, users[i].hashed_password) {
      FindUserUnique(users, i);
    }
  }

  /**
   * login: a bearer token whose only input claim is `sub` = the username, or
   * the same "Invalid credentials" error whether the name is unknown or the
   * password is wrong.
   */
  function Login(users: seq<User>, username: string, password: string, now: int, verify: PasswordVerifier, sign: Signer): (r: Result<LoginResponse, HttpError>)
    ensures r.Failure? <==> (FindUser(users, username).None? || !verify(password, FindUser(users, username).value.hashed_password))
    ensures r.Failure? ==> r.error == InvalidCredentials
    ensures r.Success? ==>
      && r.value.token_type == "bearer"
      && WellSigned(r.value.access_token, sign)
      && r.value.access_token.payload.Keys == {"sub", "exp"}
      && Sub(r.value.access_token.payload) == Text(username)
      && HasExp(r.value.access_token.payload) && Exp(r.value.access_token.payload) == now + ACCESS_TOKEN_TTL
  {
    var user := AuthenticateUser(users, username, password, verify);
    if user.None? then Failure(InvalidCredentials)
    else
      var accessToken := CreateAccessToken(map["sub" := Text(user.value.username)], now, sign);
      Success(LoginResponse(accessToken, "bearer"))
  }

  /**
   * The first two checks every protected route makes: the token must verify
   * (else 401 "Invalid or expired token") and its `sub` must be truthy (else
   * 401 "Invalid token payload"). The result is the `sub` claim.
   */
  function TokenSubject(t: Token, now: int, sign: Signer): (r: Result<Claim, HttpError>)
    requires ExpReadable(t, sign)
    ensures r.Success? <==> Accepted(t, now, sign) && Truthy(Sub(t.payload))
    ensures !Accepted(t, now, sign) ==> r == Failure(InvalidOrExpiredToken)
    ensures Accepted(t, now, sign) && !Truthy(Sub(t.payload)) ==> r == Failure(InvalidTokenPayload)
    ensures r.Success? ==> r.value == Sub(t.payload)
  {
    var payload := VerifyAccessToken(t, now, sign);
    // an empty payload is falsy as well; one with `exp` never is
    if payload.None? || payload.value == map[] then Failure(InvalidOrExpiredToken)
    else
      var username := Sub(payload.value);
      if !Truthy(username) then Failure(InvalidTokenPayload)
      else Success(username)
  }

  /** The user a subject claim names; a non-text subject names none. */
  function SubjectUser(users: seq<User>, sub: Claim): (r: Option<User>)
    ensures r.Some? ==> r.value in users && sub == Text(r.value.username)
    ensures r.None? <==> forall i :: 0 <= i < |users| ==> sub != Text(users[i].username)
  {
    match sub
    case Text(name) => FindUser(users, name)
    case _ => None
  }

  /**
   * The gate of get_current_user and log_chat: the two token checks, then the
   * user the subject names must exist (else 404 "User not found"). The checks
   * apply in this order, so the first failing one decides the error.
   */
  function AuthorizedUser(users: seq<User>, t: Token, now: int, sign: Signer): (r: Result<User, HttpError>)
    requires ExpReadable(t, sign)
    ensures r.Success? <==>
      Accepted(t, now, sign) && Truthy(Sub(t.payload)) &&
      exists i :: 0 <= i < |users| && Sub(t.payload) == Text(users[i].username)
    ensures !Accepted(t, now, sign) ==> r == Failure(InvalidOrExpiredToken)
    ensures Accepted(t, now, sign) && !Truthy(Sub(t.payload)) ==> r == Failure(InvalidTokenPayload)
    ensures Accepted(t, now, sign) && Truthy(Sub(t.payload)) && r.Failure? ==> r.error == UserNotFound
    ensures r.Success? ==> r.value in users && Sub(t.payload) == Text(r.value.username)
  {
    match TokenSubject(t, now, sign)
    case Failure(e) => Failure(e)
    case Success(sub) =>
      var user := SubjectUser(users, sub);
      if user.None? then Failure(UserNotFound)
      else Success(user.value)
  }

  /** get_current_user: the username of the token's user, after the full gate. */
  function GetCurrentUser(users: seq<User>, t: Token, now: int, sign: Signer): (r: Result<string, HttpError>)
    requires ExpReadable(t, sign)
    ensures r.Failure? <==> AuthorizedUser(users, t, now, sign).Failure?
    ensures r.Failure? ==> r.error == AuthorizedUser(users, t, now, sign).error
    ensures r.Success? ==> Sub(t.payload) == Text(r.value) &&
                           exists i :: 0 <= i < |users| && users[i].username == r.value
  {
    match AuthorizedUser(users, t, now, sign)
    case Failure(e) => Failure(e)
    case Success(user) => Success(user.username)
  }

  /**
   * A token from a successful login admits the same user the login
   * authenticated until it expires, and is refused as invalid or expired
   * afterwards, exactly like a forged one.
   */
  lemma LoginThenAuthorize(users: seq<User>, username: string, password: string, issuedAt: int, now: int,
                           verify: PasswordVerifier, sign: Signer)
    requires Login(users, username, password, issuedAt, verify, sign).Success?
    requires username != ""
    ensures var t := Login(users, username, password, issuedAt, verify, sign).value.access_token;
      && ExpReadable(t, sign)
      && (now <= issuedAt + ACCESS_TOKEN_TTL ==>
            AuthorizedUser(users, t, now, sign) == Success(AuthenticateUser(users, username, password, verify).value))
      && (now > issuedAt + ACCESS_TOKEN_TTL ==>
            AuthorizedUser(users, t, now, sign) == Failure(InvalidOrExpiredToken))
  {
  }

  /**
   * The empty username is falsy as a `sub` claim: when `Login` succeeds for a
   * user stored as "", every token it issues is refused as an invalid payload.
   * Form parsing, which may reject the empty name first, is outside `Login`.
   */
  lemma EmptyUsernameTokenRefused(users: seq<User>, password: string, issuedAt: int, now: int,
                                  verify: PasswordVerifier, sign: Signer)
    requires Login(users, "", password, issuedAt, verify, sign).Success?
    requires now <= issuedAt + ACCESS_TOKEN_TTL
    ensures var t := Login(users, "", password, issuedAt, verify, sign).value.access_token;
      ExpReadable(t, sign) && AuthorizedUser(users, t, now, sign) == Failure(InvalidTokenPayload)
  {
  }

  /**
   * Registration followed by login: once `register` has appended the user
   * with the hash of the password, logging in with that password succeeds,
   * provided the abstract verifier accepts the password against its hash.
   */
  lemma RegisterThenLogin(users: seq<User>, id: int, username: string, password: string, salt: string, now: int,
                          hash: PasswordHasher, verify: PasswordVerifier, sign: Signer)
    requires FindUser(users, username).None?
    requires verify(password, hash(password, salt))
    ensures var registered := users + [User(id, username, hash(password, salt))];
      && AuthenticateUser(registered, username, password, verify) == Some(User(id, username, hash(password, salt)))
      && Login(registered, username, password, now, verify, sign).Success?
  {
    FindUserAppend(users, User(id, username, hash(password, salt)), username);
  }

  /**
   * register: refuse a taken username with 400 and no change; otherwise add
   * exactly one user, storing the hash of the password rather than the
   * password, and leave every other row as it was.
   */
  method Register(db: Database, username: string, password: string, salt: string, hash: PasswordHasher)
    returns (r: Result<RegisterResponse, HttpError>)
    requires db.Valid()
    modifies db
    ensures db.Valid()
    ensures r.Failure? <==> old(FindUser(db.users, username)).Some?
    ensures r.Failure? ==> r.error == UsernameTaken && unchanged(db)
    ensures r.Success? ==>
      && r.value == RegisterResponse("User registered successfully", username)
      && db.users == old(db.users) + [User(old(db.nextUserId), username, hash(password, salt))]
      && db.chats == old(db.chats)
      && db.nextUserId == old(db.nextUserId) + 1 && db.nextChatId == old(db.nextChatId)
  {
    var existingUser := FindUser(db.users, username);
    if existingUser.Some? {
      return Failure(UsernameTaken);
    }
    var hashedPassword := hash(password, salt);
    var newUser := db.AddUser(username, hashedPassword);
    assert newUser.Some?;
    r := Success(RegisterResponse("User registered successfully", newUser.value.username));
  }

  /**
   * log_chat: behind the full gate, append exactly one record for the token's
   * user with the given message and response; on any gate failure the tables
   * are unchanged.
   */
  method LogChat(db: Database, message: string, response: string, t: Token, now: int, stamp: int, sign: Signer)
    returns (r: Result<ChatLogResponse, HttpError>)
    requires db.Valid() && ExpReadable(t, sign)
    modifies db
    ensures db.Valid() && db.users == old(db.users)
    ensures var gate := AuthorizedUser(old(db.users), t, now, sign);
      && (gate.Failure? ==> r == Failure(gate.error) && unchanged(db))
      && (gate.Success? ==>
            && r == Success(ChatLogResponse("Chat log saved successfully", old(db.nextChatId)))
            && db.chats == old(db.chats) + [ChatHistory(old(db.nextChatId), gate.value.id, message, response, stamp)]
            && db.nextChatId == old(db.nextChatId) + 1 && db.nextUserId == old(db.nextUserId))
  {
    var user := AuthorizedUser(db.users, t, now, sign);
    if user.Failure? {
      return Failure(user.error);
    }
    var chatLog := db.AddChat(user.value.id, message, response, stamp);
    assert chatLog.Some?;
    r := Success(ChatLogResponse("Chat log saved successfully", chatLog.value.id));
  }
}
