# Smart Chatbot backend: authentication and authorization core in Dafny

This project models the decision logic of the chatbot backend's auth
subsystem and the chat routes it protects:

- **Access tokens** (`Jwt`, from `app/auth/jwt_handler.py`). Issuing copies the
  caller's claims and sets `exp` to issue time plus 30 minutes. The token is
  signed with HS256, which is HMAC-SHA256 as in section 3.2 of RFC 7518.
  Verifying accepts a token only when it is well signed and its `exp` is not
  earlier than the current time. It then returns the whole payload. Claims
  follow RFC 7519: `sub` is section 4.1.2 and `exp` is section 4.1.4.
  The token is an abstract record `Compact(alg, payload, sig)`, or `Garbled`
  for text that does not parse. It is well signed iff `alg` is HS256 and `sig`
  is the uninterpreted `Signer` applied to the fixed secret, HS256 and the
  payload.
- **Tables and the database session** (`Models`, from `app/db/models.py`).
  The records are `User` and `ChatHistory`. `FindUser` and `FindById` are the
  lookups the routes run. `Database` is a class with the two tables as
  sequence fields and an auto-increment counter for each. Its `AddUser` and
  `AddChat` model `db.add` plus `db.commit`, and they respect the declared
  unique index on `username` and the foreign key from a chat record to its
  user.
- **The auth gateway** (`Auth`, from `app/auth/auth_router.py`):
  - `AuthenticateUser` and `Login` check credentials against the user table.
  - `Register` hashes the password and inserts through the database object.
  - `TokenSubject` and `AuthorizedUser` form the gate chain: 401 "Invalid or
    expired token", then 401 "Invalid token payload", then 404 "User not
    found".
  - `GetCurrentUser` and `LogChat` are the routes built on that gate.
  - Password hashing is abstract. `PasswordHasher` takes the plaintext and
    the salt the call draws. `PasswordVerifier` is uninterpreted.
- **Chat routes** (`Chat`, from `app/chat/chat_router.py`):
  - `ChatWithBot` runs the full gate and then appends one record.
  - `GetChatHistory` runs only the two token checks, so it never answers 404.
    It then pages through the subject's records with offset and limit. An
    empty page gives the "No chat history found." message.
  - The language model is an opaque total function `Bot`.

Time is an integer parameter `now`, counted in whole seconds. Record
timestamps are the input `stamp`. The signer, the password hasher and
verifier, and the bot are passed in as function parameters.

In two places the model follows the code where a reader might expect
otherwise:
- Section 4.1.4 of RFC 7519 defines `exp` as the time on or after which the
  token must not be accepted. The code rejects a token only when `exp < now`
  (jwt_handler.py:35), so a token is still accepted at `exp` itself.
  `Jwt.ExpiryBoundary` states this.
- jwt_handler.py defines `verify_access_token` twice. The first definition
  (lines 16-25) returns only the username. The second (lines 31-39) replaces it
  when the module is imported and returns the whole payload; the routes read
  `sub` from that payload. The model follows the second.

Two lookups in chat_router.py are not valid SQLAlchemy as written, so the
model follows their evident intent:
- Line 24 queries `ChatHistory.user` and filters on `ChatHistory.user.username`.
  The model finds the user with that username, as the other routes do.
- Line 58 filters on `ChatHistory.user.username`. The model keeps the records
  whose owning user, reached through `user_id`, has that username.

A consequence the proofs bring out: `sub` is tested for truthiness, so the
empty string counts as missing. In the model, where form parsing is left out,
`Login` under the empty username can succeed, but the token it returns is
refused with "Invalid token payload" (`Auth.EmptyUsernameTokenRefused`).
Over HTTP the case may not be reachable at all: the login form
(`OAuth2PasswordRequestForm`, auth_router.py:24) and the registration schema
(`UserCreate`, whose definition is not part of this model) may reject an empty
username before these functions run.

## Model

| member | source | states |
|---|---|---|
| `Jwt.Decode` | app/auth/jwt_handler.py:34 | decoding with the fixed secret and HS256 yields a payload iff the token names HS256 and carries the MAC of its payload under the secret, and then yields that payload; otherwise it is the JWTError path (None) |
| `Jwt.CreateAccessToken` | app/auth/jwt_handler.py:8-14 | the issued token is well signed with the same secret and algorithm; its claims are the caller's claims plus `exp`, every caller claim other than `exp` unchanged, and `exp` equals issue time plus 30 minutes even if the caller supplied one |
| `Jwt.VerifyAccessToken` | app/auth/jwt_handler.py:31-39 | returns a payload iff the token is well signed and `exp` is not earlier than `now`; the payload returned is the token's whole payload |
| `Jwt.IssuedTokenVerifies` | app/auth/jwt_handler.py:8-39 | an issued token verifies, with its whole payload, at every `now` up to issue time plus 30 minutes, and is rejected at every later time |
| `Jwt.IssuedSubjectRoundTrip` | app/auth/jwt_handler.py:8-37 | a token issued for `{"sub": u}` verifies before expiry to a payload whose `sub` is `u` |
| `Jwt.ExpiryBoundary` | app/auth/jwt_handler.py:35-37 | the expiry test is strict: accepted at time `exp`, rejected at `exp + 1` |
| `Jwt.TamperedTokenRejected` | app/auth/jwt_handler.py:34-39 | a changed signature, a changed algorithm (even re-signed under it), or text that does not parse is rejected rather than raising |
| `Models.FindUser` | app/auth/auth_router.py:18 | the lookup by exact username returns the first row in table order with that name, and returns None iff no row has it |
| `Models.FindById` | app/db/models.py:22 | the lookup by primary key returns a row with that id, and returns None iff no row has it |
| `Models.FindUserAppend` | app/auth/auth_router.py:44-47 | after a row is appended, the username lookup finds the old match if there was one, else the new row if its name matches |
| `Models.FindByIdAppend` | app/auth/auth_router.py:44-47 | after a row is appended, the id lookup finds the old match if there was one, else the new row if its id matches |
| `Models.FindUserUnique` | app/db/models.py:11 | under the unique index, looking up a row's username returns exactly that row |
| `Models.FindByIdUnique` | app/db/models.py:10 | under the primary key, looking up a row's id returns exactly that row |
| `Models.Database.AddUser` | app/auth/auth_router.py:44-47 | the insert succeeds iff the username is free (unique index); on success exactly one row with the next id is appended, on failure nothing changes; the table invariants are kept |
| `Models.Database.AddChat` | app/auth/auth_router.py:84-87 | the insert succeeds iff `user_id` names a user (foreign key); on success exactly one record with the next id is appended and the user table is untouched, on failure nothing changes |
| `Auth.AuthenticateUser` | app/auth/auth_router.py:16-21 | returns a user iff the exact-username lookup finds one whose stored hash verifies the password; the user returned has that username |
| `Auth.AuthenticateUnique` | app/auth/auth_router.py:16-21 | under the unique index, authentication succeeds iff some row has exactly that username and its hash verifies the password |
| `Auth.Login` | app/auth/auth_router.py:23-30 | fails iff the username is unknown or the password does not verify, and then always with the same 401 "Invalid credentials"; on success it returns a "bearer" token, well signed, whose claims are exactly `sub` = the username and `exp` = now + 30 minutes |
| `Auth.TokenSubject` | app/auth/auth_router.py:54-60 | 401 "Invalid or expired token" for a token that is badly signed, garbled or expired; otherwise 401 "Invalid token payload" when `sub` is missing or falsy; otherwise the `sub` claim |
| `Auth.SubjectUser` | app/auth/auth_router.py:62 | the user named by a text subject, or None iff no row has that username |
| `Auth.AuthorizedUser` | app/auth/auth_router.py:54-64 | the three checks in order: invalid token gives 401, then missing subject gives 401, then unknown user gives 404; it succeeds iff all pass, with a user from the table whose username is the subject |
| `Auth.GetCurrentUser` | app/auth/auth_router.py:51-66 | fails exactly as the gate does, with its error; otherwise returns the username of an existing user that equals the token's subject |
| `Auth.LoginThenAuthorize` | app/auth/auth_router.py:26-64 | a token from a successful login admits the user the login authenticated up to 30 minutes later, and is refused with "Invalid or expired token" afterwards |
| `Auth.EmptyUsernameTokenRefused` | app/auth/auth_router.py:58-60 | in the model, a successful `Login` under the empty username yields a token that is refused with "Invalid token payload" |
| `Auth.RegisterThenLogin` | app/auth/auth_router.py:36-47 | after registration appends the user with the hash of the password, authentication returns that user; if the verifier accepts the password against its hash, login succeeds |
| `Auth.Register` | app/auth/auth_router.py:32-49 | fails with 400 "Username already taken" iff the name exists, changing nothing; otherwise it appends exactly one user whose stored value is the hash of the password; chats are untouched, the user counter advances by one, the chat counter is unchanged, and the unique-username invariant holds afterwards |
| `Auth.LogChat` | app/auth/auth_router.py:68-89 | on any gate failure, returns that gate error and changes nothing; otherwise appends exactly one record with the gate user's id and the given message and response, returns its id, advances the chat counter by one and leaves the user counter unchanged |
| `Chat.ChatWithBot` | app/chat/chat_router.py:12-36 | on any gate failure (401, 401, 404 in that order), returns that error and appends nothing; otherwise appends exactly one record of the message and the bot's response for the gate user, returns the echoed message with that response, advances the chat counter by one and leaves the user counter unchanged |
| `Chat.UserLogs` | app/chat/chat_router.py:56-58 | every selected record is in the table and owned by the subject, and every record owned by the subject is selected |
| `Chat.Page` | app/chat/chat_router.py:59-61 | the result starts at row `skip` (0 if negative) and holds at most `limit` rows (all remaining if `limit` is negative), in order |
| `Chat.GetChatHistory` | app/chat/chat_router.py:38-78 | fails iff the token or subject check fails, always with 401 and never 404; otherwise returns "No chat history found." iff the page is empty, else the subject and entries that map the page one-to-one, in order, to id, message, response and timestamp |
| `Chat.UserLogsAppend` | app/chat/chat_router.py:56-58 | the owner filter keeps table order: appending a record adds it at the end of the result iff its owner matches |
| `Chat.LoggedChatJoinsOwnHistory` | app/chat/chat_router.py:32-58 | a record appended for user `u` lands at the end of `u`'s history and changes no other subject's history |
| `Chat.NewUserKeepsHistories` | app/chat/chat_router.py:56-58 | adding a user changes no subject's history while every record points at an existing user |
| `Chat.PagesTile` | app/chat/chat_router.py:59-61 | consecutive pages tile the sequence: page (k, n) followed by page (k + n, m) is page (k, n + m) |
| `Chat.HistoryEntriesOwned` | app/chat/chat_router.py:56-76 | every returned entry is the formatting of a record owned by the token's subject |
| `Chat.HistoryEmptyIff` | app/chat/chat_router.py:64-65 | the "No chat history found." message comes back iff the limit is zero or the subject has no record at or after position `skip` |
| `Chat.DefaultHistoryIsFirstTen` | app/chat/chat_router.py:42-43 | with skip 0 and limit 10, the history is the subject's first ten records (or all of them, if fewer), in order |
| `Chat.ChatThenHistory` | app/chat/chat_router.py:32-61 | after a record is appended for the gate's user, that user's unbounded history is one longer and ends with the new exchange |

## Left out

- bcrypt: hashing and verifying are abstract functions. The model does not assert that hashing then verifying succeeds, nor that salts differ between calls. `Auth.RegisterThenLogin` takes that round trip as a hypothesis.
- The JWT wire format, base64 and HMAC are abstract. Only the explicit `exp` comparison at jwt_handler.py:35 is modelled. python-jose's own registered-claim checks inside `jwt.decode` are not part of this model, and the library's source is not part of this repository. As the library is documented, it refuses a token whose `exp` has passed, a `sub` or `jti` that is not a string, an `aud` when no audience is given, and an `nbf` in the future. An `exp`, `nbf` or `iat` that cannot be read as an integer is refused or raises TypeError, depending on the value.
- Jwt.IssuedTokenVerifies: the round trip holds for every claim map in the model. In the program it holds only for claim maps that python-jose's checks accept. The only map the program issues, `{"sub": username}` at auth_router.py:29, is one of them (`Jwt.IssuedSubjectRoundTrip`).
- The first `verify_access_token` (jwt_handler.py:16-25) is dead code, as the second definition replaces it when the module is imported. It is not modelled.
- Jwt.VerifyAccessToken: take a well-signed token whose `exp` is missing, null or not an integer. Depending on the value, the program raises TypeError in `jwt.decode` (jwt_handler.py:34), raises TypeError in the comparison at line 35, or python-jose refuses the token. The model makes all such tokens a precondition (`ExpReadable`) rather than modelling any of these outcomes. Every token `CreateAccessToken` issues meets it.
- Jwt.VerifyAccessToken: the clock is an integer `now` in seconds. The source compares the claim with a float timestamp taken from a naive UTC datetime, which is off by the host's UTC offset on a host not set to UTC. Neither the fractional seconds nor that offset is modelled.
- Jwt.Claim: JSON arrays and nested objects are not modelled as claim values. `Number` holds only integers, so JSON numbers with a fractional part are not modelled either.
- Auth.AuthorizedUser: for a well-signed token whose `sub` is present but not a string, the program and the model answer differently. In the program, python-jose refuses the token, so every route answers 401 "Invalid or expired token" (auth_router.py:55-56, chat_router.py:48-49). In the model, a falsy one (`null`, `0`, `false`) gets 401 "Invalid token payload" from `TokenSubject`, `AuthorizedUser` and `Chat.GetChatHistory`. A truthy one (a non-zero number, `true`) matches no user: `AuthorizedUser` and the routes behind it answer 404 "User not found", and `Chat.GetChatHistory` answers with the "No chat history found." message. No token the program issues carries such a `sub`.
- Chat.Page: app/db/database.py is not part of this model. Negative `skip` and `limit` follow SQLite: a negative offset counts as zero and a negative limit sets no bound.
- Models.Database.AddChat: the model assumes the foreign key from `chat_history.user_id` to `users.id` is enforced. SQLite enforces it only when `PRAGMA foreign_keys=ON` is set, and app/db/database.py is not part of this model. No route reaches the failing branch, because every caller passes the id of a user the gate found.
- Chat.UserLogs: the query has no ORDER BY. The model returns records in table (insertion) order.
- HTTP plumbing is not modelled: FastAPI routing and dependency injection, extracting the bearer token from the `Authorization` header, form parsing, and success status codes (201). SQLAlchemy sessions and `db.refresh` are not modelled either.
- The language model (app/chat/bot_logic.py) is an opaque total function. Its own fallback on exceptions is part of that function.
- The wiring modules contain no logic and are not modelled: app/main.py, app/routers/chatbot.py and add_user.py.
- Concurrent registrations are out of scope. So is the race between the existence check and the insert. The unique index appears only as the failure case of `Models.Database.AddUser`.
