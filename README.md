# JWT authentication: a verified model

This project models the authentication core of a small two-part web
application:

- a Go backend (Fiber, GORM, bcrypt, golang-jwt) with four handlers:
  register, login, "who am I" (the `User` handler) and logout. They work over
  a `users` table whose rows have an auto-increment id, a name, a unique
  email and a bcrypt digest of the password;
- a React frontend of which three pieces hold logic: the sign-up form's
  submit guard and email check, the root component's `userName` state, which
  is filled from the whoami call, and the home page's greeting.

Each Go handler is a chain of guards with early returns. The model states
each chain twice:

- as a pure function that gives the response, plus the table afterwards for
  registration (`RegisterOutcome`, `LoginResponse`, `UserResponse`,
  `LogoutResponse`);
- as a method of class `Server` that owns the table. The method runs the same
  chain step by step against a Fiber-like context (`Http.Ctx`): it sets the
  status, writes the JSON body and appends Set-Cookie headers. Its postcondition
  ties what it wrote to the pure function.

The lemmas are stated over the pure functions. They cover:

- the schema invariant: ids are nonzero and ascending, and each email appears
  once;
- the guard order;
- the fact that login failures cannot be told apart;
- the session round trip: login, then the cookie, then whoami, then the home
  page greeting.

Libraries and the environment are parameters or abstract values:

- bcrypt is a one-way `Hash(password, salt)` with `Verify`. The salt it draws
  is a parameter, and `None` stands for a hashing error. `Verify` compares
  effective keys: the password and a NUL byte, repeated to 72 bytes, which is
  all of the password that reaches Blowfish.
- An HS256 JSON Web Token (RFC 7519) is either a validly signed text that
  carries its `sub` and `exp` claims and its key, or any other string. It
  parses only while `now < exp`.
- `time.Now()` is a parameter `now` in whole seconds.
- Database and signing failures are parameters. A failed insert says whether
  it used up an auto-increment value.
- `strconv.Itoa`/`Atoi` and Go's 64-bit `int`/`uint` conversions are modelled
  exactly, because the whoami handler depends on them: it discards `Atoi`'s
  error, and the id passes through `int(...)` and `uint(...)`.

Modules: `Wrappers`, `Strconv`, `Bcrypt`, `Jwt`, `Http` (request, response,
cookie, context), `Models` (the `User` record), `UserTable` (the table and
its two GORM queries), `AuthController` (the four handlers), `SignUp`, `App`,
`HomePage`, and `Session` (the browser between the two programs: it stores
cookies, sends the unexpired ones, and passes the whoami answer to the
component).

No client-side login, register or logout call exists: `LoginPage.js` and
`RegisterPage.js` only log their input, so the frontend model stops at the
sign-up form, the root component and the home page.

## Model

| member | source | states |
|---|---|---|
| `Strconv.Itoa` | Backend/controllers/authController.go:94 | the decimal text of an id: non-empty, with a leading '-' exactly for negative values |
| `Strconv.ParseInt` | Backend/controllers/authController.go:148 | the base-10 syntax `Atoi` accepts: an optional sign followed by at least one digit; it fails exactly on the empty string, a lone sign, or a non-digit |
| `Strconv.AtoiIgnoringError` | Backend/controllers/authController.go:148 | `id, _ := strconv.Atoi(s)`. When the digits after the sign exceed `uint64`, it gives the bound of the sign, whatever follows them. Otherwise it gives 0 on a syntax error, the exact value inside the 64-bit range, and the value clamped to that range outside it |
| `Strconv.ScanUint` | Backend/controllers/authController.go:148 | the digit loop of `ParseUint` that `Atoi` runs: a syntax error at the first non-digit, and a range error at the first digit that takes the value past `2^64 - 1` |
| `Strconv.ScanFrom` | Backend/controllers/authController.go:148 | the loop agrees with the closed form: a range error exactly when the digit run exceeds `uint64`; otherwise a syntax error exactly when a non-digit follows; otherwise the value of the digits (by induction) |
| `Strconv.OverflowBeforeGarbage` | Backend/controllers/authController.go:148 | the digits of any `n >= 2^64` followed by a non-digit are no number, yet `Atoi` returns `2^63 - 1` for them, not 0 |
| `Strconv.NegativeOverflowBeforeGarbage` | Backend/controllers/authController.go:148 | the same text behind a minus sign gives `-2^63` |
| `Strconv.IntOfUint` | Backend/controllers/authController.go:94 | `int(user.ID)`: the 64-bit value congruent to the id modulo 2^64 |
| `Strconv.UintOfInt` | Backend/controllers/authController.go:149 | `uint(id)`: the unsigned value congruent to the signed one modulo 2^64 |
| `Strconv.DigitsValueOfNatToDigits` | Backend/controllers/authController.go:94 | reading back the digits `Itoa` prints gives the number (by induction) |
| `Strconv.ParseIntItoa` | Backend/controllers/authController.go:94 | parsing `Itoa(n)` gives back `n` for every integer |
| `Strconv.IdRoundTrip` | Backend/controllers/authController.go:94-148 | for every 64-bit unsigned id, `uint(Atoi(Itoa(int(id))))` is the id again |
| `Bcrypt.Hash` | Backend/controllers/authController.go:40 | the digest `GenerateFromPassword` makes: cost `DefaultCost`, the drawn salt |
| `Bcrypt.Verify` | Backend/controllers/authController.go:84 | `CompareHashAndPassword` accepts an attempt exactly when it has the digest's effective key; the empty password of a zero-valued record accepts nothing |
| `Bcrypt.VerifyHash` | Backend/controllers/authController.go:84 | a digest verifies the password it was made from, and exactly the attempts with the same effective key, whatever the salt |
| `Bcrypt.CycleTwice` | Backend/controllers/authController.go:40 | repeating a whole period of the key stream leaves the stream unchanged (by induction) |
| `Bcrypt.ShortPasswordsDistinct` | Backend/controllers/authController.go:84 | for NUL-free passwords shorter than 72 bytes, a digest verifies its own password and no other |
| `Bcrypt.LongPasswordsTruncated` | Backend/controllers/authController.go:84 | for passwords of 72 bytes or more, any attempt sharing the first 72 bytes verifies |
| `Bcrypt.NulRepeatVerifies` | Backend/controllers/authController.go:84 | the password, a NUL byte and the password again verifies against the password's digest |
| `Jwt.SignedString` | Backend/controllers/authController.go:93-97 | signing yields a token that carries exactly the given claims and key |
| `Jwt.ParseWithClaims` | Backend/controllers/authController.go:128-130 | a token parses exactly when it was signed with the key and `now` is strictly before `exp`, and then yields its claims |
| `Jwt.ParseSigned` | Backend/controllers/authController.go:93-130 | a signed token parses back to its claims until it expires, and not afterwards |
| `Http.Field` | Backend/controllers/authController.go:34 | `data[key]` on the parsed body is the value when present and "" when absent |
| `Http.CookieValue` | Backend/controllers/authController.go:125 | `c.Cookies("jwt")` is the sent value, or the empty string when no such cookie was sent |
| `Http.Ctx.constructor` | Backend/controllers/authController.go:58 | a fresh context has status 200 and no body or cookie, which is why Register's success reply is a 200 |
| `Http.Ctx.Status` | Backend/controllers/authController.go:27 | `c.Status` changes the status only |
| `Http.Ctx.JSON` | Backend/controllers/authController.go:27-29 | `c.JSON` replaces the body only |
| `Http.Ctx.SetCookie` | Backend/controllers/authController.go:113 | `c.Cookie` appends one Set-Cookie header and changes nothing else |
| `Models.ToJson` | Backend/models/user.go:3-7 | a serialised user has exactly the keys id, name and email, with the record's values |
| `Models.ToJsonHidesPassword` | Backend/models/user.go:7 | the serialisation contains no password and does not change when the digest does |
| `UserTable.Valid` | Backend/models/user.go:4-7 | the table invariant: ids nonzero, below the counter and ascending; each email at most once; every stored password a digest |
| `UserTable.FindByEmail` | Backend/controllers/authController.go:34 | the email query finds nothing exactly when no row has that email; otherwise it returns the first row in id order that has it |
| `UserTable.FindById` | Backend/controllers/authController.go:152 | the id query finds nothing exactly when no row has that id; otherwise it returns the first row in id order that has it |
| `UserTable.First` | Backend/controllers/authController.go:75 | `First` finds nothing exactly when no row matches; otherwise it returns a matching row |
| `UserTable.FirstIndex` | Backend/controllers/authController.go:34 | the first matching position in primary-key order: it matches, and no earlier row does |
| `UserTable.ByEmail` | Backend/models/user.go:6 | every key of the email map leads to a row with that email |
| `UserTable.ByEmailHasRow` | Backend/models/user.go:6 | every row's email is a key of the map (by induction) |
| `UserTable.FindByEmailIsByEmail` | Backend/models/user.go:6 | under the unique index, the email query finds a row exactly for the emails in the map, and finds that entry |
| `UserTable.FindByIdUnique` | Backend/models/user.go:4 | under the primary key, the id query returns the one stored row with that id |
| `UserTable.NoZeroId` | Backend/models/user.go:4 | no stored id is 0, so the zero-valued result of the email query means "no such row" |
| `UserTable.Insert` | Backend/controllers/authController.go:52 | `DB.Create` appends one row with the next auto-increment id, keeps every earlier row, and advances the counter |
| `UserTable.FailedInsert` | Backend/controllers/authController.go:52-56 | a failed insert keeps every row; the counter moves on by one exactly when the failure used up an id that still fit |
| `UserTable.InsertValid` | Backend/models/user.go:4-7 | inserting a digest under an unused email keeps the ids nonzero and ascending and the emails unique |
| `UserTable.InsertByEmail` | Backend/controllers/authController.go:47-52 | an insert adds exactly one entry to the email map |
| `AuthController.NewUser` | Backend/controllers/authController.go:47-51 | the new row has the next id and the request's name and email. Its stored password verifies the request's password, and exactly the passwords with the same effective bcrypt key |
| `AuthController.RegisterOutcome` | Backend/controllers/authController.go:23-60 | the 200 "User registered successfully" reply happens exactly when the body parses, the email is new, hashing works and the insert succeeds; it then inserts that one user. An unparseable body gets 400 "Failed to parse request body" and a taken email 400 "Email already exists". A hashing error gets 500 "Failed to hash password" and a failed insert 500 "Failed to create user". Every failure keeps the rows; only a failed insert that used up an id advances the counter. No cookie is ever set |
| `AuthController.RegisterKeepsValid` | Backend/controllers/authController.go:32-56 | registration keeps the table invariant and every earlier row; on success the email map gains exactly the new user |
| `AuthController.DuplicateEmailBeforeHashing` | Backend/controllers/authController.go:33-45 | a taken email gets 400 "Email already exists" and an unchanged table, whatever the hasher and the database would have done |
| `AuthController.SessionClaims` | Backend/controllers/authController.go:93-96 | the token's `exp` is a day after `now`, and its `sub` parses back to the user's id |
| `AuthController.SessionCookie` | Backend/controllers/authController.go:106-112 | the login cookie is named jwt, is HTTPOnly and Secure, expires a day after `now`, and holds the signed session claims |
| `AuthController.LoginResponse` | Backend/controllers/authController.go:62-119 | an unparseable body gets 400. The reply is 401 exactly when the looked-up id is 0 or the password does not verify, and every 401 is the same `{"message":"Invalid credentials"}`. A 202 happens exactly when the user authenticates and signing succeeds; it carries "Login successful" and the one session cookie. When signing fails the reply is 500 "Failed to generate token". Every other reply sets no cookie |
| `AuthController.LoginLookup` | Backend/controllers/authController.go:74-76 | the record login examines: the zero-valued user when no row has the email, otherwise a stored row with that email |
| `AuthController.LoginRefusedIff` | Backend/controllers/authController.go:75-90 | with a valid table, login is refused exactly when the email is not in the email map or the password does not match its digest |
| `AuthController.UnknownEmailLooksLikeWrongPassword` | Backend/controllers/authController.go:76-90 | an unknown email and a wrong password get identical responses |
| `AuthController.WhoamiLookup` | Backend/controllers/authController.go:149-152 | the record whoami serialises always has id `uint(id)`: the stored row when the query finds one, otherwise empty name, email and password |
| `AuthController.UserResponse` | Backend/controllers/authController.go:121-156 | the reply is 401 `{"error":"Unauthorized"}` exactly when the jwt cookie is missing, invalid or expired; otherwise 200 with id, name and email. The id is `uint(Atoi(sub))`, name and email come from the row with that id, and both are "" when there is no such row; no cookie is set |
| `AuthController.LoginUserRoundTrip` | Backend/controllers/authController.go:93-155 | the cookie from a successful login, sent back before it expires, makes whoami answer 200 with that user's id against any later valid table. For ids below 2^63 the answer is the user's full record |
| `AuthController.ClearedCookie` | Backend/controllers/authController.go:162-168 | the logout cookie is named jwt, is empty, HTTPOnly and Secure, and has already expired |
| `AuthController.LogoutResponse` | Backend/controllers/authController.go:158-175 | logout always answers 202 "Logout successful" and sets exactly the cleared cookie, whatever the request or the table |
| `AuthController.Server.Register` | Backend/controllers/authController.go:23-60 | the handler keeps the table invariant, and the response and new table it leaves are those of `RegisterOutcome` |
| `AuthController.Server.Login` | Backend/controllers/authController.go:62-119 | the handler writes the `LoginResponse` reply; the table is outside its frame, so login never changes it |
| `AuthController.Server.GetUser` | Backend/controllers/authController.go:121-156 | the handler writes the `UserResponse` reply and does not change the table |
| `AuthController.Server.Logout` | Backend/controllers/authController.go:158-175 | the handler writes the `LogoutResponse` reply and does not change the table |
| `SignUp.DotFrom` | Frontend/src/components/SignUp.js:50 | the scan finds a '.' that closes a non-whitespace run after the '@' exactly when one exists (both directions) |
| `SignUp.AtFrom` | Frontend/src/components/SignUp.js:50 | the scan finds an '@' that starts a match exactly when one exists (both directions) |
| `SignUp.PatternFoundIffAt` | Frontend/src/components/SignUp.js:50 | a substring matching `\S+@\S+\.\S+` exists exactly when some '@' has a non-whitespace character before it and a closing '.' after it |
| `SignUp.IsValidEmail` | Frontend/src/components/SignUp.js:47-51 | the check is true exactly when some substring of the email matches `\S+@\S+\.\S+`; the match is unanchored, and `\S` means outside ECMAScript's whitespace and line terminators |
| `SignUp.NoAtIsInvalid` | Frontend/src/components/SignUp.js:50 | a string without '@' is rejected |
| `SignUp.NoDotIsInvalid` | Frontend/src/components/SignUp.js:50 | a string without '.' is rejected |
| `SignUp.ShapeIsValid` | Frontend/src/components/SignUp.js:50 | every `x@y.z` with non-empty non-whitespace `x`, `y` and `z` is accepted |
| `SignUp.UnanchoredExamples` | Frontend/src/components/SignUp.js:50 | "a b@c.d", "a@b@c.d" and "a@..b" are accepted: whitespace outside the match is allowed, and '@' and '.' count as non-whitespace |
| `SignUp.SignUpForm.constructor` | Frontend/src/components/SignUp.js:6-9 | all four fields start empty |
| `SignUp.SignUpForm.HandleNameChange` | Frontend/src/components/SignUp.js:11-13 | sets the name and leaves the other three fields unchanged |
| `SignUp.SignUpForm.HandleEmailChange` | Frontend/src/components/SignUp.js:15-17 | sets the email and leaves the other three fields unchanged |
| `SignUp.SignUpForm.HandlePasswordChange` | Frontend/src/components/SignUp.js:19-21 | sets the password and leaves the other three fields unchanged |
| `SignUp.SignUpForm.HandleConfirmPasswordChange` | Frontend/src/components/SignUp.js:23-25 | sets the confirmation and leaves the other three fields unchanged |
| `SignUp.SignUpForm.HandleSubmit` | Frontend/src/components/SignUp.js:27-45 | a password that differs from its confirmation gets the mismatch alert, even when the email is also bad. Otherwise a bad email gets the invalid-email alert. `onSubmit` is called exactly when both checks pass, once, with name, email and password and without the confirmation |
| `App.AfterFetch` | Frontend/src/App.js:23-37 | an ok response (status 200-299) sets the name to the response's; a non-ok response or a caught exception keeps the old name |
| `App.AppState.constructor` | Frontend/src/App.js:11 | `userName` starts as the empty string |
| `App.AppState.FetchUserData` | Frontend/src/App.js:14-38 | the effect leaves `userName` as `AfterFetch` of the old name and the outcome; nothing escapes |
| `HomePage.Greeting` | Frontend/src/pages/HomePage.js:8 | an empty name gives "You are not Logged In"; any other name gives "Welcome, " followed by the name |
| `HomePage.WelcomeIffNamed` | Frontend/src/pages/HomePage.js:8 | the heading starts with "Welcome, " exactly when the name is non-empty |
| `HomePage.GreetingInjective` | Frontend/src/pages/HomePage.js:3-8 | equal headings come from equal names: the heading depends on the name alone and shows it |
| `Session.Store` | Backend/controllers/authController.go:113 | the jar afterwards holds exactly the old names and the headers' names; a name with no header keeps its old cookie, and every name with headers holds the last header of that name |
| `Session.StoreAppend` | Backend/controllers/authController.go:113-169 | applying two responses' headers one after the other equals applying their concatenation (by induction) |
| `Session.StoreOne` | Backend/controllers/authController.go:169 | a single Set-Cookie header replaces the cookie of its name and nothing else |
| `Session.Send` | Frontend/src/App.js:21 | a request carries exactly the stored cookies that have not yet expired, each with its stored value |
| `Session.WhoamiRequest` | Frontend/src/App.js:16-22 | the page's GET to the whoami route has no body and carries the cookies `Send` selects, because of `credentials: "include"` |
| `Session.Observe` | Frontend/src/App.js:23-31 | the component sees the whoami response's status, and its `name` field when that is a string, "" otherwise |
| `Session.LogoutEndsSession` | Backend/controllers/authController.go:162-174 | after logout, whatever the browser held before, no jwt cookie is sent and whoami answers 401; that answer leaves the component's name unchanged |
| `Session.LogoutIdempotent` | Backend/controllers/authController.go:158-175 | logging out twice leaves the browser as logging out once |
| `Session.LoginThenPageLoadGreets` | Frontend/src/pages/HomePage.js:8 | within a day of a successful login, a page load gets the user's record from whoami. For ids below 2^63, the component's name becomes the user's name and the home page greets it |

## Left out

- `Hello` (Backend/controllers/authController.go:18-20) is a fixed test route. It plays no part in authentication.
- The `!ok` branch after the claims type assertion (Backend/controllers/authController.go:140-145) cannot be taken: `ParseWithClaims` was given a `*jwt.MapClaims`, so the assertion always succeeds. The model has no such branch.
- Tokens whose `sub` claim is missing or not a string are not modelled. For those, the `.(string)` assertion at authController.go:148 panics. Every modelled token carries a string `sub`. Tokens with no `exp`, and the `nbf`/`iat`/leeway checks, are left out too.
- JWT encoding, base64, the `alg` header and HMAC-SHA256 are abstract. A validly signed text is represented by its claims and key, and any other text never parses.
- bcrypt is abstract: the digest encoding and the cost parameter's effect are not modelled. The effective key is taken over characters, one byte each, so the UTF-8 encoding of `[]byte(password)` is not modelled either. Any hashing error is the `None` salt, whatever its cause. That includes the refusal of passwords over 72 bytes by recent versions of `GenerateFromPassword`.
- Database errors other than "no row" are not modelled for the two lookups. In the source, a failing duplicate-email query reads as "email free", and a failing login query leaves id 0. The insert's answer is the `create` parameter. It says whether the insert succeeded and, if it failed, whether it used up an auto-increment value.
- The model compares emails exactly. MySQL compares them under the column's collation, for both the lookups and the unique index. By default that is case-insensitive, and, depending on the server version, accent-insensitive or blind to trailing spaces.
- Concurrent requests are not modelled: every handler runs alone against the table. A racing duplicate registration would surface as an insert failure.
- Time is whole seconds, and `time.Now()` is read once per handler. Login reads it twice in the source, and the token and the cookie round it differently.
- The cookie store is simplified: one origin, cookies keyed by name, and an expired cookie is never sent. Domain, path, and the effect of `HTTPOnly` and `Secure` (RFC 6265) are not modelled.
- Logging (`fmt.Println`, `console.log`, `console.error`), `alert` display, `e.preventDefault()`, JSX markup, CSS, and the `responseMessage` paragraph of the sign-up form are left out.
- `SignUp.SignUpForm.HandleSubmit` models the submit handler, not which inputs reach it. The form's `required` and `type="email"` attributes (Frontend/src/components/SignUp.js:66-103) make the browser block submission when a field is empty or when the email fails the browser's own anchored check, before `handleSubmit` runs. So, in a browser, "a b@c.d" never reaches `isValidEmail`.
- React's effect scheduling is reduced to one state transition per resolved outcome. The effect's single run per mount and the GET request with credentials appear only as `Session.WhoamiRequest`.
- `App.FetchUserData`: an ok response whose body has no `name` sets `userName` to `undefined` in the source. The model stores "", which every consumer treats the same way (both are falsy). An ok body whose `name` is not a string is not modelled.
- The `Navbar` receives `userName` but ignores it, so no banner is modelled. The login and register pages only log their input.
- Server startup, CORS, route registration and the database connection and migration are plumbing with no logic of their own.
- Go's `int` is taken to be 64 bits wide, as on the platforms the server targets.
