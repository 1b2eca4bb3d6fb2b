/**
 * The four authentication handlers of the backend. Each handler is a fixed
 * chain of guards with early returns; the pure functions below give the
 * response (and, for registration, the table afterwards) that the chain
 * produces, and class `Server` runs the chain step by step against a Fiber
 * context and the users table.
 *
 * The clock, the salt bcrypt draws, and the failure of a library or database
 * call are parameters: `now` is the value of `time.Now()` in whole seconds.
 */
module AuthController {
  import opened Wrappers
  import opened Strconv
  import opened Bcrypt
  import opened Jwt
  import opened Http
  import opened Models
  import opened UserTable

  /** The HMAC key every token is signed and checked with. */
  const SecretKey: string := "secret"

  /** `time.Hour * 24` and `time.Hour`, in seconds. */
  const Day: int := 86400
  const Hour: int := 3600

  const ParseFailed: Response := Reject(StatusBadRequest, TextBody("error", "Failed to parse request body"))
  const EmailTaken: Response := Reject(StatusBadRequest, TextBody("error", "Email already exists"))
  const HashFailed: Response := Reject(StatusInternalServerError, TextBody("error", "Failed to hash password"))
  const CreateFailed: Response := Reject(StatusInternalServerError, TextBody("error", "Failed to create user"))
  const Registered: Response := Response(StatusOK, TextBody("message", "User registered successfully"), [])
  const InvalidCredentials: Response := Reject(StatusUnauthorized, TextBody("message", "Invalid credentials"))
  const TokenFailed: Response := Reject(StatusInternalServerError, TextBody("error", "Failed to generate token"))
  const Unauthorized: Response := Reject(StatusUnauthorized, TextBody("error", "Unauthorized"))

  /** A handler's response together with the users table it leaves behind. */
  datatype Outcome = Outcome(response: Response, table: Table)

  // ---------------------------------------------------------------- Register

  /**
   * Registration inserts a user exactly when the body parses, no row has
   * the requested email, bcrypt produced a digest (`hashing` is the salt it
   * drew, `None` when it reported an error) and the insert succeeds
   * (`create` stands for the database's answer; the 64-bit id column
   * cannot take an id past its range either).
   */
  predicate RegisterSucceeds(t: Table, req: Request, hashing: Option<Salt>, create: CreateAnswer) {
    && req.body.Some?
    && FindByEmail(t, Field(req.body.value, "email")).None?
    && hashing.Some?
    && create.Created? && t.nextId < TwoTo64
  }

  /**
   * The row a successful registration stores: the request's name and email,
   * and a digest that verifies exactly the passwords sharing the request
   * password's effective bcrypt key (among them the request's password).
   */
  function NewUser(t: Table, data: map<string, string>, salt: Salt): (u: User)
    requires t.nextId < TwoTo64
    ensures u.id == t.nextId && u.name == Field(data, "name") && u.email == Field(data, "email")
    ensures u.password.Digest? && Verify(u.password, Field(data, "password"))
    ensures forall p :: Verify(u.password, p) <==> EffectiveKey(p) == EffectiveKey(Field(data, "password"))
  {
    User(t.nextId, Field(data, "name"), Field(data, "email"), Hash(Field(data, "password"), salt))
  }

  function RegisterOutcome(t: Table, req: Request, hashing: Option<Salt>, create: CreateAnswer): (o: Outcome)
    ensures o.response.cookies == []
    ensures o.response.status == StatusOK <==> RegisterSucceeds(t, req, hashing, create)
    ensures req.body.None? ==> o.response == ParseFailed
    ensures req.body.Some? && FindByEmail(t, Field(req.body.value, "email")).Some? ==>
              o.response == EmailTaken
    ensures req.body.Some? && FindByEmail(t, Field(req.body.value, "email")).None? && hashing.None? ==>
              o.response == HashFailed
    ensures req.body.Some? && FindByEmail(t, Field(req.body.value, "email")).None? && hashing.Some?
            && !(create.Created? && t.nextId < TwoTo64) ==>
              o.response == CreateFailed
    ensures o.response.status != StatusOK ==> o.table.rows == t.rows
    ensures o.response.status != StatusOK && o.response != CreateFailed ==> o.table == t
    ensures o.response == CreateFailed ==>
              o.table.nextId == if create.Failed? && create.idConsumed && t.nextId < TwoTo64 then t.nextId + 1 else t.nextId
    ensures RegisterSucceeds(t, req, hashing, create) ==>
              o.response == Registered
              && o.table == Insert(t, Field(req.body.value, "name"), Field(req.body.value, "email"),
                                   Hash(Field(req.body.value, "password"), hashing.value))
  {
    if req.body.None? then Outcome(ParseFailed, t)
    else
      var data := req.body.value;
      if FindByEmail(t, Field(data, "email")).Some? then Outcome(EmailTaken, t)
      else if hashing.None? then Outcome(HashFailed, t)
      else if create.Failed? then Outcome(CreateFailed, FailedInsert(t, create.idConsumed))
      else if t.nextId >= TwoTo64 then Outcome(CreateFailed, t)
      else
        var u := NewUser(t, data, hashing.value);
        Outcome(Registered, Insert(t, u.name, u.email, u.password))
  }

  /**
   * Registration keeps the table invariant; a successful one adds exactly
   * the new user to the email map, and every outcome keeps every earlier row.
   */
  lemma RegisterKeepsValid(t: Table, req: Request, hashing: Option<Salt>, create: CreateAnswer)
    requires UserTable.Valid(t)
    ensures UserTable.Valid(RegisterOutcome(t, req, hashing, create).table)
    ensures Extends(t, RegisterOutcome(t, req, hashing, create).table)
    ensures RegisterSucceeds(t, req, hashing, create) ==>
              ByEmail(RegisterOutcome(t, req, hashing, create).table.rows) ==
              ByEmail(t.rows)[Field(req.body.value, "email") := NewUser(t, req.body.value, hashing.value)]
  {
    if RegisterSucceeds(t, req, hashing, create) {
      var u := NewUser(t, req.body.value, hashing.value);
      InsertValid(t, u.name, u.email, u.password);
      InsertByEmail(t, u.name, u.email, u.password);
    }
  }

  /**
   * The duplicate-email check comes before hashing and inserting: a taken
   * email gets the same answer whatever the hasher and the database would do.
   */
  lemma DuplicateEmailBeforeHashing(t: Table, req: Request, h1: Option<Salt>, c1: CreateAnswer,
                                    h2: Option<Salt>, c2: CreateAnswer)
    requires req.body.Some? && FindByEmail(t, Field(req.body.value, "email")).Some?
    ensures RegisterOutcome(t, req, h1, c1) == RegisterOutcome(t, req, h2, c2) == Outcome(EmailTaken, t)
  {
  }

  // ------------------------------------------------------------------- Login

  /** The record `First` leaves in `user` for the login query: the match, or the zero value. */
  function LoginLookup(t: Table, data: map<string, string>): (u: User)
    ensures FindByEmail(t, Field(data, "email")).None? ==> u == ZeroUser
    ensures FindByEmail(t, Field(data, "email")).Some? ==> u in t.rows && u.email == Field(data, "email")
  {
    FindByEmail(t, Field(data, "email")).GetOr(ZeroUser)
  }

  /** The claims a login signs: the user's id in decimal as `sub`, expiry a day from now. */
  function SessionClaims(id: Uint64, now: int): (c: Claims)
    ensures c.exp == now + Day
    ensures UintOfInt(AtoiIgnoringError(c.sub)) == id
  {
    IdRoundTrip(id);
    Claims(Itoa(IntOfUint(id)), now + Day)
  }

  /** The `jwt` cookie a successful login sets. */
  function SessionCookie(id: Uint64, now: int): (c: Cookie)
    ensures c.name == "jwt" && c.httpOnly && c.secure && c.expires == now + Day
    ensures c.value == SignedString(SessionClaims(id, now), SecretKey)
  {
    Cookie("jwt", SignedString(SessionClaims(id, now), SecretKey), now + Day, true, true)
  }

  /** `signFails` stands for an error from `SignedString`. */
  function LoginResponse(t: Table, req: Request, now: int, signFails: bool): (r: Response)
    ensures req.body.None? ==> r == ParseFailed
    ensures req.body.Some? ==>
              (r.status == StatusUnauthorized <==>
                 LoginLookup(t, req.body.value).id == 0
                 || !Verify(LoginLookup(t, req.body.value).password, Field(req.body.value, "password")))
    ensures r.status == StatusUnauthorized ==> r == InvalidCredentials
    ensures r.status == StatusAccepted <==>
              req.body.Some? && LoginLookup(t, req.body.value).id != 0
              && Verify(LoginLookup(t, req.body.value).password, Field(req.body.value, "password"))
              && !signFails
    ensures r.status == StatusAccepted ==>
              r.body == TextBody("message", "Login successful")
              && r.cookies == [SessionCookie(LoginLookup(t, req.body.value).id, now)]
    ensures r.status != StatusAccepted ==> r.cookies == []
    ensures (req.body.Some? && LoginLookup(t, req.body.value).id != 0
             && Verify(LoginLookup(t, req.body.value).password, Field(req.body.value, "password"))
             && signFails) ==> r == TokenFailed
  {
    if req.body.None? then ParseFailed
    else
      var data := req.body.value;
      var user := LoginLookup(t, data);
      if user.id == 0 then InvalidCredentials
      else if !Verify(user.password, Field(data, "password")) then InvalidCredentials
      else if signFails then TokenFailed
      else Response(StatusAccepted, TextBody("message", "Login successful"), [SessionCookie(user.id, now)])
  }

  /**
   * Because no stored id is zero, the id test means "no such email": login is
   * refused exactly when the email is unknown or the password does not match.
   */
  lemma LoginRefusedIff(t: Table, data: map<string, string>, now: int, signFails: bool)
    requires UserTable.Valid(t)
    ensures var email := Field(data, "email");
            LoginResponse(t, Request(Some(data), map[]), now, signFails).status == StatusUnauthorized
            <==> (email !in ByEmail(t.rows) || !Verify(ByEmail(t.rows)[email].password, Field(data, "password")))
  {
    NoZeroId(t, Field(data, "email"));
    FindByEmailIsByEmail(t, Field(data, "email"));
  }

  /**
   * An unknown email and a wrong password for a known one get the very same
   * response, so a client cannot tell which addresses are registered.
   */
  lemma UnknownEmailLooksLikeWrongPassword(t: Table, unknown: Request, wrong: Request,
                                           now1: int, now2: int, sf1: bool, sf2: bool)
    requires UserTable.Valid(t)
    requires unknown.body.Some? && Field(unknown.body.value, "email") !in ByEmail(t.rows)
    requires wrong.body.Some? && Field(wrong.body.value, "email") in ByEmail(t.rows)
    requires !Verify(ByEmail(t.rows)[Field(wrong.body.value, "email")].password, Field(wrong.body.value, "password"))
    ensures LoginResponse(t, unknown, now1, sf1) == LoginResponse(t, wrong, now2, sf2) == InvalidCredentials
  {
    LoginRefusedIff(t, unknown.body.value, now1, sf1);
    LoginRefusedIff(t, wrong.body.value, now2, sf2);
    assert LoginResponse(t, unknown, now1, sf1) == LoginResponse(t, Request(unknown.body, map[]), now1, sf1);
    assert LoginResponse(t, wrong, now2, sf2) == LoginResponse(t, Request(wrong.body, map[]), now2, sf2);
  }

  // -------------------------------------------------------------------- User

  /** The record the whoami query leaves in `user`: the row with that id, or just the id. */
  function WhoamiLookup(t: Table, id: Int64): (u: User)
    ensures u.id == UintOfInt(id)
    ensures FindById(t, id).Some? ==> u in t.rows
    ensures FindById(t, id).None? ==> u.name == "" && u.email == "" && u.password == Nil
  {
    FindById(t, id).GetOr(User(UintOfInt(id), "", "", Nil))
  }

  function UserResponse(t: Table, req: Request, now: int): (r: Response)
    ensures r.cookies == []
    ensures r.status == StatusUnauthorized <==> ParseWithClaims(CookieValue(req, "jwt"), SecretKey, now).None?
    ensures r.status != StatusUnauthorized ==> r.status == StatusOK
    ensures r.status == StatusUnauthorized ==> r == Unauthorized
    ensures r.status == StatusOK ==>
              var id := AtoiIgnoringError(ParseWithClaims(CookieValue(req, "jwt"), SecretKey, now).value.sub);
              r.body.Keys == {"id", "name", "email"} && r.body["id"] == JNum(UintOfInt(id))
              && (FindById(t, id).Some? ==> r.body == ToJson(FindById(t, id).value))
              && (FindById(t, id).None? ==> r.body["name"] == JStr("") && r.body["email"] == JStr(""))
  {
    match ParseWithClaims(CookieValue(req, "jwt"), SecretKey, now)
    case None => Unauthorized
    case Some(claims) =>
      var id := AtoiIgnoringError(claims.sub);
      Response(StatusOK, ToJson(WhoamiLookup(t, id)), [])
  }

  /**
   * The session round trip: the cookie a login sets, sent back before it
   * expires, makes the whoami handler answer with that user's id, against
   * any later table. For ids below 2^63 it answers with the whole record;
   * above, `int(user.ID)` turns the id negative, the lookup finds no row and
   * only the id comes back.
   */
  lemma LoginUserRoundTrip(t: Table, req: Request, now: int, signFails: bool,
                           t': Table, req': Request, later: int)
    requires UserTable.Valid(t) && UserTable.Valid(t') && Extends(t, t')
    requires LoginResponse(t, req, now, signFails).status == StatusAccepted
    requires CookieValue(req', "jwt") == LoginResponse(t, req, now, signFails).cookies[0].value
    requires later < now + Day
    ensures var u := LoginLookup(t, req.body.value);
            var r := UserResponse(t', req', later);
            && r.status == StatusOK
            && r.body["id"] == JNum(u.id)
            && (u.id < TwoTo63 ==> r.body == ToJson(u))
  {
    var u := LoginLookup(t, req.body.value);
    NoZeroId(t, Field(req.body.value, "email"));
    var i :| 0 <= i < |t.rows| && t.rows[i] == u;
    assert t'.rows[i] == u;
    if u.id < TwoTo63 {
      FindByIdUnique(t', u);
    }
  }

  // ------------------------------------------------------------------ Logout

  /** The `jwt` cookie logout sets: empty, and expired an hour before `now`. */
  function ClearedCookie(now: int): (c: Cookie)
    ensures c.name == "jwt" && c.value == Raw("") && c.expires < now && c.httpOnly && c.secure
  {
    Cookie("jwt", Raw(""), now - Hour, true, true)
  }

  /** Logout reads neither the request nor the table. */
  function LogoutResponse(now: int): (r: Response)
    ensures r.status == StatusAccepted && r.body == TextBody("message", "Logout successful")
    ensures r.cookies == [ClearedCookie(now)]
  {
    Response(StatusAccepted, TextBody("message", "Logout successful"), [ClearedCookie(now)])
  }

  // ------------------------------------------------------------------ Server

  /** The backend process: the users table the handlers share through `database.DB`. */
  class Server {
    var table: Table

    ghost predicate Valid()
      reads this
    {
      UserTable.Valid(table)
    }

    constructor ()
      ensures Valid() && table == EmptyTable
    {
      table := EmptyTable;
    }

    method Register(c: Ctx, hashing: Option<Salt>, create: CreateAnswer)
      requires Valid() && c.Pristine()
      modifies this, c
      ensures Valid()
      ensures Outcome(c.Written(), table) == RegisterOutcome(old(table), c.request, hashing, create)
    {
      RegisterKeepsValid(table, c.request, hashing, create);
      if c.request.body.None? {
        c.Status(StatusBadRequest);
        c.JSON(TextBody("error", "Failed to parse request body"));
        return;
      }
      var data := c.request.body.value;
      if FindByEmail(table, Field(data, "email")).Some? {
        c.Status(StatusBadRequest);
        c.JSON(TextBody("error", "Email already exists"));
        return;
      }
      if hashing.None? {
        c.Status(StatusInternalServerError);
        c.JSON(TextBody("error", "Failed to hash password"));
        return;
      }
      var hashedPassword := Hash(Field(data, "password"), hashing.value);
      if create.Failed? || table.nextId >= TwoTo64 {
        if create.Failed? {
          table := FailedInsert(table, create.idConsumed);
        }
        c.Status(StatusInternalServerError);
        c.JSON(TextBody("error", "Failed to create user"));
        return;
      }
      table := Insert(table, Field(data, "name"), Field(data, "email"), hashedPassword);
      c.JSON(TextBody("message", "User registered successfully"));
    }

    /** Login writes only the context: the table is outside its frame. */
    method Login(c: Ctx, now: int, signFails: bool)
      requires c.Pristine()
      modifies c
      ensures c.Written() == LoginResponse(table, c.request, now, signFails)
    {
      if c.request.body.None? {
        c.Status(StatusBadRequest);
        c.JSON(TextBody("error", "Failed to parse request body"));
        return;
      }
      var data := c.request.body.value;
      var user := FindByEmail(table, Field(data, "email")).GetOr(ZeroUser);
      if user.id == 0 {
        c.Status(StatusUnauthorized);
        c.JSON(TextBody("message", "Invalid credentials"));
        return;
      }
      if !Verify(user.password, Field(data, "password")) {
        c.Status(StatusUnauthorized);
        c.JSON(TextBody("message", "Invalid credentials"));
        return;
      }
      var token := SignedString(Claims(Itoa(IntOfUint(user.id)), now + Day), SecretKey);
      if signFails {
        c.Status(StatusInternalServerError);
        c.JSON(TextBody("error", "Failed to generate token"));
        return;
      }
      c.SetCookie(Cookie("jwt", token, now + Day, true, true));
      c.Status(StatusAccepted);
      c.JSON(TextBody("message", "Login successful"));
    }

    method GetUser(c: Ctx, now: int)
      requires c.Pristine()
      modifies c
      ensures c.Written() == UserResponse(table, c.request, now)
    {
      var cookie := CookieValue(c.request, "jwt");
      var token := ParseWithClaims(cookie, SecretKey, now);
      if token.None? {
        c.Status(StatusUnauthorized);
        c.JSON(TextBody("error", "Unauthorized"));
        return;
      }
      var id := AtoiIgnoringError(token.value.sub);
      var user := User(UintOfInt(id), "", "", Nil);
      var found := FindById(table, id);
      if found.Some? {
        user := found.value;
      }
      c.JSON(ToJson(user));
    }

    method Logout(c: Ctx, now: int)
      requires c.Pristine()
      modifies c
      ensures c.Written() == LogoutResponse(now)
    {
      c.SetCookie(Cookie("jwt", Raw(""), now - Hour, true, true));
      c.Status(StatusAccepted);
      c.JSON(TextBody("message", "Logout successful"));
    }
  }
}
