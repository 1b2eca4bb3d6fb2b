/**
 * The browser between the two programs: it keeps the `jwt` cookie the
 * backend sets, sends it back while it is unexpired, and hands the whoami
 * response to the root component, whose name the home page greets.
 */
module Session {
  import opened Wrappers
  import opened Strconv
  import opened Jwt
  import opened Http
  import opened Models
  import opened UserTable
  import opened AuthController
  import App
  import HomePage

  /** The browser's cookies for the backend's origin, by name. */
  type Jar = map<string, Cookie>

  /** No header in `cookies` is named `n`. */
  predicate NoHeaderFor(cookies: seq<Cookie>, n: string) {
    forall i :: 0 <= i < |cookies| ==> cookies[i].name != n
  }

  /** The header at `i` is the last one of its name. */
  predicate LastOfItsName(cookies: seq<Cookie>, i: int)
    requires 0 <= i < |cookies|
  {
    forall k :: i < k < |cookies| ==> cookies[k].name != cookies[i].name
  }

  /**
   * What applying `cookies` in order to `jar` leaves: the old names plus the
   * headers' names; a name without a header keeps its cookie, and every
   * other name holds the last header of that name.
   */
  ghost predicate Applied(jar: Jar, cookies: seq<Cookie>, j: Jar) {
    && (forall n :: n in jar ==> n in j)
    && (forall i :: 0 <= i < |cookies| ==> cookies[i].name in j)
    && (forall n :: n in j ==> n in jar || exists i :: 0 <= i < |cookies| && cookies[i].name == n)
    && (forall n :: n in jar && NoHeaderFor(cookies, n) ==> j[n] == jar[n])
    && (forall i :: 0 <= i < |cookies| && LastOfItsName(cookies, i) ==> j[cookies[i].name] == cookies[i])
  }

  /** Applies Set-Cookie headers in order; a cookie replaces the stored one of the same name. */
  function Store(jar: Jar, cookies: seq<Cookie>): (j: Jar)
    ensures Applied(jar, cookies, j)
  {
    if cookies == [] then jar
    else
      var k := |cookies| - 1;
      var prev := Store(jar, cookies[..k]);
      AppliedStep(jar, cookies, prev);
      prev[cookies[k].name := cookies[k]]
  }

  /** One more header: storing the last one on top of the earlier ones' result. */
  lemma AppliedStep(jar: Jar, cookies: seq<Cookie>, prev: Jar)
    requires cookies != [] && Applied(jar, cookies[..|cookies| - 1], prev)
    ensures Applied(jar, cookies, prev[cookies[|cookies| - 1].name := cookies[|cookies| - 1]])
  {
    var k := |cookies| - 1;
    var earlier := cookies[..k];
    var c := cookies[k];
    var j := prev[c.name := c];
    assert forall i :: 0 <= i < k ==> earlier[i] == cookies[i];
    forall n | n in j
      ensures n in jar || exists i :: 0 <= i < |cookies| && cookies[i].name == n
    {
      if n != c.name && n !in jar {
        var i :| 0 <= i < k && earlier[i].name == n;
        assert cookies[i].name == n;
      }
    }
    forall n | n in jar && NoHeaderFor(cookies, n)
      ensures j[n] == jar[n]
    {
      assert NoHeaderFor(earlier, n);
    }
    forall i | 0 <= i < |cookies| && LastOfItsName(cookies, i)
      ensures j[cookies[i].name] == cookies[i]
    {
      if i < k {
        assert LastOfItsName(earlier, i);
      }
    }
  }

  /** A single Set-Cookie header replaces the cookie of its name and nothing else. */
  lemma StoreOne(jar: Jar, c: Cookie)
    ensures Store(jar, [c]) == jar[c.name := c]
  {
    assert [c][..0] == [];
  }

  /** Two responses' headers applied one after the other are their concatenation applied at once. */
  lemma {:induction false} StoreAppend(jar: Jar, a: seq<Cookie>, b: seq<Cookie>)
    ensures Store(jar, a + b) == Store(Store(jar, a), b)
    decreases |b|
  {
    if b == [] {
      assert a + b == a;
    } else {
      var k := |b| - 1;
      assert (a + b)[..|a + b| - 1] == a + b[..k];
      StoreAppend(jar, a, b[..k]);
    }
  }

  /** The cookies a request made at `now` carries: those whose expiry is still ahead, with their values. */
  function Send(jar: Jar, now: int): (sent: map<string, TokenText>)
    ensures forall n :: n in sent <==> n in jar && now < jar[n].expires
    ensures forall n :: n in sent ==> sent[n] == jar[n].value
  {
    map n | n in jar && now < jar[n].expires :: jar[n].value
  }

  /** The whoami request a page load issues: a GET without a body, credentials included. */
  function WhoamiRequest(jar: Jar, now: int): Request {
    Request(None, Send(jar, now))
  }

  /** How the root component sees a whoami response: its status and the body's `name` string. */
  function Observe(r: Response): (o: App.FetchOutcome)
    ensures o.Received? && o.status == r.status
    ensures "name" in r.body && r.body["name"].JStr? ==> o.name == r.body["name"].s
    ensures !("name" in r.body && r.body["name"].JStr?) ==> o.name == ""
  {
    var name := if "name" in r.body && r.body["name"].JStr? then r.body["name"].s else "";
    App.Received(r.status, name)
  }

  /**
   * Logging out clears the session whatever the jar held before: from then
   * on no `jwt` cookie is sent and whoami answers 401, which leaves the
   * component's name as it was.
   */
  lemma LogoutEndsSession(jar: Jar, t: Table, loggedOut: int, later: int, userName: string)
    requires loggedOut <= later
    ensures var jar' := Store(jar, LogoutResponse(loggedOut).cookies);
            && "jwt" !in Send(jar', later)
            && UserResponse(t, WhoamiRequest(jar', later), later) == Unauthorized
            && App.AfterFetch(userName, Observe(Unauthorized)) == userName
  {
    StoreOne(jar, ClearedCookie(loggedOut));
  }

  /** Logging out twice leaves the browser and the response as logging out once. */
  lemma LogoutIdempotent(jar: Jar, now: int)
    ensures var once := Store(jar, LogoutResponse(now).cookies);
            Store(once, LogoutResponse(now).cookies) == once
  {
    var c := ClearedCookie(now);
    StoreOne(jar, c);
    StoreOne(jar[c.name := c], c);
  }

  /**
   * End to end: after a successful login the browser holds the session
   * cookie, and a page load within the next day greets the logged-in user
   * by name (for ids below 2^63, whose record the whoami lookup finds).
   */
  lemma LoginThenPageLoadGreets(t: Table, req: Request, now: int, signFails: bool,
                                jar: Jar, t': Table, later: int)
    requires UserTable.Valid(t) && UserTable.Valid(t') && Extends(t, t')
    requires LoginResponse(t, req, now, signFails).status == StatusAccepted
    requires now <= later < now + Day
    requires LoginLookup(t, req.body.value).id < TwoTo63
    ensures var u := LoginLookup(t, req.body.value);
            var jar' := Store(jar, LoginResponse(t, req, now, signFails).cookies);
            var r := UserResponse(t', WhoamiRequest(jar', later), later);
            && r == Response(StatusOK, ToJson(u), [])
            && App.AfterFetch("", Observe(r)) == u.name
            && HomePage.Greeting(App.AfterFetch("", Observe(r))) ==
               (if u.name == "" then HomePage.NotLoggedIn else HomePage.WelcomePrefix + u.name)
  {
    var resp := LoginResponse(t, req, now, signFails);
    var jar' := Store(jar, resp.cookies);
    StoreOne(jar, resp.cookies[0]);
    var req' := WhoamiRequest(jar', later);
    assert CookieValue(req', "jwt") == resp.cookies[0].value;
    LoginUserRoundTrip(t, req, now, signFails, t', req', later);
  }
}
