/**
 * The part of the Fiber request context the handlers use: the parsed JSON
 * body, the request cookies, and the response status, JSON body and
 * Set-Cookie headers the handler writes.
 */
module Http {
  import opened Wrappers
  import opened Jwt

  const StatusOK: int := 200
  const StatusAccepted: int := 202
  const StatusBadRequest: int := 400
  const StatusUnauthorized: int := 401
  const StatusInternalServerError: int := 500

  /** The JSON values the handlers send: strings and integers. */
  datatype Json = JStr(s: string) | JNum(n: int)

  /** A JSON object, as `fiber.Map` or a serialised struct. */
  type Body = map<string, Json>

  /** A one-field reply such as `fiber.Map{"error": text}` or `fiber.Map{"message": text}`. */
  function TextBody(key: string, text: string): (b: Body)
    ensures b.Keys == {key} && b[key] == JStr(text)
  {
    map[key := JStr(text)]
  }

  /** A `fiber.Cookie` as the handlers fill it in; `expires` is in seconds. */
  datatype Cookie = Cookie(name: string, value: TokenText, expires: int, httpOnly: bool, secure: bool)

  /**
   * An inbound request: the result of `c.BodyParser` into a
   * `map[string]string` (`None` when the body does not parse) and the
   * cookies the client sent.
   */
  datatype Request = Request(body: Option<map<string, string>>, cookies: map<string, TokenText>)

  /** Go's `data[key]` on a `map[string]string`: the empty string when absent. */
  function Field(data: map<string, string>, key: string): (v: string)
    ensures key in data ==> v == data[key]
    ensures key !in data ==> v == ""
  {
    if key in data then data[key] else ""
  }

  /** `c.Cookies(name)`: the empty string when the client sent no such cookie. */
  function CookieValue(req: Request, name: string): (v: TokenText)
    ensures name in req.cookies ==> v == req.cookies[name]
    ensures name !in req.cookies ==> v == Raw("")
  {
    if name in req.cookies then req.cookies[name] else Raw("")
  }

  /** What a handler leaves in the context: status, JSON body, Set-Cookie headers in order. */
  datatype Response = Response(status: int, body: Body, cookies: seq<Cookie>)

  /** The response of a handler that fails a guard: a status and a JSON body, no cookie. */
  function Reject(status: int, body: Body): (r: Response)
    ensures r.status == status && r.body == body && r.cookies == []
  {
    Response(status, body, [])
  }

  class Ctx {
    const request: Request
    var status: int
    var body: Body
    var cookies: seq<Cookie>

    /** The context as Fiber hands it to a handler: status 200, nothing written yet. */
    constructor (request: Request)
      ensures this.request == request && Pristine()
    {
      this.request := request;
      status := StatusOK;
      body := map[];
      cookies := [];
    }

    predicate Pristine()
      reads this
    {
      status == StatusOK && body == map[] && cookies == []
    }

    /** The response written so far. */
    function Written(): (r: Response)
      reads this
      ensures r.status == status && r.body == body && r.cookies == cookies
    {
      Response(status, body, cookies)
    }

    /** `c.Status(code)`. */
    method Status(code: int)
      modifies this
      ensures status == code && body == old(body) && cookies == old(cookies)
    {
      status := code;
    }

    /** `c.JSON(b)`: serialises `b` as the response body. */
    method JSON(b: Body)
      modifies this
      ensures body == b && status == old(status) && cookies == old(cookies)
    {
      body := b;
    }

    /** `c.Cookie(&cookie)`: appends a Set-Cookie header. */
    method SetCookie(cookie: Cookie)
      modifies this
      ensures cookies == old(cookies) + [cookie] && status == old(status) && body == old(body)
    {
      cookies := cookies + [cookie];
    }
  }
}
