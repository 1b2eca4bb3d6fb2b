/**
 * The JSON Web Tokens (RFC 7519) the backend issues and accepts, signed with
 * HMAC-SHA256 (section 3.2 of RFC 7518). The encoding and the MAC are
 * abstract: a token text is either a validly signed compact serialisation,
 * which carries its claims and the key it was signed with, or any other
 * string. Only the `sub` (section 4.1.2 of RFC 7519) and `exp`
 * (section 4.1.4) claims are modelled; times are whole seconds since the
 * Unix epoch.
 */
module Jwt {
  import opened Wrappers

  datatype Claims = Claims(sub: string, exp: int)

  datatype TokenText =
    | Raw(text: string)
    | Signed(claims: Claims, key: string)

  /** `jwt.NewWithClaims(jwt.SigningMethodHS256, claims).SignedString(key)`. */
  function SignedString(claims: Claims, key: string): (t: TokenText)
    ensures t.Signed? && t.claims == claims && t.key == key
  {
    Signed(claims, key)
  }

  /**
   * `jwt.ParseWithClaims(text, &jwt.MapClaims{}, keyFunc)` where `keyFunc`
   * always returns `key`: the claims when the text is a token signed with
   * `key` whose expiry lies strictly after `now`, no claims otherwise.
   */
  function ParseWithClaims(t: TokenText, key: string, now: int): (r: Option<Claims>)
    ensures r.Some? <==> t.Signed? && t.key == key && now < t.claims.exp
    ensures r.Some? ==> r.value == t.claims
  {
    match t
    case Raw(_) => None
    case Signed(c, k) => if k == key && now < c.exp then Some(c) else None
  }

  /** A token parses back to the claims it was signed with until it expires. */
  lemma ParseSigned(claims: Claims, key: string, now: int)
    ensures ParseWithClaims(SignedString(claims, key), key, now) ==
            (if now < claims.exp then Some(claims) else None)
  {
  }
}
