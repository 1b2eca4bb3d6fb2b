/** The `User` record the backend stores and serialises. */
module Models {
  import opened Strconv
  import opened Bcrypt
  import opened Http

  /**
   * A row of the users table: `ID` is the auto-increment primary key (a Go
   * `uint`), `Email` carries a unique index, and `Password` holds the bcrypt
   * digest, never the password itself.
   */
  datatype User = User(id: Uint64, name: string, email: string, password: Digest)

  /** The zero value `models.User{}` a failed `First` query leaves in place. */
  const ZeroUser: User := User(0, "", "", Nil)

  /**
   * The JSON serialisation of a `User`: `id`, `name` and `email`; the
   * password field is tagged `json:"-"` and never appears.
   */
  function ToJson(u: User): (j: Body)
    ensures j.Keys == {"id", "name", "email"}
    ensures j["id"] == JNum(u.id) && j["name"] == JStr(u.name) && j["email"] == JStr(u.email)
  {
    map["id" := JNum(u.id), "name" := JStr(u.name), "email" := JStr(u.email)]
  }

  /** The serialisation does not depend on the stored hash. */
  lemma ToJsonHidesPassword(u: User, d: Digest)
    ensures "password" !in ToJson(u)
    ensures ToJson(u.(password := d)) == ToJson(u)
  {
  }
}
