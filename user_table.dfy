/**
 * The `users` table behind the GORM handle, as the backend queries it:
 * rows in primary-key order, an auto-increment counter, and the two
 * queries `Where("email = ?", e).First(&u)` and `Where("id = ?", i).First(&u)`.
 */
module UserTable {
  import opened Wrappers
  import opened Strconv
  import opened Bcrypt
  import opened Models

  /** The rows in ascending primary-key order and the next auto-increment value. */
  datatype Table = Table(rows: seq<User>, nextId: nat)

  /** The database's answer to `DB.Create`: the row went in, or the insert failed. */
  datatype CreateAnswer = Created | Failed(idConsumed: bool)

  /** The table as the first migration leaves it. */
  const EmptyTable: Table := Table([], 1)

  /**
   * The table invariant: every primary key is a nonzero `uint` below the
   * auto-increment counter, keys ascend, and the unique index on `email`
   * admits each address once (all three guaranteed by the schema); and,
   * because registration stores only bcrypt output, every stored password
   * is a digest.
   */
  ghost predicate Valid(t: Table) {
    && 1 <= t.nextId <= TwoTo64
    && (forall i :: 0 <= i < |t.rows| ==> 0 < t.rows[i].id < t.nextId && t.rows[i].password.Digest?)
    && (forall i, j :: 0 <= i < j < |t.rows| ==> t.rows[i].id < t.rows[j].id)
    && (forall i, j :: 0 <= i < j < |t.rows| ==> t.rows[i].email != t.rows[j].email)
  }

  /** The position of the first row `matches` accepts, or `|rows|` when there is none. */
  function FirstIndex(rows: seq<User>, matches: User -> bool): (k: nat)
    ensures k <= |rows|
    ensures k < |rows| ==> matches(rows[k])
    ensures forall j :: 0 <= j < k ==> !matches(rows[j])
  {
    if rows == [] then 0
    else if matches(rows[0]) then 0
    else 1 + FirstIndex(rows[1..], matches)
  }

  /** `First`: the matching row with the smallest primary key, if any. */
  function First(rows: seq<User>, matches: User -> bool): (r: Option<User>)
    ensures r.None? <==> forall i :: 0 <= i < |rows| ==> !matches(rows[i])
    ensures r.Some? ==> exists i :: 0 <= i < |rows| && rows[i] == r.value && matches(rows[i])
                                    && forall j :: 0 <= j < i ==> !matches(rows[j])
  {
    var k := FirstIndex(rows, matches);
    if k < |rows| then Some(rows[k]) else None
  }

  /** `DB.Where("email = ?", email).First(&user)`. */
  function FindByEmail(t: Table, email: string): (r: Option<User>)
    ensures r.None? <==> forall i :: 0 <= i < |t.rows| ==> t.rows[i].email != email
    ensures r.Some? ==> exists i :: 0 <= i < |t.rows| && t.rows[i] == r.value && r.value.email == email
                                    && forall j :: 0 <= j < i ==> t.rows[j].email != email
  {
    First(t.rows, (u: User) => u.email == email)
  }

  /** `DB.Where("id = ?", id).First(&user)`. */
  function FindById(t: Table, id: int): (r: Option<User>)
    ensures r.None? <==> forall i :: 0 <= i < |t.rows| ==> t.rows[i].id != id
    ensures r.Some? ==> exists i :: 0 <= i < |t.rows| && t.rows[i] == r.value && r.value.id == id
                                    && forall j :: 0 <= j < i ==> t.rows[j].id != id
  {
    First(t.rows, (u: User) => u.id == id)
  }

  /**
   * The table seen as a map from email address to user, built row by row
   * in primary-key order.
   */
  function ByEmail(rows: seq<User>): (m: map<string, User>)
    ensures forall e :: e in m ==> m[e] in rows && m[e].email == e
  {
    if rows == [] then map[]
    else
      var k := |rows| - 1;
      ByEmail(rows[..k])[rows[k].email := rows[k]]
  }

  /** Every row's email is a key of the map. */
  lemma {:induction false} ByEmailHasRow(rows: seq<User>, i: nat)
    requires i < |rows|
    ensures rows[i].email in ByEmail(rows)
  {
    var k := |rows| - 1;
    if i < k {
      ByEmailHasRow(rows[..k], i);
    }
  }

  /** Under the unique index, the email query finds exactly the map's entry. */
  lemma FindByEmailIsByEmail(t: Table, email: string)
    requires Valid(t)
    ensures FindByEmail(t, email).Some? <==> email in ByEmail(t.rows)
    ensures email in ByEmail(t.rows) ==> FindByEmail(t, email) == Some(ByEmail(t.rows)[email])
  {
    var r := FindByEmail(t, email);
    if r.Some? {
      var j :| 0 <= j < |t.rows| && t.rows[j] == r.value && t.rows[j].email == email;
      ByEmailHasRow(t.rows, j);
    }
    if email in ByEmail(t.rows) {
      var u := ByEmail(t.rows)[email];
      var i :| 0 <= i < |t.rows| && t.rows[i] == u;
      var j :| 0 <= j < |t.rows| && t.rows[j] == r.value && t.rows[j].email == email;
      assert i == j;
    }
  }

  /** Under the primary key, the id query finds the one row with that id. */
  lemma FindByIdUnique(t: Table, u: User)
    requires Valid(t) && u in t.rows
    ensures FindById(t, u.id) == Some(u)
  {
    var i :| 0 <= i < |t.rows| && t.rows[i] == u;
    var r := FindById(t, u.id);
    var j :| 0 <= j < |t.rows| && t.rows[j] == r.value && t.rows[j].id == u.id;
    assert i == j;
  }

  /** A zero id is never stored, so a zero-valued result means "no such row". */
  lemma NoZeroId(t: Table, email: string)
    requires Valid(t)
    ensures FindByEmail(t, email).GetOr(ZeroUser).id == 0 <==> FindByEmail(t, email).None?
  {
    var r := FindByEmail(t, email);
    if r.Some? {
      var i :| 0 <= i < |t.rows| && t.rows[i] == r.value && t.rows[i].email == email;
    }
  }

  /** `DB.Create(&user)`: the row gets the next auto-increment id. */
  function Insert(t: Table, name: string, email: string, password: Digest): (t': Table)
    requires t.nextId < TwoTo64
    ensures |t'.rows| == |t.rows| + 1 && t'.rows[..|t.rows|] == t.rows
    ensures t'.rows[|t.rows|] == User(t.nextId, name, email, password)
    ensures t'.nextId == t.nextId + 1
  {
    Table(t.rows + [User(t.nextId, name, email, password)], t.nextId + 1)
  }

  /**
   * A failed `DB.Create`. InnoDB does not hand out again an auto-increment
   * value that a failed insert already took (a duplicate-key violation, for
   * one); `idConsumed` says whether this failure took one.
   */
  function FailedInsert(t: Table, idConsumed: bool): (t': Table)
    ensures t'.rows == t.rows
    ensures t'.nextId == if idConsumed && t.nextId < TwoTo64 then t.nextId + 1 else t.nextId
  {
    if idConsumed && t.nextId < TwoTo64 then Table(t.rows, t.nextId + 1) else t
  }

  /** Inserting a digest under an unused email keeps the schema's guarantees. */
  lemma InsertValid(t: Table, name: string, email: string, password: Digest)
    requires Valid(t) && t.nextId < TwoTo64
    requires FindByEmail(t, email).None? && password.Digest?
    ensures Valid(Insert(t, name, email, password))
  {
    var t' := Insert(t, name, email, password);
    var n := |t.rows|;
    assert forall i :: 0 <= i < n ==> t'.rows[i] == t.rows[i];
    assert forall i :: 0 <= i < n ==> t.rows[i].email != email;
  }

  /** Inserting adds exactly one entry to the email map. */
  lemma InsertByEmail(t: Table, name: string, email: string, password: Digest)
    requires t.nextId < TwoTo64
    ensures ByEmail(Insert(t, name, email, password).rows) ==
            ByEmail(t.rows)[email := User(t.nextId, name, email, password)]
  {
    var rows' := Insert(t, name, email, password).rows;
    assert rows'[..|t.rows|] == t.rows;
  }

  /** Rows are only ever appended: a later table keeps every earlier row. */
  predicate Extends(t: Table, t': Table) {
    t.rows <= t'.rows
  }
}
