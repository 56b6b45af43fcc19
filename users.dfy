/** The `users` table both back ends share, and the password hasher they
    store in it (bcrypt on both sides, kept abstract). */
module Users {
  import opened Wrappers

  /** A row of `users`; `avatarUrl` is NULL until set, `createdAt` is the
      insertion time the column default records. */
  datatype User = User(id: int, name: string, email: string, passwordHash: string,
                       avatarUrl: Option<string>, createdAt: int)

  /** The columns the handlers send back: `id, name, email, avatar_url`. */
  datatype PublicUser = PublicUser(id: int, name: string, email: string, avatarUrl: Option<string>)

  /** The public columns of a row. */
  function Public(u: User): PublicUser {
    PublicUser(u.id, u.name, u.email, u.avatarUrl)
  }

  /** `bcrypt.hash` / `password_hash` and `bcrypt.compare` / `password_verify`. */
  datatype Hasher = Hasher(hash: string -> string, verify: (string, string) -> bool)

  /** The one thing assumed of the hasher: a password verifies against its own hash. */
  ghost predicate Sound(h: Hasher) {
    forall p: string :: h.verify(p, h.hash(p))
  }

  /** The first row of `SELECT * FROM users WHERE email = ?`, or None. */
  function FindByEmail(rows: seq<User>, email: string): (r: Option<User>)
    ensures r.None? <==> forall i :: 0 <= i < |rows| ==> rows[i].email != email
    ensures r.Some? ==> r.value in rows && r.value.email == email
    decreases |rows|
  {
    if |rows| == 0 then None
    else if rows[0].email == email then Some(rows[0])
    else FindByEmail(rows[1..], email)
  }

  /** The row of `... WHERE id = ?`, or None. */
  function FindById(rows: seq<User>, id: int): (r: Option<User>)
    ensures r.None? <==> forall i :: 0 <= i < |rows| ==> rows[i].id != id
    ensures r.Some? ==> r.value in rows && r.value.id == id
    decreases |rows|
  {
    if |rows| == 0 then None
    else if rows[0].id == id then Some(rows[0])
    else FindById(rows[1..], id)
  }

  /** No two rows share an id (the primary key). */
  predicate UniqueIds(rows: seq<User>) {
    forall i, j :: 0 <= i < j < |rows| ==> rows[i].id != rows[j].id
  }

  /** No two rows share an email. */
  predicate UniqueEmails(rows: seq<User>) {
    forall i, j :: 0 <= i < j < |rows| ==> rows[i].email != rows[j].email
  }

  /** With unique ids, looking up the id of a row gives that row. */
  lemma FindOwnId(rows: seq<User>, u: User)
    requires UniqueIds(rows) && u in rows
    ensures FindById(rows, u.id) == Some(u)
  {
    var r := FindById(rows, u.id);
    var i :| 0 <= i < |rows| && rows[i] == r.value;
    var k :| 0 <= k < |rows| && rows[k] == u;
    assert rows[i].id == rows[k].id;
  }

  /** With unique emails, looking up the email of a row gives that row. */
  lemma FindOwnEmail(rows: seq<User>, u: User)
    requires UniqueEmails(rows) && u in rows
    ensures FindByEmail(rows, u.email) == Some(u)
  {
    var r := FindByEmail(rows, u.email);
    var i :| 0 <= i < |rows| && rows[i] == r.value;
    var k :| 0 <= k < |rows| && rows[k] == u;
    assert rows[i].email == rows[k].email;
  }

  /** The `users` table: its rows in insertion order and the next value of
      the AUTO_INCREMENT id. */
  class UsersTable {
    var rows: seq<User>
    var nextId: int

    /** Ids are unique and below the next one to be given out. */
    ghost predicate Valid()
      reads this
    {
      UniqueIds(rows) && forall i :: 0 <= i < |rows| ==> rows[i].id < nextId
    }

    /** An empty table whose ids start at 1. */
    constructor ()
      ensures rows == [] && nextId == 1 && Valid()
    {
      rows := [];
      nextId := 1;
    }

    /** `INSERT INTO users (name, email, password_hash) VALUES (?, ?, ?)` at
        time `now`: one row appended under the next id, which is returned as
        `insertId` / `lastInsertId()`. */
    method Insert(name: string, email: string, passwordHash: string, now: int) returns (id: int)
      requires Valid()
      modifies this
      ensures Valid()
      ensures id == old(nextId) && nextId == old(nextId) + 1
      ensures rows == old(rows) + [User(id, name, email, passwordHash, None, now)]
      ensures FindById(rows, id) == Some(User(id, name, email, passwordHash, None, now))
    {
      id := nextId;
      rows := rows + [User(id, name, email, passwordHash, None, now)];
      nextId := nextId + 1;
      FindOwnId(rows, rows[|rows| - 1]);
    }
  }

  /** Appending a row whose email no row has keeps emails unique, and the
      new row is then the one found under its email. */
  lemma AppendFreshEmail(rows: seq<User>, u: User)
    requires UniqueEmails(rows) && FindByEmail(rows, u.email).None?
    ensures UniqueEmails(rows + [u])
    ensures FindByEmail(rows + [u], u.email) == Some(u)
  {
    var all := rows + [u];
    assert forall i :: 0 <= i < |rows| ==> all[i] == rows[i];
    assert all[|rows|] == u;
    FindOwnEmail(all, u);
  }
}
