/** The credential handlers of the PHP back end
    (server_php/controllers/AuthController.php): `login`, `register` and
    `getProfile`, over the `users` table. The body fields are None when
    absent or null; tokens are issued with `JWT::encode`. */
module AuthPhp {
  import opened Wrappers
  import opened Http
  import opened PhpString
  import opened Users
  import Jwt
  import PhpAuth
  import AuthJs

  const MissingCredentials := "Email e password são obrigatórios"
  const InvalidCredentials := "Credenciais inválidas"
  const MissingFields := "Nome, email e password são obrigatórios"
  const EmailInUse := "Email já está em uso"
  const UserNotFound := "Utilizador não encontrado"

  /** `7 * 24 * 60 * 60`: a token's lifetime in seconds. */
  const SevenDays := 7 * 24 * 60 * 60

  /** What `login` and `register` send back on success. */
  datatype Session = Session(user: PublicUser, token: string)

  /** The payload both handlers encode: `id`, `email`, `name` and
      `exp = time() + 7 days`. */
  function SessionClaims(id: int, email: string, name: string, now: int): (p: Jwt.Payload)
    ensures p.Keys == {"id", "email", "name", "exp"}
    ensures p["id"] == Jwt.Num(id) && p["exp"] == Jwt.Num(now + SevenDays)
  {
    map["id" := Jwt.Num(id), "email" := Jwt.Text(email), "name" := Jwt.Text(name), "exp" := Jwt.Num(now + SevenDays)]
  }

  /** `login` at time `now` for the body's `email` and `password`: 400 when
      either is PHP-falsy, before any query; the same 401 when no row has
      the email or `password_verify` fails; otherwise the row's public
      columns and a token for it. */
  function Login(rows: seq<User>, email: Option<string>, password: Option<string>, h: Hasher,
                 key: string, hmac: Jwt.Hmac, json: Jwt.JsonCodec, now: int): (r: Response<Session>)
    ensures IsFalsy(email) || IsFalsy(password) ==> r == Failure(400, MissingCredentials)
    ensures !IsFalsy(email) && !IsFalsy(password) && UniqueEmails(rows) ==>
      (r.Success? <==> exists u :: u in rows && u.email == email.value && h.verify(password.value, u.passwordHash))
    ensures !IsFalsy(email) && !IsFalsy(password) && r.Failure? ==> r == Failure(401, InvalidCredentials)
    ensures r.Success? ==>
      && !IsFalsy(email) && !IsFalsy(password) && FindByEmail(rows, email.value).Some?
      && var u := FindByEmail(rows, email.value).value;
      && r.status == 200
      && r.data.user == Public(u)
      && h.verify(password.value, u.passwordHash)
      && r.data.token == Jwt.Encode(SessionClaims(u.id, u.email, u.name, now), key, hmac, json)
  {
    if IsFalsy(email) || IsFalsy(password) then Failure(400, MissingCredentials)
    else
      var user := FindByEmail(rows, email.value);
      if user.None? || !h.verify(password.value, user.value.passwordHash) then
        assert UniqueEmails(rows) && user.Some? ==> forall v :: v in rows && v.email == email.value ==> v == user.value by {
          if UniqueEmails(rows) && user.Some? {
            forall v | v in rows && v.email == email.value ensures v == user.value {
              FindOwnEmail(rows, v);
            }
          }
        }
        Failure(401, InvalidCredentials)
      else
        var u := user.value;
        var token := Jwt.Encode(SessionClaims(u.id, u.email, u.name, now), key, hmac, json);
        Success(200, Session(Public(u), token))
  }

  /** `!$name || !$email || !$password`: one of the register fields is missing. */
  predicate MissingField(name: Option<string>, email: Option<string>, password: Option<string>) {
    IsFalsy(name) || IsFalsy(email) || IsFalsy(password)
  }

  /** The `AuthController`: its `$this->db` connection, the users table. */
  class AuthController {
    const users: UsersTable

    constructor (users: UsersTable)
      ensures this.users == users
    {
      this.users := users;
    }

    /** `register` at time `now`: 400 for a missing field or a taken email,
        with no insert; otherwise one row with the password's hash, and 201
        with `avatar_url` null and a token for the new id. Any non-empty
        password is accepted. */
    method Register(name: Option<string>, email: Option<string>, password: Option<string>, h: Hasher,
                    key: string, hmac: Jwt.Hmac, json: Jwt.JsonCodec, now: int) returns (r: Response<Session>)
      requires users.Valid()
      modifies users
      ensures users.Valid()
      ensures MissingField(name, email, password) ==>
        && r == Failure(400, MissingFields)
        && users.rows == old(users.rows) && users.nextId == old(users.nextId)
      ensures !MissingField(name, email, password) && FindByEmail(old(users.rows), email.value).Some? ==>
        && r == Failure(400, EmailInUse)
        && users.rows == old(users.rows) && users.nextId == old(users.nextId)
      ensures !MissingField(name, email, password) && FindByEmail(old(users.rows), email.value).None? ==>
        var id := old(users.nextId);
        && users.rows == old(users.rows) + [User(id, name.value, email.value, h.hash(password.value), None, now)]
        && users.nextId == id + 1
        && r == Success(201, Session(PublicUser(id, name.value, email.value, None),
                                     Jwt.Encode(SessionClaims(id, email.value, name.value, now), key, hmac, json)))
      ensures UniqueEmails(old(users.rows)) ==> UniqueEmails(users.rows)
    {
      if IsFalsy(name) || IsFalsy(email) || IsFalsy(password) {
        return Failure(400, MissingFields);
      }
      if FindByEmail(users.rows, email.value).Some? {
        return Failure(400, EmailInUse);
      }
      var passwordHash := h.hash(password.value);
      ghost var before := users.rows;
      var userId := users.Insert(name.value, email.value, passwordHash, now);
      var token := Jwt.Encode(SessionClaims(userId, email.value, name.value, now), key, hmac, json);
      r := Success(201, Session(PublicUser(userId, name.value, email.value, None), token));
      if UniqueEmails(before) {
        AppendFreshEmail(before, users.rows[|users.rows| - 1]);
      }
    }
  }

  /** The id `getProfile` queries with: the current user's integer `id` claim. */
  function CurrentId(current: Option<Jwt.Payload>): Option<int> {
    if current.Some? && "id" in current.value && current.value["id"].Num? then Some(current.value["id"].n)
    else None
  }

  /** `getProfile` for `getCurrentUser()`: 404 when no row has its id,
      otherwise that row's public columns. */
  function GetProfile(rows: seq<User>, current: Option<Jwt.Payload>): (r: Response<PublicUser>)
    ensures r.Failure? <==> CurrentId(current).None? || forall i :: 0 <= i < |rows| ==> rows[i].id != CurrentId(current).value
    ensures r.Failure? ==> r == Failure(404, UserNotFound)
    ensures r.Success? ==> r.status == 200 && r.data.id == CurrentId(current).value
    ensures r.Success? ==> exists u :: u in rows && r.data == Public(u)
  {
    var found := if CurrentId(current).Some? then FindById(rows, CurrentId(current).value) else None;
    match found
    case None => Failure(404, UserNotFound)
    case Some(u) => Success(200, Public(u))
  }

  /** Whoever registers can then log in with the same email and password,
      and gets the same public columns (the token differs only when the
      clock has moved). */
  lemma RegisteredCanLogIn(rows: seq<User>, nextId: int, name: string, email: string, password: string,
                           h: Hasher, key: string, hmac: Jwt.Hmac, json: Jwt.JsonCodec, now: int)
    requires Sound(h) && UniqueEmails(rows)
    requires !MissingField(Some(name), Some(email), Some(password))
    requires FindByEmail(rows, email).None?
    ensures var u := User(nextId, name, email, h.hash(password), None, now);
      Login(rows + [u], Some(email), Some(password), h, key, hmac, json, now)
        == Success(200, Session(PublicUser(nextId, name, email, None),
                                Jwt.Encode(SessionClaims(nextId, email, name, now), key, hmac, json)))
  {
    var u := User(nextId, name, email, h.hash(password), None, now);
    AppendFreshEmail(rows, u);
    assert h.verify(password, h.hash(password));
  }

  /** The token of a login at time `now`, sent as "Authorization: Bearer
      <token>", authenticates as exactly its payload up to and including
      second `now + 7 days` and is refused after it; the authenticated
      payload then opens the profile of the row that logged in. */
  lemma LoginTokenLifetime(rows: seq<User>, email: Option<string>, password: Option<string>, h: Hasher,
                           key: string, hmac: Jwt.Hmac, json: Jwt.JsonCodec, now: int, later: int)
    requires Jwt.RoundTrips(json) && UniqueIds(rows)
    requires Login(rows, email, password, h, key, hmac, json, now).Success?
    ensures var u := FindByEmail(rows, email.value).value;
      var claims := SessionClaims(u.id, u.email, u.name, now);
      var headers := map["Authorization" := "Bearer " + Login(rows, email, password, h, key, hmac, json, now).data.token];
      && PhpAuth.Authenticate(headers, key, hmac, json, later)
           == (if later <= now + SevenDays then PhpAuth.Authenticated(claims) else PhpAuth.Rejected(401, PhpAuth.BadToken))
      && GetProfile(rows, Some(claims)) == Success(200, Public(u))
  {
    var u := FindByEmail(rows, email.value).value;
    SessionTokenLifetime(u.id, u.email, u.name, key, hmac, json, now, later);
    SessionOpensProfile(rows, u, now);
  }

  /** The payload of a session of row `u` opens `u`'s profile. */
  lemma SessionOpensProfile(rows: seq<User>, u: User, now: int)
    requires UniqueIds(rows) && u in rows
    ensures GetProfile(rows, Some(SessionClaims(u.id, u.email, u.name, now))) == Success(200, Public(u))
  {
    assert CurrentId(Some(SessionClaims(u.id, u.email, u.name, now))) == Some(u.id);
    FindOwnId(rows, u);
  }

  /** A session token issued at `now` authenticates as its payload exactly
      until second `now + 7 days`. */
  lemma SessionTokenLifetime(id: int, email: string, name: string,
                             key: string, hmac: Jwt.Hmac, json: Jwt.JsonCodec, now: int, later: int)
    requires Jwt.RoundTrips(json)
    ensures var claims := SessionClaims(id, email, name, now);
      PhpAuth.Authenticate(map["Authorization" := "Bearer " + Jwt.Encode(claims, key, hmac, json)], key, hmac, json, later)
        == if later <= now + SevenDays then PhpAuth.Authenticated(claims) else PhpAuth.Rejected(401, PhpAuth.BadToken)
  {
    var claims := SessionClaims(id, email, name, now);
    assert claims != map[] by { assert "id" in claims; }
    assert Jwt.Expired(claims, later) <==> now + SevenDays < later;
    PhpAuth.IssuedTokenAuthenticates(claims, key, hmac, json, later);
  }

  /** The two back ends disagree on passwords shorter than six characters:
      Node refuses them with 400, PHP accepts them. */
  lemma ShortPasswordOnlyRefusedByNode(name: string, email: string, password: string)
    requires name != "" && name != "0" && email != "" && email != "0"
    requires password != "0" && 0 < |password| < AuthJs.MinPasswordLength
    ensures AuthJs.RegisterCheck(Some(name), Some(email), Some(password)) == Some(AuthJs.ShortPassword)
    ensures !MissingField(Some(name), Some(email), Some(password))
  {
  }

  /** A password of "0" is missing to PHP but present to Node, which then
      refuses it as too short. */
  lemma ZeroPasswordMissingOnlyInPhp(name: string, email: string)
    requires name != "" && email != ""
    ensures MissingField(Some(name), Some(email), Some("0"))
    ensures AuthJs.RegisterCheck(Some(name), Some(email), Some("0")) != Some(AuthJs.MissingFields)
  {
  }
}
