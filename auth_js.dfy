/** The credential handlers of the Node back end
    (server/controllers/authController.js): `generateToken`, `login`,
    `register` and `getProfile`, over the `users` table. bcrypt and
    `jwt.sign` are parameters. */
module AuthJs {
  import opened Wrappers
  import opened Http
  import opened Users
  import Jwt
  import JsAuth

  const MissingCredentials := "Email e password são obrigatórios"
  const InvalidCredentials := "Credenciais inválidas"
  const MissingFields := "Nome, email e password são obrigatórios"
  const ShortPassword := "A password deve ter pelo menos 6 caracteres"
  const EmailTaken := "Este email já está registado"
  const UserNotFound := "Utilizador não encontrado"

  /** `expiresIn: '7d'`, in seconds. */
  const SevenDays := 7 * 24 * 60 * 60

  /** The shortest password `register` accepts. */
  const MinPasswordLength := 6

  /** `jwt.sign(claims, process.env.JWT_SECRET, { expiresIn })` with the
      secret fixed; the expiry is given in seconds. */
  type Signer = (Jwt.Payload, int) -> string

  /** A verify result that carries every claim that was signed. */
  predicate Carries(r: JsAuth.VerifyResult, claims: Jwt.Payload) {
    r.Verified? && forall k :: k in claims ==> k in r.claims && r.claims[k] == claims[k]
  }

  /** What is assumed of `jwt.sign` and `jwt.verify` under the same secret,
      with the token verified in the second it was signed (neither function
      takes a clock here): a token signed with a positive `expiresIn`
      over claims that set none of the registered times `exp`, `nbf` and
      `iat` verifies and carries those claims (the library adds `iat` and
      `exp` itself, and refuses to sign a payload that already holds `exp`). */
  ghost predicate Accepts(sign: Signer, verify: JsAuth.Verifier) {
    forall claims: Jwt.Payload, e: int ::
      e > 0 && "exp" !in claims && "nbf" !in claims && "iat" !in claims ==>
        Carries(verify(sign(claims, e)), claims)
  }

  /** JavaScript's `!x` for a request field that is absent or a string. */
  predicate Falsy(x: Option<string>) {
    x.None? || x.value == ""
  }

  /** What `login` and `register` send back on success. */
  datatype Session = Session(user: PublicUser, token: string)

  /** The claims `generateToken` signs: `{ id, email, name }`. */
  function TokenClaims(u: PublicUser): (c: Jwt.Payload)
    ensures c.Keys == {"id", "email", "name"}
  {
    map["id" := Jwt.Num(u.id), "email" := Jwt.Text(u.email), "name" := Jwt.Text(u.name)]
  }

  /** `generateToken(user)`: the user's three claims, valid for seven days. */
  function GenerateToken(u: PublicUser, sign: Signer): (t: string)
    ensures exists c: Jwt.Payload ::
      && t == sign(c, SevenDays) && c.Keys == {"id", "email", "name"}
      && c["id"] == Jwt.Num(u.id) && c["email"] == Jwt.Text(u.email) && c["name"] == Jwt.Text(u.name)
  {
    var c := TokenClaims(u);
    assert "id" in c && "email" in c && "name" in c;
    sign(c, SevenDays)
  }

  /** The `req.user` that `authMiddleware` sets for a token of `u`. */
  function RequestUserOf(u: PublicUser): JsAuth.RequestUser {
    JsAuth.RequestUser(Some(Jwt.Num(u.id)), Some(Jwt.Text(u.email)), Some(Jwt.Text(u.name)))
  }

  /** A token `generateToken` issued, sent as "Bearer <token>", passes
      `authMiddleware` with exactly the user's id, email and name. */
  lemma GeneratedTokenAuthenticates(u: PublicUser, sign: Signer, verify: JsAuth.Verifier)
    requires Accepts(sign, verify)
    ensures JsAuth.Guard(Some("Bearer " + GenerateToken(u, sign)), verify) == JsAuth.Next(RequestUserOf(u))
  {
    var t := GenerateToken(u, sign);
    var header := "Bearer " + t;
    assert header[..7] == "Bearer " && header[7..] == t;
    assert "exp" !in TokenClaims(u) && "nbf" !in TokenClaims(u) && "iat" !in TokenClaims(u);
    assert Carries(verify(sign(TokenClaims(u), SevenDays)), TokenClaims(u));
    var claims := verify(t).claims;
    assert "id" in TokenClaims(u) && "email" in TokenClaims(u) && "name" in TokenClaims(u);
    assert claims["id"] == Jwt.Num(u.id) && claims["email"] == Jwt.Text(u.email) && claims["name"] == Jwt.Text(u.name);
  }

  /** `login` for the body's `email` and `password`: 400 when either is
      missing, before the table is read; one 401 for an unknown email and
      for a wrong password; otherwise the row's public columns and a token. */
  function Login(rows: seq<User>, email: Option<string>, password: Option<string>, h: Hasher, sign: Signer): (r: Response<Session>)
    ensures Falsy(email) || Falsy(password) ==> r == Failure(400, MissingCredentials)
    ensures !Falsy(email) && !Falsy(password) && UniqueEmails(rows) ==>
      (r.Success? <==> exists u :: u in rows && u.email == email.value && h.verify(password.value, u.passwordHash))
    ensures !Falsy(email) && !Falsy(password) && r.Failure? ==> r == Failure(401, InvalidCredentials)
    ensures r.Success? ==>
      && !Falsy(email) && !Falsy(password) && FindByEmail(rows, email.value).Some?
      && r.status == 200
      && Public(FindByEmail(rows, email.value).value) == r.data.user
      && r.data.user.email == email.value
      && h.verify(password.value, FindByEmail(rows, email.value).value.passwordHash)
      && r.data.token == GenerateToken(r.data.user, sign)
  {
    if Falsy(email) || Falsy(password) then Failure(400, MissingCredentials)
    else
      match FindByEmail(rows, email.value)
      case None => Failure(401, InvalidCredentials)
      case Some(u) =>
        if !h.verify(password.value, u.passwordHash) then
          assert UniqueEmails(rows) ==> forall v :: v in rows && v.email == email.value ==> v == u by {
            if UniqueEmails(rows) {
              forall v | v in rows && v.email == email.value ensures v == u {
                FindOwnEmail(rows, v);
              }
            }
          }
          Failure(401, InvalidCredentials)
        else Success(200, Session(Public(u), GenerateToken(Public(u), sign)))
  }

  /** The validation of `register` (lines 89-101): the message of the 400
      it responds with, or None to go on. */
  function RegisterCheck(name: Option<string>, email: Option<string>, password: Option<string>): (r: Option<string>)
    ensures r.None? <==> !Falsy(name) && !Falsy(email) && !Falsy(password) && |password.value| >= MinPasswordLength
    ensures r == Some(MissingFields) <==> Falsy(name) || Falsy(email) || Falsy(password)
    ensures r.Some? && r != Some(MissingFields) ==> r == Some(ShortPassword)
  {
    if Falsy(name) || Falsy(email) || Falsy(password) then Some(MissingFields)
    else if |password.value| < MinPasswordLength then Some(ShortPassword)
    else None
  }

  /** `register` at time `now`: a 400 from the validation or a 409 for a
      taken email leave the table as it was; otherwise one row holding the
      hash of the password is inserted and sent back, 201, with a token
      made from it. */
  method Register(users: UsersTable, name: Option<string>, email: Option<string>, password: Option<string>,
                  h: Hasher, sign: Signer, now: int) returns (r: Response<Session>)
    requires users.Valid()
    modifies users
    ensures users.Valid()
    ensures RegisterCheck(name, email, password).Some? ==>
      && r == Failure(400, RegisterCheck(name, email, password).value)
      && users.rows == old(users.rows) && users.nextId == old(users.nextId)
    ensures RegisterCheck(name, email, password).None? && FindByEmail(old(users.rows), email.value).Some? ==>
      && r == Failure(409, EmailTaken)
      && users.rows == old(users.rows) && users.nextId == old(users.nextId)
    ensures RegisterCheck(name, email, password).None? && FindByEmail(old(users.rows), email.value).None? ==>
      var u := User(old(users.nextId), name.value, email.value, h.hash(password.value), None, now);
      && users.rows == old(users.rows) + [u]
      && users.nextId == old(users.nextId) + 1
      && r == Success(201, Session(Public(u), GenerateToken(Public(u), sign)))
    ensures UniqueEmails(old(users.rows)) ==> UniqueEmails(users.rows)
  {
    var rejected := RegisterCheck(name, email, password);
    if rejected.Some? {
      return Failure(400, rejected.value);
    }
    var existing := FindByEmail(users.rows, email.value);
    if existing.Some? {
      return Failure(409, EmailTaken);
    }
    var passwordHash := h.hash(password.value);
    ghost var before := users.rows;
    var userId := users.Insert(name.value, email.value, passwordHash, now);
    var newUsers := FindById(users.rows, userId);
    var newUser := Public(newUsers.value);
    var token := GenerateToken(newUser, sign);
    r := Success(201, Session(newUser, token));
    if UniqueEmails(before) {
      AppendFreshEmail(before, users.rows[|users.rows| - 1]);
    }
  }

  /** The columns `getProfile` selects. */
  datatype Profile = Profile(id: int, name: string, email: string, avatarUrl: Option<string>, createdAt: int)

  /** `id, name, email, avatar_url, created_at` of a row. */
  function ProfileOf(u: User): Profile {
    Profile(u.id, u.name, u.email, u.avatarUrl, u.createdAt)
  }

  /** The id of `req.user` that matches a row: an integer claim. */
  function UserId(user: JsAuth.RequestUser): Option<int> {
    if user.id.Some? && user.id.value.Num? then Some(user.id.value.n) else None
  }

  /** `getProfile` for `req.user`: 404 when no row has its id. */
  function GetProfile(rows: seq<User>, user: JsAuth.RequestUser): (r: Response<Profile>)
    ensures r.Failure? <==> UserId(user).None? || forall i :: 0 <= i < |rows| ==> rows[i].id != UserId(user).value
    ensures r.Failure? ==> r == Failure(404, UserNotFound)
    ensures r.Success? ==> r.status == 200 && r.data.id == UserId(user).value
    ensures r.Success? ==> exists u :: u in rows && r.data == ProfileOf(u)
  {
    var found := if UserId(user).Some? then FindById(rows, UserId(user).value) else None;
    match found
    case None => Failure(404, UserNotFound)
    case Some(u) => Success(200, ProfileOf(u))
  }

  /** Whoever registers can then log in with the same email and password,
      and gets the same user and token that `register` sent. */
  lemma RegisteredCanLogIn(rows: seq<User>, nextId: int, name: string, email: string, password: string,
                           h: Hasher, sign: Signer, now: int)
    requires Sound(h) && UniqueEmails(rows)
    requires RegisterCheck(Some(name), Some(email), Some(password)).None?
    requires FindByEmail(rows, email).None?
    ensures var u := User(nextId, name, email, h.hash(password), None, now);
      Login(rows + [u], Some(email), Some(password), h, sign) == Success(200, Session(Public(u), GenerateToken(Public(u), sign)))
  {
    var u := User(nextId, name, email, h.hash(password), None, now);
    AppendFreshEmail(rows, u);
    assert h.verify(password, h.hash(password));
  }

  /** The token of a successful login opens the user's own profile: it
      passes `authMiddleware` with the user's claims, and `getProfile` for
      that `req.user` finds the row that logged in. */
  lemma LoginOpensProfile(rows: seq<User>, email: Option<string>, password: Option<string>, h: Hasher,
                          sign: Signer, verify: JsAuth.Verifier)
    requires UniqueIds(rows) && Accepts(sign, verify)
    requires Login(rows, email, password, h, sign).Success?
    ensures var s := Login(rows, email, password, h, sign).data;
      var g := JsAuth.Guard(Some("Bearer " + s.token), verify);
      && g == JsAuth.Next(RequestUserOf(s.user))
      && GetProfile(rows, g.user) == Success(200, ProfileOf(FindByEmail(rows, email.value).value))
  {
    var s := Login(rows, email, password, h, sign).data;
    var u := FindByEmail(rows, email.value).value;
    GeneratedTokenAuthenticates(s.user, sign, verify);
    FindOwnId(rows, u);
  }
}
