/** `authMiddleware` (server/middleware/auth.js): the bearer-token guard of
    the Node back end, with `jwt.verify` under the secret as a parameter. */
module JsAuth {
  import opened Wrappers
  import Jwt
  import PhpAuth

  /** What `jwt.verify(token, secret)` does: return the claims, or throw an
      error with a `name` ("JsonWebTokenError", "TokenExpiredError", ...). */
  datatype VerifyResult = Verified(claims: Jwt.Payload) | Thrown(name: string)

  /** `jwt.verify` with the secret fixed. */
  type Verifier = string -> VerifyResult

  /** `req.user`: the three claims copied from the token; None is `undefined`. */
  datatype RequestUser = RequestUser(id: Option<Jwt.Claim>, email: Option<Jwt.Claim>, name: Option<Jwt.Claim>)

  /** How the middleware ends: `next()` with `req.user` set, or one response. */
  datatype Outcome = Next(user: RequestUser) | Respond(status: int, message: string)

  const NoToken := "Token de autenticação não fornecido"
  const InvalidToken := "Token inválido"
  const ExpiredToken := "Token expirado"
  const VerifyFailed := "Erro ao verificar token"

  /** `s.startsWith(prefix)`, case-sensitive. */
  predicate StartsWith(s: string, prefix: string) {
    |prefix| <= |s| && s[..|prefix|] == prefix
  }

  /** A claim of the decoded token, as a property read gives it. */
  function ClaimOf(claims: Jwt.Payload, name: string): Option<Jwt.Claim> {
    if name in claims then Some(claims[name]) else None
  }

  /** `{ id: decoded.id, email: decoded.email, name: decoded.name }`. */
  function Project(claims: Jwt.Payload): RequestUser {
    RequestUser(ClaimOf(claims, "id"), ClaimOf(claims, "email"), ClaimOf(claims, "name"))
  }

  /** From the outcome of `jwt.verify` to the middleware's outcome (the `try`
      body after the verify, and the `catch`). */
  function Decide(result: VerifyResult): (r: Outcome)
    ensures r.Next? <==> result.Verified?
    ensures result.Verified? ==> r.user == Project(result.claims)
    ensures result.Thrown? && result.name == "JsonWebTokenError" ==> r == Respond(401, InvalidToken)
    ensures result.Thrown? && result.name == "TokenExpiredError" ==> r == Respond(401, ExpiredToken)
    ensures r.Respond? ==> (r.status == 500 <==> result.name != "JsonWebTokenError" && result.name != "TokenExpiredError")
  {
    match result
    case Verified(claims) => Next(Project(claims))
    case Thrown(name) =>
      if name == "JsonWebTokenError" then Respond(401, InvalidToken)
      else if name == "TokenExpiredError" then Respond(401, ExpiredToken)
      else Respond(500, VerifyFailed)
  }

  /** The decision `authMiddleware` takes for `req.headers.authorization`
      (None when the header is absent). */
  function Guard(authorization: Option<string>, verify: Verifier): (r: Outcome)
    ensures (authorization.None? || !StartsWith(authorization.value, "Bearer ")) <==> r == Respond(401, NoToken)
    ensures authorization.Some? && StartsWith(authorization.value, "Bearer ") ==>
      r == Decide(verify(authorization.value[7..]))
    ensures r.Respond? ==> r.status == 401 || r.status == 500
  {
    if authorization.None? || authorization.value == "" || !StartsWith(authorization.value, "Bearer ") then
      Respond(401, NoToken)
    else
      Decide(verify(authorization.value[7..]))
  }

  /** Exactly one of `next()` and a response happens, and `next()` only for a
      token that `jwt.verify` accepted. */
  lemma NextOnlyWhenVerified(authorization: Option<string>, verify: Verifier)
    ensures Guard(authorization, verify).Next? <==>
      && authorization.Some?
      && StartsWith(authorization.value, "Bearer ")
      && verify(authorization.value[7..]).Verified?
  {
  }

  /** An incoming request, as far as the middleware sees and changes it. */
  class Request {
    const authorization: Option<string>
    var user: Option<RequestUser>

    /** A request carrying the given header and no `req.user` yet. */
    constructor (authorization: Option<string>)
      ensures this.authorization == authorization && user == None
    {
      this.authorization := authorization;
      user := None;
    }

    /** `authMiddleware(req, res, next)`: `req.user` is assigned only when
        `next()` is called. */
    method AuthMiddleware(verify: Verifier) returns (outcome: Outcome)
      modifies this`user
      ensures outcome == Guard(authorization, verify)
      ensures user == if outcome.Next? then Some(outcome.user) else old(user)
    {
      if authorization.None? || authorization.value == "" || !StartsWith(authorization.value, "Bearer ") {
        return Respond(401, NoToken);
      }
      var token := authorization.value[7..];
      var decoded := verify(token);
      outcome := Decide(decoded);
      if outcome.Next? {
        user := Some(outcome.user);
      }
    }
  }

  /** For "Bearer " and a token without white space, both back ends check the
      same token. */
  lemma AgreeOnPlainBearer(t: string, verify: Verifier)
    requires forall k :: 0 <= k < |t| ==> !PhpAuth.IsRegexSpace(t[k])
    ensures PhpAuth.ExtractBearer("Bearer " + t) == Some(t)
    ensures Guard(Some("Bearer " + t), verify) == Decide(verify(t))
  {
    PhpAuth.BearerPrefix(t);
    assert ("Bearer " + t)[7..] == t;
  }

  /** The PHP regex ignores case, `startsWith` does not: "bearer abc" yields
      the token "abc" in PHP and is refused unverified here. */
  lemma LowerCaseSchemeDiverges(verify: Verifier)
    ensures PhpAuth.ExtractBearer("bearer abc") == Some("abc")
    ensures Guard(Some("bearer abc"), verify) == Respond(401, NoToken)
  {
    var s := "bearer abc";
    LowerCaseMatch(s);
    assert s[..7][0] != "Bearer "[0];
  }

  /** The attempt at offset 0 of "bearer abc" captures "abc". */
  lemma LowerCaseMatch(s: string)
    requires s == "bearer abc"
    ensures PhpAuth.ExtractFrom(s, 0) == Some("abc")
  {
    assert PhpAuth.BearerAt(s, 0);
    assert PhpAuth.SpacesEnd(s, 6) == 7;
    assert PhpAuth.MatchesAt(s, 0);
    assert s[7..10] == "abc";
  }

  /** The PHP regex eats the whole run of white space, `substring(7)` only
      one character: after "Bearer  abc" PHP checks "abc" and Node " abc". */
  lemma DoubleSpaceDiverges(verify: Verifier)
    ensures PhpAuth.ExtractBearer("Bearer  abc") == Some("abc")
    ensures Guard(Some("Bearer  abc"), verify) == Decide(verify(" abc"))
  {
    var s := "Bearer  abc";
    DoubleSpaceMatch(s);
    assert s[..7] == "Bearer ";
    assert s[7..] == " abc";
  }

  /** The attempt at offset 0 of "Bearer  abc" eats both spaces and captures "abc". */
  lemma DoubleSpaceMatch(s: string)
    requires s == "Bearer  abc"
    ensures PhpAuth.ExtractFrom(s, 0) == Some("abc")
  {
    assert s[0] == 'B' && s[1] == 'e' && s[5] == 'r';
    assert PhpAuth.BearerAt(s, 0);
    assert PhpAuth.IsRegexSpace(s[6]) && PhpAuth.IsRegexSpace(s[7]) && !PhpAuth.IsRegexSpace(s[8]);
    assert PhpAuth.SpacesEnd(s, 8) == 8;
    assert PhpAuth.SpacesEnd(s, 6) == 8;
    assert PhpAuth.MatchesAt(s, 0);
    assert s[8..11] == "abc";
  }

  /** The PHP regex is not anchored: "Token Bearer abc" yields "abc" in PHP
      and is refused unverified here. */
  lemma UnanchoredSchemeDiverges(verify: Verifier)
    ensures PhpAuth.ExtractBearer("Token Bearer abc") == Some("abc")
    ensures Guard(Some("Token Bearer abc"), verify) == Respond(401, NoToken)
  {
    var s := "Token Bearer abc";
    SkipToken(s);
    MatchAfterToken(s);
    assert s[..7][0] != "Bearer "[0];
  }

  /** No attempt at offsets 0 to 5 of "Token Bearer abc" sees "Bearer". */
  lemma SkipToken(s: string)
    requires s == "Token Bearer abc"
    ensures PhpAuth.ExtractFrom(s, 0) == PhpAuth.ExtractFrom(s, 6)
  {
    assert "bearer"[0] == 'b';
    forall i | 0 <= i < 6 ensures !PhpAuth.BearerAt(s, i) {
      assert PhpAuth.Lower(s[i]) != 'b';
    }
    PhpAuth.SkipNonBearer(s, 0);
    PhpAuth.SkipNonBearer(s, 1);
    PhpAuth.SkipNonBearer(s, 2);
    PhpAuth.SkipNonBearer(s, 3);
    PhpAuth.SkipNonBearer(s, 4);
    PhpAuth.SkipNonBearer(s, 5);
  }

  /** The attempt at offset 6 of "Token Bearer abc" captures "abc". */
  lemma MatchAfterToken(s: string)
    requires s == "Token Bearer abc"
    ensures PhpAuth.ExtractFrom(s, 6) == Some("abc")
  {
    assert PhpAuth.BearerAt(s, 6);
    assert PhpAuth.SpacesEnd(s, 12) == 13;
    assert PhpAuth.MatchesAt(s, 6);
    assert s[13..16] == "abc";
  }
}
