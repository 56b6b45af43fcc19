/** `requireAuth` and `getCurrentUser` (server_php/middleware/auth.php): the
    bearer-token guard of the PHP back end and the global `$current_user`. */
module PhpAuth {
  import opened Wrappers
  import opened PhpString
  import Jwt

  /** The request headers by name, as `getallheaders()` returns them. */
  type Headers = map<string, string>

  /** `$headers['Authorization'] ?? $headers['authorization'] ?? null`. */
  function AuthorizationHeader(headers: Headers): Option<string> {
    if "Authorization" in headers then Some(headers["Authorization"])
    else if "authorization" in headers then Some(headers["authorization"])
    else None
  }

  /** PCRE's `\s`: space, \t, \n, \x0B, \f and \r. */
  predicate IsRegexSpace(c: char) {
    c == ' ' || c == '\t' || c == '\n' || c == '\r' || c as int == 0x0B || c as int == 0x0C
  }

  /** ASCII lower case, as the `i` modifier compares letters. */
  function Lower(c: char): char {
    if 'A' <= c <= 'Z' then (c as int + 32) as char else c
  }

  /** "Bearer" occurs at offset `i`, in any mix of cases. */
  predicate BearerAt(s: string, i: nat) {
    i + 6 <= |s| && forall k :: 0 <= k < 6 ==> Lower(s[i + k]) == "bearer"[k]
  }

  /** One way for `/Bearer\s+(.*)$/i` to match `s`: "Bearer" over [i, i+6),
      `\s+` over [i+6, j), the group `(.*)` over [j, e) (`.` is anything but a
      line feed) and `$` at `e`, which is the end or just before a final line feed. */
  ghost predicate RegexMatch(s: string, i: nat, j: nat, e: nat) {
    && i + 6 < j <= e <= |s|
    && BearerAt(s, i)
    && (forall k :: i + 6 <= k < j ==> IsRegexSpace(s[k]))
    && (forall k :: j <= k < e ==> s[k] != '\n')
    && (e == |s| || (e == |s| - 1 && s[e] == '\n'))
  }

  /** The end of the run of `\s` characters that starts at `j`. */
  function SpacesEnd(s: string, j: nat): (e: nat)
    requires j <= |s|
    ensures j <= e <= |s|
    ensures forall k :: j <= k < e ==> IsRegexSpace(s[k])
    ensures e == |s| || !IsRegexSpace(s[e])
    decreases |s| - j
  {
    if j < |s| && IsRegexSpace(s[j]) then SpacesEnd(s, j + 1) else j
  }

  /** Where the greedy `(.*)` that starts at `j` must stop for `$` to match. */
  function GroupEnd(s: string, j: nat): nat
    requires j <= |s|
  {
    if j < |s| && s[|s| - 1] == '\n' then |s| - 1 else |s|
  }

  /** The match attempt at `i` succeeds: after the longest `\s` run, no line
      feed follows except possibly the last character. */
  predicate MatchesAt(s: string, i: nat) {
    && BearerAt(s, i)
    && SpacesEnd(s, i + 6) > i + 6
    && forall k :: SpacesEnd(s, i + 6) <= k < |s| - 1 ==> s[k] != '\n'
  }

  /** The first capture group of a successful attempt at `i`. */
  function Capture(s: string, i: nat): string
    requires MatchesAt(s, i)
  {
    var j := SpacesEnd(s, i + 6);
    s[j..GroupEnd(s, j)]
  }

  /** Try the match attempts from offset `i` rightwards, as `preg_match` does. */
  function ExtractFrom(s: string, i: nat): Option<string>
    decreases |s| - i
  {
    if i + 6 > |s| then None
    else if MatchesAt(s, i) then Some(Capture(s, i))
    else ExtractFrom(s, i + 1)
  }

  /** `preg_match('/Bearer\s+(.*)$/i', $s, $matches)` and `$matches[1]`. */
  function ExtractBearer(s: string): (r: Option<string>)
    ensures r.None? <==> forall i: nat, j: nat, e: nat :: !RegexMatch(s, i, j, e)
    ensures r.Some? ==> exists i: nat, j: nat, e: nat :: Leftmost(s, 0, i, j, e) && r.value == s[j..e]
  {
    ExtractFromSound(s, 0);
    ExtractFrom(s, 0)
  }

  /** The attempt at `i` succeeds exactly when some match starts at `i`, and
      then its greedy choice (longest `\s+`, then longest group) is a match
      that no other match at `i` exceeds. */
  lemma MatchesAtSound(s: string, i: nat)
    ensures MatchesAt(s, i) <==> exists j: nat, e: nat :: RegexMatch(s, i, j, e)
    ensures MatchesAt(s, i) ==>
      var j := SpacesEnd(s, i + 6);
      && RegexMatch(s, i, j, GroupEnd(s, j))
      && forall j': nat, e': nat :: RegexMatch(s, i, j', e') ==> j' <= j && e' <= GroupEnd(s, j)
  {
    if MatchesAt(s, i) {
      var j := SpacesEnd(s, i + 6);
      var e := GroupEnd(s, j);
      assert RegexMatch(s, i, j, e);
      assert j == |s| || !IsRegexSpace(s[j]);
      assert e < |s| ==> j < |s| && s[|s| - 1] == '\n';
    }
    if exists j: nat, e: nat :: RegexMatch(s, i, j, e) {
      var j': nat, e': nat :| RegexMatch(s, i, j', e');
      assert IsRegexSpace(s[i + 6]);
      var j := SpacesEnd(s, i + 6);
      assert j == |s| || !IsRegexSpace(s[j]);
      forall k | j <= k < |s| - 1 ensures s[k] != '\n' {
        assert k < e';
      }
    }
  }

  /** A match at `i`, `j`, `e` that starts leftmost among the matches at or
      after `i0`, and is greedy among the matches at `i`. */
  ghost predicate Leftmost(s: string, i0: nat, i: nat, j: nat, e: nat) {
    && i0 <= i
    && RegexMatch(s, i, j, e)
    && (forall i': nat, j': nat, e': nat :: i0 <= i' && RegexMatch(s, i', j', e') ==> i <= i')
    && (forall j': nat, e': nat :: RegexMatch(s, i, j', e') ==> j' <= j && e' <= e)
  }

  /** `ExtractFrom(s, i0)` finds the leftmost match starting at or after `i0`
      and returns its greedy capture; it fails only if no match starts there. */
  lemma {:induction false} ExtractFromSound(s: string, i0: nat)
    ensures ExtractFrom(s, i0).None? ==>
      forall i: nat, j: nat, e: nat :: i0 <= i && RegexMatch(s, i, j, e) ==> false
    ensures ExtractFrom(s, i0).Some? ==>
      exists i: nat, j: nat, e: nat :: Leftmost(s, i0, i, j, e) && ExtractFrom(s, i0).value == s[j..e]
    decreases |s| - i0
  {
    MatchesAtSound(s, i0);
    if i0 + 6 > |s| {
    } else if MatchesAt(s, i0) {
      var j := SpacesEnd(s, i0 + 6);
      var e := GroupEnd(s, j);
      assert Leftmost(s, i0, i0, j, e);
      assert ExtractFrom(s, i0).value == s[j..e];
    } else {
      ExtractFromSound(s, i0 + 1);
      assert ExtractFrom(s, i0) == ExtractFrom(s, i0 + 1);
      if ExtractFrom(s, i0 + 1).Some? {
        var i: nat, j: nat, e: nat :| Leftmost(s, i0 + 1, i, j, e) && ExtractFrom(s, i0 + 1).value == s[j..e];
        LeftmostSkip(s, i0, i, j, e);
      }
    }
  }

  /** With no match at `i0`, the leftmost match from `i0 + 1` is the leftmost from `i0`. */
  lemma LeftmostSkip(s: string, i0: nat, i: nat, j: nat, e: nat)
    requires Leftmost(s, i0 + 1, i, j, e)
    requires forall j': nat, e': nat :: !RegexMatch(s, i0, j', e')
    ensures Leftmost(s, i0, i, j, e)
  {
    forall i': nat, j': nat, e': nat | i0 <= i' && RegexMatch(s, i', j', e') ensures i <= i' {
      assert i' != i0;
    }
  }

  /** An attempt at an offset without "Bearer" fails and the search moves on. */
  lemma SkipNonBearer(s: string, i: nat)
    requires !BearerAt(s, i)
    ensures ExtractFrom(s, i) == ExtractFrom(s, i + 1)
  {
  }

  /** A header that is "Bearer", one space and a token without spaces or line
      feeds yields that token. */
  lemma BearerPrefix(t: string)
    requires forall k :: 0 <= k < |t| ==> !IsRegexSpace(t[k])
    ensures ExtractBearer("Bearer " + t) == Some(t)
  {
    var s := "Bearer " + t;
    assert s[0] == 'B' && s[1] == 'e' && s[2] == 'a' && s[3] == 'r' && s[4] == 'e' && s[5] == 'r';
    assert BearerAt(s, 0);
    assert IsRegexSpace(s[6]);
    assert SpacesEnd(s, 7) == 7 by {
      if |t| > 0 {
        assert s[7] == t[0];
      }
    }
    assert SpacesEnd(s, 6) == 7;
    forall k | 7 <= k < |s| ensures s[k] != '\n' {
      assert s[k] == t[k - 7];
    }
    assert MatchesAt(s, 0);
    assert GroupEnd(s, 7) == |s|;
    assert Capture(s, 0) == s[7..|s|] == t;
    assert ExtractFrom(s, 0) == Some(Capture(s, 0));
  }

  /** How the guard ends: a 401 with a message, or the decoded claims. */
  datatype AuthOutcome = Rejected(status: int, message: string) | Authenticated(user: Jwt.Payload)

  const NoToken := "Token não fornecido"
  const BadFormat := "Formato de token inválido"
  const BadToken := "Token inválido ou expirado"

  /** The decision `requireAuth` takes for a request, `JWT::decode` run under
      `key` at time `now`. PHP's `!` makes "" and "0" missing, and an empty
      claims array a failed decode. */
  function Authenticate(headers: Headers, key: string, hmac: Jwt.Hmac, json: Jwt.JsonCodec, now: int): (r: AuthOutcome)
    ensures r.Rejected? ==> r.status == 401
    ensures IsFalsy(AuthorizationHeader(headers)) <==> r == Rejected(401, NoToken)
    ensures !IsFalsy(AuthorizationHeader(headers)) ==>
      (IsFalsy(ExtractBearer(AuthorizationHeader(headers).value)) <==> r == Rejected(401, BadFormat))
    ensures r.Authenticated? ==>
      && AuthorizationHeader(headers).Some?
      && ExtractBearer(AuthorizationHeader(headers).value).Some?
      && Jwt.Decode(ExtractBearer(AuthorizationHeader(headers).value).value, key, hmac, json, now) == Some(r.user)
      && r.user != map[]
  {
    var header := AuthorizationHeader(headers);
    if IsFalsy(header) then Rejected(401, NoToken)
    else
      var token := ExtractBearer(header.value);
      if IsFalsy(token) then Rejected(401, BadFormat)
      else
        var decoded := Jwt.Decode(token.value, key, hmac, json, now);
        if decoded.None? || decoded.value == map[] then Rejected(401, BadToken)
        else Authenticated(decoded.value)
  }

  /** Either spelling of the header name is read; `Authorization` decides
      when both are sent, and a request with neither has no token. */
  lemma HeaderSpellings(headers: Headers, v: string, w: string, key: string, hmac: Jwt.Hmac, json: Jwt.JsonCodec, now: int)
    ensures "Authorization" !in headers && "authorization" !in headers ==>
      Authenticate(headers, key, hmac, json, now) == Rejected(401, NoToken)
    ensures Authenticate(map["authorization" := v], key, hmac, json, now)
         == Authenticate(map["Authorization" := v], key, hmac, json, now)
    ensures Authenticate(map["Authorization" := v, "authorization" := w], key, hmac, json, now)
         == Authenticate(map["Authorization" := v], key, hmac, json, now)
  {
    assert AuthorizationHeader(map["authorization" := v]) == Some(v);
    assert AuthorizationHeader(map["Authorization" := v]) == Some(v);
    assert AuthorizationHeader(map["Authorization" := v, "authorization" := w]) == Some(v);
    SameHeaderAlike(map["authorization" := v], map["Authorization" := v], key, hmac, json, now);
    SameHeaderAlike(map["Authorization" := v, "authorization" := w], map["Authorization" := v], key, hmac, json, now);
  }

  /** Only the header value that is looked up matters. */
  lemma SameHeaderAlike(h1: Headers, h2: Headers, key: string, hmac: Jwt.Hmac, json: Jwt.JsonCodec, now: int)
    requires AuthorizationHeader(h1) == AuthorizationHeader(h2)
    ensures Authenticate(h1, key, hmac, json, now) == Authenticate(h2, key, hmac, json, now)
  {
  }

  /** A bad signature and an expired token are not told apart: once a token
      has been extracted, every decode failure gives the same rejection. */
  lemma DecodeFailuresAlike(headers: Headers, key: string, hmac: Jwt.Hmac, json: Jwt.JsonCodec, now: int)
    requires !IsFalsy(AuthorizationHeader(headers))
    requires !IsFalsy(ExtractBearer(AuthorizationHeader(headers).value))
    requires Jwt.Decode(ExtractBearer(AuthorizationHeader(headers).value).value, key, hmac, json, now).None?
    ensures Authenticate(headers, key, hmac, json, now) == Rejected(401, BadToken)
  {
  }

  /** "Authorization: Bearer <t>", for a token `t` without white space, is
      decided by decoding `t` alone. */
  lemma BearerTokenDecides(t: string, key: string, hmac: Jwt.Hmac, json: Jwt.JsonCodec, now: int)
    requires forall k :: 0 <= k < |t| ==> !IsRegexSpace(t[k])
    requires !IsEmpty(t)
    ensures var d := Jwt.Decode(t, key, hmac, json, now);
      Authenticate(map["Authorization" := "Bearer " + t], key, hmac, json, now)
        == if d.None? || d.value == map[] then Rejected(401, BadToken) else Authenticated(d.value)
  {
    BearerPrefix(t);
    var headers := map["Authorization" := "Bearer " + t];
    assert AuthorizationHeader(headers) == Some("Bearer " + t);
    assert |"Bearer " + t| > 1;
    ExtractedTokenDecides(headers, t, key, hmac, json, now);
  }

  /** Once a non-falsy header yields the non-falsy token `t`, decoding `t` decides. */
  lemma ExtractedTokenDecides(headers: Headers, t: string, key: string, hmac: Jwt.Hmac, json: Jwt.JsonCodec, now: int)
    requires AuthorizationHeader(headers).Some? && |AuthorizationHeader(headers).value| > 1
    requires ExtractBearer(AuthorizationHeader(headers).value) == Some(t) && !IsEmpty(t)
    ensures var d := Jwt.Decode(t, key, hmac, json, now);
      Authenticate(headers, key, hmac, json, now)
        == if d.None? || d.value == map[] then Rejected(401, BadToken) else Authenticated(d.value)
  {
  }

  /** A string of token characters holding a dot has no `\s` and is not falsy. */
  lemma TokenCharsNoSpace(t: string)
    requires '.' in t && forall k :: 0 <= k < |t| ==> Jwt.IsTokenChar(t[k])
    ensures forall k :: 0 <= k < |t| ==> !IsRegexSpace(t[k])
    ensures !IsEmpty(t)
  {
  }

  /** A token `JWT::encode` issued, sent as "Authorization: Bearer <token>",
      authenticates as exactly its payload until it expires, unless the
      payload is empty (falsy in PHP). */
  lemma IssuedTokenAuthenticates(p: Jwt.Payload, key: string, hmac: Jwt.Hmac, json: Jwt.JsonCodec, now: int)
    requires Jwt.RoundTrips(json)
    ensures Authenticate(map["Authorization" := "Bearer " + Jwt.Encode(p, key, hmac, json)], key, hmac, json, now)
         == if Jwt.Expired(p, now) || p == map[] then Rejected(401, BadToken) else Authenticated(p)
  {
    var t := Jwt.Encode(p, key, hmac, json);
    Jwt.EncodeAlphabet(p, key, hmac, json);
    TokenCharsNoSpace(t);
    BearerTokenDecides(t, key, hmac, json, now);
    Jwt.DecodeEncode(p, key, hmac, json, now);
  }

  /** The PHP request's global scope: `$current_user`. */
  class Session {
    var currentUser: Option<Jwt.Payload>

    /** `$current_user` only ever holds a non-empty payload. */
    ghost predicate Valid()
      reads this
    {
      currentUser.Some? ==> currentUser.value != map[]
    }

    /** A request starts with no current user. */
    constructor ()
      ensures currentUser == None
      ensures Valid()
    {
      currentUser := None;
    }

    /** `requireAuth()`: on success `$current_user` becomes the decoded claims;
        on a rejection the handler ends and nothing is assigned. */
    method RequireAuth(headers: Headers, key: string, hmac: Jwt.Hmac, json: Jwt.JsonCodec, now: int)
      returns (outcome: AuthOutcome)
      requires Valid()
      modifies this
      ensures Valid()
      ensures outcome == Authenticate(headers, key, hmac, json, now)
      ensures currentUser == if outcome.Authenticated? then Some(outcome.user) else old(currentUser)
    {
      outcome := Authenticate(headers, key, hmac, json, now);
      if outcome.Authenticated? {
        currentUser := Some(outcome.user);
      }
    }

    /** `getCurrentUser()`: `$current_user ?? null`. */
    function GetCurrentUser(): (u: Option<Jwt.Payload>)
      reads this
      requires Valid()
      ensures u.Some? ==> u.value != map[]
    {
      currentUser
    }
  }
}
