/** `JWT` (server_php/utils/JWT.php): the JWT compact serialization
    (RFC 7519; section 7.1 of RFC 7515) with HMAC SHA-256 (section 3.2 of
    RFC 7518), hand-rolled on top of base64url without padding.
    The HMAC, the JSON codec, the secret key and the clock are parameters. */
module Jwt {
  import opened Wrappers
  import opened Base64
  import opened PhpString

  /** A JSON value a claim can hold (integer, string or null). */
  datatype Claim = Num(n: int) | Text(s: string) | Null

  /** A decoded payload: what `json_decode($json, true)` makes of a JSON object. */
  type Payload = map<string, Claim>

  /** `json_encode` of a payload and `json_decode($bytes, true)`, which gives
      null (None) for text that is not a JSON object. */
  datatype JsonCodec = JsonCodec(serialize: Payload -> seq<Byte>, parse: seq<Byte> -> Option<Payload>)

  /** The one thing assumed of JSON: parsing a serialized payload gives it back. */
  ghost predicate RoundTrips(json: JsonCodec) {
    forall p :: json.parse(json.serialize(p)) == Some(p)
  }

  /** `hash_hmac('sha256', $message, $key, true)`: the raw MAC of a message under a key. */
  type Hmac = (string, string) -> seq<Byte>

  /** The bytes of a 7-bit ASCII string. */
  function Ascii(s: string): (b: seq<Byte>)
    requires forall k :: 0 <= k < |s| ==> s[k] as int < 128
    ensures |b| == |s|
  {
    seq(|s|, k requires 0 <= k < |s| => s[k] as int)
  }

  /** `json_encode(['typ' => 'JWT', 'alg' => 'HS256'])`. */
  const HeaderJson: seq<Byte> := Ascii("{\"typ\":\"JWT\",\"alg\":\"HS256\"}")

  /** The first segment of every token `Encode` issues. */
  function HeaderSegment(): string {
    UrlEncode(HeaderJson)
  }

  /** The third segment: the base64url MAC of "header.payload". */
  function Signature(header: string, payload: string, key: string, hmac: Hmac): string {
    UrlEncode(hmac(header + "." + payload, key))
  }

  /** `JWT::encode($payload)` under the secret `key`. */
  function Encode(payload: Payload, key: string, hmac: Hmac, json: JsonCodec): (jwt: string)
    ensures |Explode(jwt, '.')| == 3
    ensures Explode(jwt, '.')[0] == HeaderSegment()
    ensures UrlDecode(Explode(jwt, '.')[1]) == json.serialize(payload)
    ensures Explode(jwt, '.')[2] == Signature(Explode(jwt, '.')[0], Explode(jwt, '.')[1], key, hmac)
  {
    var header := HeaderSegment();
    var body := UrlEncode(json.serialize(payload));
    var signature := Signature(header, body, key, hmac);
    ThreeSegments(HeaderJson, json.serialize(payload), key, hmac);
    header + "." + body + "." + signature
  }

  /** The token built from two byte strings splits back into their
      encodings and the signature, and its middle segment decodes. */
  lemma ThreeSegments(hb: seq<Byte>, pb: seq<Byte>, key: string, hmac: Hmac)
    ensures var h, b := UrlEncode(hb), UrlEncode(pb);
      var parts := Explode(h + "." + b + "." + Signature(h, b, key, hmac), '.');
      && |parts| == 3 && parts[0] == h && parts[1] == b && parts[2] == Signature(h, b, key, hmac)
      && UrlDecode(b) == pb
  {
    var h, b := UrlEncode(hb), UrlEncode(pb);
    UrlEncodeAlphabet(hb);
    UrlEncodeAlphabet(pb);
    UrlEncodeAlphabet(hmac(h + "." + b, key));
    UrlDecodeEncode(pb);
    ExplodeThree(h, b, Signature(h, b, key, hmac), '.');
  }

  /** The characters of a token: base64url ones and the separator. */
  predicate IsTokenChar(c: char) {
    IsUrlChar(c) || c == '.'
  }

  /** An issued token is made of base64url characters and (at least one) dot. */
  lemma EncodeAlphabet(p: Payload, key: string, hmac: Hmac, json: JsonCodec)
    ensures var t := Encode(p, key, hmac, json);
      '.' in t && forall k :: 0 <= k < |t| ==> IsTokenChar(t[k])
  {
    TokenChars(HeaderJson, json.serialize(p), key, hmac);
  }

  /** The token built from two byte strings is made of base64url characters and dots. */
  lemma TokenChars(hb: seq<Byte>, pb: seq<Byte>, key: string, hmac: Hmac)
    ensures var h, b := UrlEncode(hb), UrlEncode(pb);
      var t := h + "." + b + "." + Signature(h, b, key, hmac);
      '.' in t && forall k :: 0 <= k < |t| ==> IsTokenChar(t[k])
  {
    var h := UrlEncode(hb);
    var b := UrlEncode(pb);
    var g := Signature(h, b, key, hmac);
    assert forall k :: 0 <= k < |h| ==> IsTokenChar(h[k]);
    assert forall k :: 0 <= k < |b| ==> IsTokenChar(b[k]);
    assert forall k :: 0 <= k < |g| ==> IsTokenChar(g[k]);
    JoinChars(h, b, g);
  }

  /** Three segments of token characters, joined by dots, give a token. */
  lemma JoinChars(h: string, b: string, g: string)
    requires forall k :: 0 <= k < |h| ==> IsTokenChar(h[k])
    requires forall k :: 0 <= k < |b| ==> IsTokenChar(b[k])
    requires forall k :: 0 <= k < |g| ==> IsTokenChar(g[k])
    ensures var t := h + "." + b + "." + g;
      '.' in t && forall k :: 0 <= k < |t| ==> IsTokenChar(t[k])
  {
    var dot := ".";
    assert IsTokenChar(dot[0]);
    ConcatChars(h, dot);
    ConcatChars(h + dot, b);
    ConcatChars(h + dot + b, dot);
    ConcatChars(h + dot + b + dot, g);
    assert (h + dot + b + dot + g)[|h|] == '.';
  }

  /** Token characters stay token characters under concatenation. */
  lemma ConcatChars(x: string, y: string)
    requires forall k :: 0 <= k < |x| ==> IsTokenChar(x[k])
    requires forall k :: 0 <= k < |y| ==> IsTokenChar(y[k])
    ensures forall k :: 0 <= k < |x + y| ==> IsTokenChar((x + y)[k])
  {
    forall k | 0 <= k < |x + y| ensures IsTokenChar((x + y)[k]) {
      if k < |x| {
        assert (x + y)[k] == x[k];
      } else {
        assert (x + y)[k] == y[k - |x|];
      }
    }
  }

  /** The payload has an integer `exp` claim that lies before `now`.
      (`isset` is false for a null claim.) */
  predicate Expired(p: Payload, now: int) {
    "exp" in p && p["exp"].Num? && p["exp"].n < now
  }

  /** The three segments carry the signature of the first two under `key`. */
  predicate Signed(parts: seq<string>, key: string, hmac: Hmac)
    requires |parts| == 3
  {
    parts[2] == Signature(parts[0], parts[1], key, hmac)
  }

  /** `JWT::decode($jwt)` under the secret `key` at time `now`; None is PHP null. */
  function Decode(jwt: string, key: string, hmac: Hmac, json: JsonCodec, now: int): (r: Option<Payload>)
    ensures |Explode(jwt, '.')| != 3 ==> r.None?
    ensures r.Some? <==>
      var parts := Explode(jwt, '.');
      && |parts| == 3
      && Signed(parts, key, hmac)
      && json.parse(UrlDecode(parts[1])).Some?
      && !Expired(json.parse(UrlDecode(parts[1])).value, now)
    ensures r.Some? ==> r == json.parse(UrlDecode(Explode(jwt, '.')[1]))
  {
    var parts := Explode(jwt, '.');
    if |parts| != 3 then None
    else
      var header, payload, signature := parts[0], parts[1], parts[2];
      if signature != Signature(header, payload, key, hmac) then None
      else
        var data := json.parse(UrlDecode(payload));
        if data.Some? && Expired(data.value, now) then None
        else data
  }

  /** `decode(encode(p)) == p` under the same key, unless `p` has expired by `now`. */
  lemma DecodeEncode(p: Payload, key: string, hmac: Hmac, json: JsonCodec, now: int)
    requires RoundTrips(json)
    ensures Decode(Encode(p, key, hmac, json), key, hmac, json, now) == if Expired(p, now) then None else Some(p)
  {
    var parts := Explode(Encode(p, key, hmac, json), '.');
    assert json.parse(UrlDecode(parts[1])) == Some(p);
  }

  /** The expiry check is a strict `<`: a token is still accepted at the very
      second of its `exp`, and refused from the next one on. */
  lemma ExpiryBoundary(p: Payload, e: int, key: string, hmac: Hmac, json: JsonCodec)
    requires RoundTrips(json)
    requires "exp" in p && p["exp"] == Num(e)
    ensures Decode(Encode(p, key, hmac, json), key, hmac, json, e) == Some(p)
    ensures Decode(Encode(p, key, hmac, json), key, hmac, json, e + 1) == None
  {
    DecodeEncode(p, key, hmac, json, e);
    DecodeEncode(p, key, hmac, json, e + 1);
  }

  /** A payload without `exp` decodes at every time. */
  lemma NeverExpires(p: Payload, key: string, hmac: Hmac, json: JsonCodec, now: int)
    requires RoundTrips(json)
    requires "exp" !in p
    ensures Decode(Encode(p, key, hmac, json), key, hmac, json, now) == Some(p)
  {
    DecodeEncode(p, key, hmac, json, now);
  }

  /** The only token shapes `Decode` accepts are three dot-free segments whose
      last is the signature of the other two: any other third segment is refused. */
  lemma ForgedSignatureRefused(header: string, payload: string, signature: string,
                               key: string, hmac: Hmac, json: JsonCodec, now: int)
    requires '.' !in header && '.' !in payload && '.' !in signature
    requires signature != Signature(header, payload, key, hmac)
    ensures Decode(header + "." + payload + "." + signature, key, hmac, json, now) == None
  {
    ExplodeThree(header, payload, signature, '.');
  }

  /** The header segment is only signed over, never read: two tokens that differ
      only in a (dot-free) header, each correctly signed, decode alike. */
  lemma HeaderNotInspected(h1: string, h2: string, payload: string,
                           key: string, hmac: Hmac, json: JsonCodec, now: int)
    requires '.' !in h1 && '.' !in h2 && '.' !in payload
    ensures Decode(h1 + "." + payload + "." + Signature(h1, payload, key, hmac), key, hmac, json, now)
         == Decode(h2 + "." + payload + "." + Signature(h2, payload, key, hmac), key, hmac, json, now)
  {
    DecodeSigned(h1, payload, key, hmac, json, now);
    DecodeSigned(h2, payload, key, hmac, json, now);
  }

  /** A correctly signed token of dot-free segments decodes to its parsed,
      unexpired payload, whatever its header. */
  lemma DecodeSigned(h: string, payload: string, key: string, hmac: Hmac, json: JsonCodec, now: int)
    requires '.' !in h && '.' !in payload
    ensures var d := json.parse(UrlDecode(payload));
      Decode(h + "." + payload + "." + Signature(h, payload, key, hmac), key, hmac, json, now)
        == if d.Some? && Expired(d.value, now) then None else d
  {
    UrlEncodeAlphabet(hmac(h + "." + payload, key));
    ExplodeThree(h, payload, Signature(h, payload, key, hmac), '.');
  }
}
