/** Base64 (RFC 4648, section 4) as PHP's `base64_encode` and non-strict
    `base64_decode` compute it, and the URL-safe variant without padding
    (RFC 4648, section 5) built from them by `JWT::base64UrlEncode` and
    `JWT::base64UrlDecode`. */
module Base64 {
  import opened PhpString

  type Byte = b: int | 0 <= b < 256
  type Sextet = s: int | 0 <= s < 64

  /** The character of the standard alphabet (RFC 4648, table 1) for a sextet. */
  function StdChar(x: Sextet): char {
    if x < 26 then (65 + x) as char
    else if x < 52 then (97 + x - 26) as char
    else if x < 62 then (48 + x - 52) as char
    else if x == 62 then '+'
    else '/'
  }

  predicate IsStdChar(c: char) {
    ('A' <= c <= 'Z') || ('a' <= c <= 'z') || ('0' <= c <= '9') || c == '+' || c == '/'
  }

  /** The sextet a character of the standard alphabet stands for. */
  function StdIndex(c: char): (x: Sextet)
    requires IsStdChar(c)
    ensures StdChar(x) == c
  {
    if 'A' <= c <= 'Z' then c as int - 65
    else if 'a' <= c <= 'z' then c as int - 97 + 26
    else if '0' <= c <= '9' then c as int - 48 + 52
    else if c == '+' then 62
    else 63
  }

  /** The character of the URL-safe alphabet (RFC 4648, table 2) for a sextet. */
  function UrlChar(x: Sextet): char {
    if x == 62 then '-' else if x == 63 then '_' else StdChar(x)
  }

  predicate IsUrlChar(c: char) {
    ('A' <= c <= 'Z') || ('a' <= c <= 'z') || ('0' <= c <= '9') || c == '-' || c == '_'
  }

  /** The sextets of a byte string: each group of three bytes gives four, and a
      final group of one or two bytes is zero-filled to two or three. */
  function Sextets(b: seq<Byte>): (x: seq<Sextet>)
    ensures |x| == (4 * |b| + 2) / 3
  {
    if |b| == 0 then []
    else if |b| == 1 then [b[0] / 4, (b[0] % 4) * 16]
    else if |b| == 2 then [b[0] / 4, (b[0] % 4) * 16 + b[1] / 16, (b[1] % 16) * 4]
    else [b[0] / 4, (b[0] % 4) * 16 + b[1] / 16, (b[1] % 16) * 4 + b[2] / 64, b[2] % 64]
         + Sextets(b[3..])
  }

  /** The bytes a sequence of sextets carries, as PHP's decoder assembles them:
      every complete byte of the bit stream is kept, the leftover bits are dropped. */
  function DecodeSextets(x: seq<Sextet>): (b: seq<Byte>)
    ensures |b| == 3 * |x| / 4
  {
    if |x| < 2 then []
    else
      var x0, x1, x2 := x[0] as int, x[1] as int, if |x| > 2 then x[2] as int else 0;
      if |x| == 2 then [x0 * 4 + x1 / 16]
      else if |x| == 3 then [x0 * 4 + x1 / 16, (x1 % 16) * 16 + x2 / 4]
      else [x0 * 4 + x1 / 16, (x1 % 16) * 16 + x2 / 4, (x2 % 4) * 64 + x[3]]
           + DecodeSextets(x[4..])
  }

  /** Decoding the sextets of a byte string gives the byte string back. */
  lemma {:induction false} DecodeSextetsOfSextets(b: seq<Byte>)
    ensures DecodeSextets(Sextets(b)) == b
    decreases |b|
  {
    if |b| >= 3 {
      var head := [b[0] / 4, (b[0] % 4) * 16 + b[1] / 16, (b[1] % 16) * 4 + b[2] / 64, b[2] % 64];
      assert Sextets(b) == head + Sextets(b[3..]);
      assert (head + Sextets(b[3..]))[4..] == Sextets(b[3..]);
      DecodeSextetsOfSextets(b[3..]);
      assert b == b[..3] + b[3..];
    }
  }

  function StdChars(x: seq<Sextet>): (s: string)
    ensures |s| == |x| && forall k :: 0 <= k < |x| ==> s[k] == StdChar(x[k])
  {
    seq(|x|, k requires 0 <= k < |x| => StdChar(x[k]))
  }

  function UrlChars(x: seq<Sextet>): (s: string)
    ensures |s| == |x| && forall k :: 0 <= k < |x| ==> s[k] == UrlChar(x[k])
  {
    seq(|x|, k requires 0 <= k < |x| => UrlChar(x[k]))
  }

  /** The `=` characters that complete the last group of four. */
  function Padding(n: nat): (s: string)
    ensures forall k :: 0 <= k < |s| ==> s[k] == '='
  {
    if n % 3 == 1 then "==" else if n % 3 == 2 then "=" else ""
  }

  /** `base64_encode($b)`. */
  function StdEncode(b: seq<Byte>): string {
    StdChars(Sextets(b)) + Padding(|b|)
  }

  /** `strtr($s, '+/', '-_')`. */
  function ToUrlAlphabet(s: string): (r: string)
    ensures |r| == |s|
  {
    seq(|s|, k requires 0 <= k < |s| => if s[k] == '+' then '-' else if s[k] == '/' then '_' else s[k])
  }

  /** `strtr($s, '-_', '+/')`. */
  function FromUrlAlphabet(s: string): (r: string)
    ensures |r| == |s|
  {
    seq(|s|, k requires 0 <= k < |s| => if s[k] == '-' then '+' else if s[k] == '_' then '/' else s[k])
  }

  predicate IsPad(c: char) { c == '=' }

  /** Stripping trailing `=` from a body that does not end in `=` removes
      exactly the padding appended to it. */
  lemma {:induction false} RtrimPadding(body: string, pad: string)
    requires body == [] || !IsPad(body[|body| - 1])
    requires forall k :: 0 <= k < |pad| ==> IsPad(pad[k])
    ensures Rtrim(body + pad, IsPad) == body
    decreases |pad|
  {
    if |pad| == 0 {
      assert body + pad == body;
    } else {
      var s := body + pad;
      assert s[..|s| - 1] == body + pad[..|pad| - 1];
      RtrimPadding(body, pad[..|pad| - 1]);
    }
  }

  /** `JWT::base64UrlEncode`: `rtrim(strtr(base64_encode($b), '+/', '-_'), '=')`. */
  function UrlEncode(b: seq<Byte>): (s: string)
    ensures s == UrlChars(Sextets(b))
    ensures forall k :: 0 <= k < |s| ==> IsUrlChar(s[k])
  {
    var body := UrlChars(Sextets(b));
    var t := ToUrlAlphabet(StdEncode(b));
    assert t == body + Padding(|b|);
    RtrimPadding(body, Padding(|b|));
    Rtrim(t, IsPad)
  }

  /** The sextets of the standard-alphabet characters of `s`, in order; every
      other character (`=` included) is skipped, as non-strict `base64_decode` does. */
  function StdSextetsOf(s: string): (x: seq<Sextet>)
    ensures |x| <= |s|
  {
    if |s| == 0 then []
    else (if IsStdChar(s[0]) then [StdIndex(s[0])] else []) + StdSextetsOf(s[1..])
  }

  lemma {:induction false} StdSextetsOfStdChars(x: seq<Sextet>)
    ensures StdSextetsOf(StdChars(x)) == x
    decreases |x|
  {
    if |x| > 0 {
      assert StdChars(x)[1..] == StdChars(x[1..]);
      StdSextetsOfStdChars(x[1..]);
      assert x == [x[0]] + x[1..];
    }
  }

  /** A string of standard-alphabet characters is read in full. */
  lemma {:induction false} StdSextetsOfAll(s: string)
    requires forall k :: 0 <= k < |s| ==> IsStdChar(s[k])
    ensures |StdSextetsOf(s)| == |s|
  {
    if |s| > 0 {
      assert forall k :: 0 <= k < |s[1..]| ==> IsStdChar(s[1..][k]) by {
        forall k | 0 <= k < |s[1..]| ensures IsStdChar(s[1..][k]) {
          assert s[1..][k] == s[k + 1];
        }
      }
      StdSextetsOfAll(s[1..]);
    }
  }

  /** Non-strict `base64_decode($s)`. */
  function StdDecode(s: string): seq<Byte> {
    DecodeSextets(StdSextetsOf(s))
  }

  /** `JWT::base64UrlDecode`: `base64_decode(strtr($s, '-_', '+/'))`. */
  function UrlDecode(s: string): (b: seq<Byte>)
    ensures |b| == 3 * |StdSextetsOf(FromUrlAlphabet(s))| / 4
    ensures (forall k :: 0 <= k < |s| ==> IsUrlChar(s[k])) ==> |b| == 3 * |s| / 4
  {
    var t := FromUrlAlphabet(s);
    assert (forall k :: 0 <= k < |s| ==> IsUrlChar(s[k])) ==> |StdSextetsOf(t)| == |s| by {
      if forall k :: 0 <= k < |s| ==> IsUrlChar(s[k]) {
        forall k | 0 <= k < |t| ensures IsStdChar(t[k]) {
          assert IsUrlChar(s[k]);
        }
        StdSextetsOfAll(t);
      }
    }
    StdDecode(t)
  }

  /** base64url is a code: decoding an encoding gives the bytes back. */
  lemma UrlDecodeEncode(b: seq<Byte>)
    ensures UrlDecode(UrlEncode(b)) == b
  {
    var x := Sextets(b);
    assert FromUrlAlphabet(UrlChars(x)) == StdChars(x);
    StdSextetsOfStdChars(x);
    DecodeSextetsOfSextets(b);
  }

  /** A base64url encoding never holds `+`, `/`, `=` or the JWT separator `.`. */
  lemma UrlEncodeAlphabet(b: seq<Byte>)
    ensures '+' !in UrlEncode(b) && '/' !in UrlEncode(b) && '=' !in UrlEncode(b)
    ensures '.' !in UrlEncode(b)
  {
    var s := UrlEncode(b);
    forall k | 0 <= k < |s| ensures s[k] != '+' && s[k] != '/' && s[k] != '=' && s[k] != '.' {
      assert IsUrlChar(s[k]);
    }
  }
}
