/** The few functions of PHP's string library that the core relies on.
    PHP strings are byte strings; here each byte is one `char`. */
module PhpString {
  import opened Wrappers

  /** `strpos($s, $c) !== false` for a one-character needle: the first index of `c`. */
  function IndexOf(s: string, c: char): (r: Option<nat>)
    ensures r.None? <==> c !in s
    ensures r.Some? ==> r.value < |s| && s[r.value] == c && c !in s[..r.value]
  {
    if |s| == 0 then None
    else if s[0] == c then Some(0)
    else
      match IndexOf(s[1..], c)
      case None => None
      case Some(i) =>
        assert s[..i + 1] == [s[0]] + s[1..][..i];
        Some(i + 1)
  }

  /** `implode($d, $parts)`. */
  function Implode(parts: seq<string>, d: char): string {
    if |parts| == 0 then ""
    else if |parts| == 1 then parts[0]
    else parts[0] + [d] + Implode(parts[1..], d)
  }

  /** `explode($d, $s)`: the pieces between the occurrences of `d`. */
  function Explode(s: string, d: char): (parts: seq<string>)
    ensures |parts| >= 1
    ensures forall k :: 0 <= k < |parts| ==> d !in parts[k]
    ensures Implode(parts, d) == s
    decreases |s|
  {
    match IndexOf(s, d)
    case None => [s]
    case Some(i) =>
      var rest := Explode(s[i + 1..], d);
      assert s == s[..i] + [d] + s[i + 1..];
      [s[..i]] + rest
  }

  /** Exploding an imploded list of `d`-free pieces gives the pieces back. */
  lemma {:induction false} ExplodeImplode(parts: seq<string>, d: char)
    requires |parts| >= 1
    requires forall k :: 0 <= k < |parts| ==> d !in parts[k]
    ensures Explode(Implode(parts, d), d) == parts
    decreases |parts|
  {
    if |parts| > 1 {
      var p, tail := parts[0], parts[1..];
      assert d !in p;
      assert forall k :: 0 <= k < |tail| ==> d !in tail[k] by {
        forall k | 0 <= k < |tail| ensures d !in tail[k] {
          assert tail[k] == parts[k + 1];
        }
      }
      ExplodeStep(p, Implode(tail, d), d);
      ExplodeImplode(tail, d);
      PiecesCons(parts, d);
    }
  }

  /** An implosion of at least two pieces starts with the first and `d`. */
  lemma PiecesCons(parts: seq<string>, d: char)
    requires |parts| > 1
    ensures Implode(parts, d) == parts[0] + [d] + Implode(parts[1..], d)
    ensures parts == [parts[0]] + parts[1..]
  {
  }

  /** A `d`-free piece followed by `d` is the first piece of the explosion. */
  lemma ExplodeStep(p: string, rest: string, d: char)
    requires d !in p
    ensures Explode(p + [d] + rest, d) == [p] + Explode(rest, d)
  {
    var s := p + [d] + rest;
    assert s[|p|] == d;
    assert s[..|p|] == p;
    assert IndexOf(s, d) == Some(|p|);
    assert s[|p| + 1..] == rest;
  }

  /** Three `d`-free pieces joined by `d` explode back into those three pieces. */
  lemma ExplodeThree(a: string, b: string, c: string, d: char)
    requires d !in a && d !in b && d !in c
    ensures Explode(a + [d] + b + [d] + c, d) == [a, b, c]
  {
    var parts := [a, b, c];
    assert parts[1..] == [b, c] && parts[1..][1..] == [c];
    assert Implode([c], d) == c;
    assert Implode([b, c], d) == b + [d] + c;
    assert Implode(parts, d) == a + [d] + (b + [d] + c);
    assert a + [d] + (b + [d] + c) == a + [d] + b + [d] + c;
    ExplodeImplode(parts, d);
  }

  /** `explode($d, $s, 2)`: split at the first `d` only. */
  function ExplodeFirst(s: string, d: char): (parts: seq<string>)
    ensures 1 <= |parts| <= 2 && d !in parts[0]
    ensures |parts| == 1 ==> d !in s && parts[0] == s
    ensures |parts| == 2 ==> s == parts[0] + [d] + parts[1]
  {
    match IndexOf(s, d)
    case None => [s]
    case Some(i) =>
      assert s == s[..i] + [d] + s[i + 1..];
      [s[..i], s[i + 1..]]
  }

  /** The characters PHP's `trim` strips by default: " \t\n\r\0\x0B". */
  predicate IsTrimSpace(c: char) {
    c == ' ' || c == '\t' || c == '\n' || c == '\r' || c as int == 0 || c as int == 0x0B
  }

  /** `rtrim($s, ...)`: drop every trailing character that `strip` selects. */
  function Rtrim(s: string, strip: char -> bool): (r: string)
    ensures |r| <= |s| && r == s[..|r|]
    ensures forall k :: |r| <= k < |s| ==> strip(s[k])
    ensures r == [] || !strip(r[|r| - 1])
  {
    if |s| > 0 && strip(s[|s| - 1]) then Rtrim(s[..|s| - 1], strip) else s
  }

  /** `ltrim($s, ...)`: drop every leading character that `strip` selects. */
  function Ltrim(s: string, strip: char -> bool): (r: string)
    ensures |r| <= |s| && r == s[|s| - |r|..]
    ensures forall k :: 0 <= k < |s| - |r| ==> strip(s[k])
    ensures r == [] || !strip(r[0])
  {
    if |s| > 0 && strip(s[0]) then Ltrim(s[1..], strip) else s
  }

  /** `trim($s)` with PHP's default character list. */
  function Trim(s: string): (r: string)
    ensures |r| <= |s|
    ensures r == [] || (!IsTrimSpace(r[0]) && !IsTrimSpace(r[|r| - 1]))
    ensures (forall k :: 0 <= k < |s| ==> !IsTrimSpace(s[k])) ==> r == s
  {
    Rtrim(Ltrim(s, IsTrimSpace), IsTrimSpace)
  }

  /** PHP's `empty($s)`, that is `!$s`, for a string: true of "" and "0". */
  predicate IsEmpty(s: string) {
    s == "" || s == "0"
  }

  /** PHP's `!$x` for a value that is either null or a string. */
  predicate IsFalsy(x: Option<string>) {
    x.None? || IsEmpty(x.value)
  }

  /** `needle` occurs in `s` at offset `i`. */
  predicate OccursAt(s: string, needle: string, i: nat)
    requires i + |needle| <= |s|
  {
    s[i..i + |needle|] == needle
  }

  /** `needle` occurs nowhere in `s`. */
  predicate NoOccurrence(s: string, needle: string) {
    forall i: nat :: i + |needle| <= |s| ==> !OccursAt(s, needle, i)
  }

  /** `str_replace($needle, '', $s)`: one left-to-right pass that deletes each
      non-overlapping occurrence of `needle`. */
  function RemoveAll(s: string, needle: string): (r: string)
    requires |needle| > 0
    ensures |r| <= |s|
    decreases |s|
  {
    if |s| < |needle| then s
    else if s[..|needle|] == needle then RemoveAll(s[|needle|..], needle)
    else [s[0]] + RemoveAll(s[1..], needle)
  }

  /** Where `needle` occurs nowhere, `str_replace` changes nothing. */
  lemma {:induction false} RemoveAllAbsent(s: string, needle: string)
    requires |needle| > 0 && NoOccurrence(s, needle)
    ensures RemoveAll(s, needle) == s
    decreases |s|
  {
    if |s| >= |needle| {
      assert !OccursAt(s, needle, 0);
      assert s[..|needle|] != needle by { assert s[..|needle|] == s[0..0 + |needle|]; }
      forall i: nat | i + |needle| <= |s[1..]|
        ensures !OccursAt(s[1..], needle, i)
      {
        assert !OccursAt(s, needle, i + 1);
        assert s[1..][i..i + |needle|] == s[i + 1..i + 1 + |needle|];
      }
      RemoveAllAbsent(s[1..], needle);
      assert s == [s[0]] + s[1..];
    }
  }
}
