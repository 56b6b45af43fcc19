/** `Router` (server_php/routes/api.php): request-path normalisation, route
    patterns with `:name` placeholders, first-match dispatch and the
    registered route table of the PHP back end. */
module Router {
  import opened Wrappers
  import opened PhpString

  predicate IsSlash(c: char) { c == '/' }

  /** The part of the URI before the first `?`. */
  function BeforeQuery(uri: string): (r: string)
    ensures '?' !in r
    ensures '?' !in uri ==> r == uri
    ensures '?' in uri ==> |r| < |uri| && uri[|r|] == '?' && uri[..|r|] == r
  {
    match IndexOf(uri, '?')
    case None => uri
    case Some(i) =>
      assert uri == uri[..i] + "?" + uri[i + 1..];
      uri[..i]
  }

  /** `getPath()` for `$_SERVER['REQUEST_URI']`: drop the query string, delete
      every `/index.php`, then strip the trailing slashes. */
  function GetPath(uri: string): (r: string)
    ensures '?' !in r
    ensures r == [] || r[|r| - 1] != '/'
    ensures |r| <= |uri|
  {
    var noQuery := BeforeQuery(uri);
    var noIndex := RemoveAll(noQuery, "/index.php");
    var r := Rtrim(noIndex, IsSlash);
    assert forall k :: 0 <= k < |r| ==> r[k] == noIndex[k];
    assert forall k :: 0 <= k < |noIndex| ==> noIndex[k] in noQuery by {
      RemoveAllChars(noQuery, "/index.php");
    }
    r
  }

  /** `str_replace` only deletes: every character of its result comes from its input. */
  lemma {:induction false} RemoveAllChars(s: string, needle: string)
    requires |needle| > 0
    ensures forall k :: 0 <= k < |RemoveAll(s, needle)| ==> RemoveAll(s, needle)[k] in s
    decreases |s|
  {
    if |s| >= |needle| {
      if s[..|needle|] == needle {
        RemoveAllChars(s[|needle|..], needle);
        var r := RemoveAll(s, needle);
        forall k | 0 <= k < |r| ensures r[k] in s {
          assert r[k] in s[|needle|..];
        }
      } else {
        RemoveAllChars(s[1..], needle);
        var r := RemoveAll(s, needle);
        forall k | 0 <= k < |r| ensures r[k] in s {
          if k > 0 {
            assert r[k] == RemoveAll(s[1..], needle)[k - 1];
          }
        }
      }
    }
  }

  /** The query string never changes the path. */
  lemma QueryIgnored(p: string, q: string)
    requires '?' !in p
    ensures GetPath(p + "?" + q) == GetPath(p)
  {
    var uri := p + "?" + q;
    assert uri[|p|] == '?';
    assert uri[..|p|] == p;
    assert IndexOf(uri, '?') == Some(|p|);
  }

  /** The root path normalises to the empty path. */
  lemma RootIsEmpty()
    ensures GetPath("/") == ""
    ensures GetPath("/index.php") == ""
  {
    SlashIsEmpty("/");
    IndexIsEmpty("/index.php");
  }

  /** "/" has no query and nothing to delete, and its slash is stripped. */
  lemma SlashIsEmpty(u: string)
    requires u == "/"
    ensures GetPath(u) == ""
  {
    assert '?' !in u;
    assert RemoveAll(u, "/index.php") == u;
  }

  /** "/index.php" has no query and is deleted whole. */
  lemma IndexIsEmpty(u: string)
    requires u == "/index.php"
    ensures GetPath(u) == ""
  {
    assert forall k :: 0 <= k < |u| ==> u[k] != '?';
    RemoveSelf(u);
  }

  /** The pass deletes a string that is exactly the needle. */
  lemma RemoveSelf(n: string)
    requires |n| > 0
    ensures RemoveAll(n, n) == ""
  {
    assert n[..|n|] == n;
    assert RemoveAll(n[|n|..], n) == "";
  }

  /** One step of the `str_replace` pass at a position where `needle` does not start. */
  lemma RemoveAllStep(s: string, needle: string)
    requires |needle| > 0 && |s| >= |needle| && s[..|needle|] != needle
    ensures RemoveAll(s, needle) == [s[0]] + RemoveAll(s[1..], needle)
  {
  }

  /** `str_replace` makes one pass: deleting one `/index.php` can bring
      another together, which then stays. */
  lemma SinglePass()
    ensures GetPath("/index" + "/index.php.php") == "/index" + ".php"
  {
    var p, t := "/index", "/index.php.php";
    var u := p + t;
    assert '?' !in u by {
      assert '?' !in p && '?' !in t;
    }
    assert BeforeQuery(u) == u;
    SinglePassRemove(p, t);
    var r := p + ".php";
    assert r[|r| - 1] == 'p';
    assert Rtrim(r, IsSlash) == r;
  }

  /** The deletion in `SinglePass`: "/index" is kept, the `/index.php` after
      it deleted, and ".php" kept. */
  lemma SinglePassRemove(p: string, t: string)
    requires p == "/index" && t == "/index.php.php"
    ensures RemoveAll(p + t, "/index.php") == p + ".php"
  {
    var n := "/index.php";
    var u := p + t;
    forall i: nat | i < |p| && i + |n| <= |u| ensures !OccursAt(u, n, i) {
      assert u[i..i + |n|][6 - i] == '/' != n[6 - i];
    }
    RemoveAllKeeps(p, t, n);
    SinglePassTail(t);
  }

  /** Where the pass meets `/index.php` it deletes it and keeps the rest. */
  lemma SinglePassTail(t: string)
    requires t == "/index.php.php"
    ensures RemoveAll(t, "/index.php") == ".php"
  {
    assert t[..10] == "/index.php" && t[10..] == ".php";
    assert RemoveAll(".php", "/index.php") == ".php";
  }

  /** The pass keeps a prefix `p` at none of whose positions `n` starts. */
  lemma {:induction false} RemoveAllKeeps(p: string, s: string, n: string)
    requires |n| > 0
    requires forall i: nat :: i < |p| && i + |n| <= |p + s| ==> !OccursAt(p + s, n, i)
    ensures RemoveAll(p + s, n) == p + RemoveAll(s, n)
    decreases |p|
  {
    if |p| > 0 {
      NoOccurrenceTail(p, s, n);
      RemoveAllKeeps(p[1..], s, n);
      KeepFirst(p, s, n);
    } else {
      assert p + s == s;
    }
  }

  /** The step of `RemoveAllKeeps`: the first character of `p` is kept. */
  lemma KeepFirst(p: string, s: string, n: string)
    requires |p| > 0 && |n| > 0
    requires |p + s| >= |n| ==> !OccursAt(p + s, n, 0)
    requires RemoveAll(p[1..] + s, n) == p[1..] + RemoveAll(s, n)
    ensures RemoveAll(p + s, n) == p + RemoveAll(s, n)
  {
    var v := p + s;
    if |v| < |n| {
      assert RemoveAll(s, n) == s;
    } else {
      assert v[..|n|] != n by { assert v[..|n|] == v[0..0 + |n|]; }
      RemoveAllStep(v, n);
      ConsAppend(p, s);
      ConsAppend(p, RemoveAll(s, n));
    }
  }

  /** Splitting off the first character of a concatenation. */
  lemma ConsAppend(p: string, r: string)
    requires |p| > 0
    ensures p + r == [p[0]] + (p[1..] + r)
    ensures (p + r)[0] == p[0] && (p + r)[1..] == p[1..] + r
  {
    assert p == [p[0]] + p[1..];
  }

  /** When `n` starts at none of the positions of `p`, it starts at none of
      the positions of `p[1..]` either. */
  lemma NoOccurrenceTail(p: string, s: string, n: string)
    requires |p| > 0 && |n| > 0
    requires forall i: nat :: i < |p| && i + |n| <= |p + s| ==> !OccursAt(p + s, n, i)
    ensures forall i: nat :: i < |p[1..]| && i + |n| <= |p[1..] + s| ==> !OccursAt(p[1..] + s, n, i)
  {
    var v := p + s;
    forall i: nat | i < |p[1..]| && i + |n| <= |p[1..] + s| ensures !OccursAt(p[1..] + s, n, i) {
      assert !OccursAt(v, n, i + 1);
      assert (p[1..] + s)[i..i + |n|] == v[i + 1..i + 1 + |n|];
    }
  }

  // ------------------------------------------------------------ patterns

  /** PCRE's `\w`. */
  predicate IsWordChar(c: char) {
    ('a' <= c <= 'z') || ('A' <= c <= 'Z') || ('0' <= c <= '9') || c == '_'
  }

  /** A route pattern after `preg_replace('/:\w+/', '([^/]+)', ...)`: literal
      characters and `([^/]+)` groups. */
  datatype Token = Lit(c: char) | Param

  /** The length of the run of word characters at the start of `s`. */
  function WordRun(s: string): (n: nat)
    ensures n <= |s|
    ensures forall k :: 0 <= k < n ==> IsWordChar(s[k])
    ensures n == |s| || !IsWordChar(s[n])
  {
    if |s| > 0 && IsWordChar(s[0]) then 1 + WordRun(s[1..]) else 0
  }

  /** The tokens of a route path: `:` with at least one word character after
      it is a placeholder reaching over all those characters. */
  function Tokens(path: string): (toks: seq<Token>)
    ensures |toks| <= |path|
    decreases |path|
  {
    if |path| == 0 then []
    else if path[0] == ':' && WordRun(path[1..]) > 0 then [Param] + Tokens(path[1 + WordRun(path[1..])..])
    else [Lit(path[0])] + Tokens(path[1..])
  }

  /** The number of placeholders. */
  function ParamCount(toks: seq<Token>): nat {
    if |toks| == 0 then 0 else (if toks[0].Param? then 1 else 0) + ParamCount(toks[1..])
  }

  /** What `([^/]+)` can capture: a non-empty run with no `/`. */
  predicate ValidParam(p: string) {
    |p| > 0 && '/' !in p
  }

  /** The path a pattern describes once each placeholder is replaced by the
      next parameter. */
  function Instantiate(toks: seq<Token>, ps: seq<string>): string
    requires |ps| == ParamCount(toks)
  {
    if |toks| == 0 then ""
    else if toks[0].Lit? then [toks[0].c] + Instantiate(toks[1..], ps)
    else ps[0] + Instantiate(toks[1..], ps[1..])
  }

  /** The length of the run of non-`/` characters at the start of `s`. */
  function SlashFree(s: string): (n: nat)
    ensures n <= |s|
    ensures '/' !in s[..n]
    ensures n == |s| || s[n] == '/'
  {
    match IndexOf(s, '/')
    case None => assert s[..|s|] == s; |s|
    case Some(i) => i
  }

  /** `preg_match('#^' . pattern . '$#', s)`, with PCRE's backtracking: the
      groups in order, each as long as a match of the rest allows. */
  function Match(toks: seq<Token>, s: string): (r: Option<seq<string>>)
    ensures r.Some? ==>
      && |r.value| == ParamCount(toks)
      && (forall k :: 0 <= k < |r.value| ==> ValidParam(r.value[k]))
      && Instantiate(toks, r.value) == s
    decreases |toks|, |s| + 1
  {
    if |toks| == 0 then (if s == "" then Some([]) else None)
    else if toks[0].Lit? then
      if |s| > 0 && s[0] == toks[0].c then
        match Match(toks[1..], s[1..])
        case None => None
        case Some(ps) =>
          assert s == [s[0]] + s[1..];
          Some(ps)
      else None
    else TryParam(toks, s, SlashFree(s))
  }

  /** The group of the leading placeholder takes `k` characters, or fewer if
      the rest then fails to match. */
  function TryParam(toks: seq<Token>, s: string, k: nat): (r: Option<seq<string>>)
    requires |toks| > 0 && toks[0].Param?
    requires k <= SlashFree(s)
    ensures r.Some? ==>
      && |r.value| == ParamCount(toks)
      && (forall j :: 0 <= j < |r.value| ==> ValidParam(r.value[j]))
      && Instantiate(toks, r.value) == s
    decreases |toks|, k
  {
    if k == 0 then None
    else
      match Match(toks[1..], s[k..])
      case Some(ps) =>
        assert s[..k] == s[..SlashFree(s)][..k];
        assert s == s[..k] + s[k..];
        var r := [s[..k]] + ps;
        assert r[1..] == ps;
        Some(r)
      case None => TryParam(toks, s, k - 1)
  }

  /** Every path the pattern describes is matched. */
  lemma {:induction false} MatchComplete(toks: seq<Token>, ps: seq<string>)
    requires |ps| == ParamCount(toks)
    requires forall k :: 0 <= k < |ps| ==> ValidParam(ps[k])
    ensures Match(toks, Instantiate(toks, ps)).Some?
    decreases |toks|, |Instantiate(toks, ps)| + 1
  {
    var s := Instantiate(toks, ps);
    if |toks| > 0 {
      if toks[0].Lit? {
        assert s[1..] == Instantiate(toks[1..], ps);
        MatchComplete(toks[1..], ps);
      } else {
        var p := ps[0];
        assert s == p + Instantiate(toks[1..], ps[1..]);
        assert s[..|p|] == p;
        assert forall k :: 0 <= k < |p| ==> s[k] == p[k] && s[k] != '/';
        assert |p| <= SlashFree(s);
        TryParamComplete(toks, ps, SlashFree(s));
      }
    }
  }

  /** Trying group lengths from `k` downwards reaches the parameter's length. */
  lemma {:induction false} TryParamComplete(toks: seq<Token>, ps: seq<string>, k: nat)
    requires |toks| > 0 && toks[0].Param?
    requires |ps| == ParamCount(toks)
    requires forall j :: 0 <= j < |ps| ==> ValidParam(ps[j])
    requires |ps[0]| <= k <= SlashFree(Instantiate(toks, ps))
    ensures TryParam(toks, Instantiate(toks, ps), k).Some?
    decreases |toks|, k
  {
    var s := Instantiate(toks, ps);
    var p := ps[0];
    var rest := Instantiate(toks[1..], ps[1..]);
    assert s == p + rest;
    if Match(toks[1..], s[k..]).None? {
      if k == |p| {
        assert s[k..] == rest;
        MatchComplete(toks[1..], ps[1..]);
        assert false;
      }
      TryParamComplete(toks, ps, k - 1);
    }
  }

  /** Matching is exact: some parameters fill the placeholders to give `s`
      if and only if the pattern matches `s`, and then the captured ones do. */
  lemma MatchIff(toks: seq<Token>, s: string)
    ensures Match(toks, s).Some? <==>
      exists ps :: |ps| == ParamCount(toks) && (forall k :: 0 <= k < |ps| ==> ValidParam(ps[k])) && Instantiate(toks, ps) == s
  {
    if ps :| |ps| == ParamCount(toks) && (forall k :: 0 <= k < |ps| ==> ValidParam(ps[k])) && Instantiate(toks, ps) == s {
      MatchComplete(toks, ps);
    }
  }

  /** The tokens of a placeholder-free text: one literal per character. */
  function Lits(p: string): (toks: seq<Token>)
    ensures |toks| == |p|
  {
    if |p| == 0 then [] else [Lit(p[0])] + Lits(p[1..])
  }

  /** Text without `:` tokenises character by character. */
  lemma {:induction false} TokensOfLiteral(p: string, q: string)
    requires ':' !in p
    ensures Tokens(p + q) == Lits(p) + Tokens(q)
    decreases |p|
  {
    if |p| == 0 {
      assert p + q == q;
    } else {
      ConsAppend(p, q);
      assert p[0] in p;
      NoColonTail(p);
      TokensOfLiteral(p[1..], q);
      TokensLitStep(p + q);
      LitsConsAppend(p, Tokens(q));
    }
  }

  /** A path that does not start with `:` starts with a literal token. */
  lemma TokensLitStep(v: string)
    requires |v| > 0 && v[0] != ':'
    ensures Tokens(v) == [Lit(v[0])] + Tokens(v[1..])
  {
  }

  /** The tail of a text without `:` has none either. */
  lemma NoColonTail(p: string)
    requires |p| > 0 && ':' !in p
    ensures ':' !in p[1..]
  {
    forall k | 0 <= k < |p[1..]| ensures p[1..][k] != ':' {
      assert p[1..][k] == p[k + 1];
    }
  }

  /** Literal tokens take no parameter. */
  lemma {:induction false} LitsParamCount(p: string, toks: seq<Token>)
    ensures ParamCount(Lits(p) + toks) == ParamCount(toks)
    decreases |p|
  {
    if |p| == 0 {
      assert Lits(p) + toks == toks;
    } else {
      var all := Lits(p) + toks;
      assert all[0] == Lit(p[0]);
      assert all[1..] == Lits(p[1..]) + toks;
      LitsParamCount(p[1..], toks);
    }
  }

  /** Literal tokens stand for their own text. */
  lemma {:induction false} LitsInstantiate(p: string, toks: seq<Token>, ps: seq<string>)
    requires |ps| == ParamCount(toks)
    ensures ParamCount(Lits(p) + toks) == ParamCount(toks)
    ensures Instantiate(Lits(p) + toks, ps) == p + Instantiate(toks, ps)
    decreases |p|
  {
    LitsParamCount(p, toks);
    if |p| == 0 {
      assert Lits(p) + toks == toks;
    } else {
      LitsCons(p, toks);
      LitsInstantiate(p[1..], toks, ps);
      InstantiateLit(Lits(p) + toks, ps);
      ConsAppend(p, Instantiate(toks, ps));
    }
  }

  /** The literal tokens of a non-empty text start with its first character. */
  lemma LitsCons(p: string, toks: seq<Token>)
    requires |p| > 0
    ensures (Lits(p) + toks)[0] == Lit(p[0])
    ensures (Lits(p) + toks)[1..] == Lits(p[1..]) + toks
  {
    var l := Lits(p);
    assert l[0] == Lit(p[0]) && l[1..] == Lits(p[1..]);
    TokensConsAppend(l, toks);
  }

  /** The literal tokens of a non-empty text, followed by more tokens. */
  lemma LitsConsAppend(p: string, toks: seq<Token>)
    requires |p| > 0
    ensures Lits(p) + toks == [Lit(p[0])] + (Lits(p[1..]) + toks)
  {
    var l := Lits(p);
    assert l == [Lit(p[0])] + Lits(p[1..]);
    TokensAssoc([Lit(p[0])], Lits(p[1..]), toks);
  }

  lemma TokensAssoc(a: seq<Token>, b: seq<Token>, c: seq<Token>)
    ensures (a + b) + c == a + (b + c)
  {
  }

  lemma TokensConsAppend(l: seq<Token>, r: seq<Token>)
    requires |l| > 0
    ensures (l + r)[0] == l[0] && (l + r)[1..] == l[1..] + r
  {
  }

  /** A leading literal token stands for its own character. */
  lemma InstantiateLit(toks: seq<Token>, ps: seq<string>)
    requires |toks| > 0 && toks[0].Lit? && |ps| == ParamCount(toks)
    ensures |ps| == ParamCount(toks[1..])
    ensures Instantiate(toks, ps) == [toks[0].c] + Instantiate(toks[1..], ps)
  {
  }

  /** A pattern without placeholders matches exactly its own text, with no parameters. */
  lemma StaticPattern(p: string, s: string)
    requires ':' !in p
    ensures Match(Tokens(p), s).Some? <==> s == p
    ensures Match(Tokens(p), s).Some? ==> Match(Tokens(p), s).value == []
  {
    TokensOfLiteral(p, "");
    assert p + "" == p;
    assert Lits(p) + [] == Lits(p);
    LitsInstantiate(p, [], []);
    if s == p {
      MatchComplete(Tokens(p), []);
    }
  }

  /** A literal prefix followed by `:name` tokenises to the prefix's
      literals and one placeholder. */
  lemma TrailingParamTokens(p: string, name: string)
    requires ':' !in p && |name| > 0 && forall k :: 0 <= k < |name| ==> IsWordChar(name[k])
    ensures Tokens(p + ":" + name) == Lits(p) + [Param]
  {
    WordRunAll(name);
    var q := ":" + name;
    assert q[1..] == name && q[1 + |name|..] == "";
    assert Tokens(q) == [Param];
    assert p + ":" + name == p + q;
    TokensOfLiteral(p, q);
  }

  /** A pattern of a literal prefix and one trailing placeholder matches the
      prefix followed by one parameter, and captures that parameter. */
  lemma TrailingParamPattern(p: string, name: string, s: string)
    requires ':' !in p && |name| > 0 && forall k :: 0 <= k < |name| ==> IsWordChar(name[k])
    ensures Match(Tokens(p + ":" + name), s).Some? <==>
      |p| < |s| && s[..|p|] == p && ValidParam(s[|p|..])
    ensures Match(Tokens(p + ":" + name), s).Some? ==> Match(Tokens(p + ":" + name), s).value == [s[|p|..]]
  {
    TrailingParamTokens(p, name);
    PrefixParamMatch(p, s);
  }

  /** `TrailingParamPattern` on the tokens themselves. */
  lemma PrefixParamMatch(p: string, s: string)
    ensures Match(Lits(p) + [Param], s).Some? <==>
      |p| < |s| && s[..|p|] == p && ValidParam(s[|p|..])
    ensures Match(Lits(p) + [Param], s).Some? ==> Match(Lits(p) + [Param], s).value == [s[|p|..]]
  {
    PrefixParamSound(p, s);
    if |p| < |s| && s[..|p|] == p && ValidParam(s[|p|..]) {
      PrefixParamComplete(p, s);
    }
  }

  /** A literal prefix and one placeholder take one parameter and stand for
      the prefix followed by it. */
  lemma PrefixParamInstantiate(p: string, v: seq<string>)
    ensures ParamCount(Lits(p) + [Param]) == 1
    ensures |v| == 1 ==> Instantiate(Lits(p) + [Param], v) == p + v[0]
  {
    assert [Param][1..] == [];
    LitsParamCount(p, [Param]);
    if |v| == 1 {
      LitsInstantiate(p, [Param], v);
      assert v[1..] == [];
      assert Instantiate([Param], v) == v[0] + Instantiate([], []);
      assert v[0] + "" == v[0];
    }
  }

  /** What a match of a literal prefix and one placeholder captures. */
  lemma PrefixParamSound(p: string, s: string)
    ensures Match(Lits(p) + [Param], s).Some? ==>
      && |p| < |s| && s[..|p|] == p && ValidParam(s[|p|..])
      && Match(Lits(p) + [Param], s).value == [s[|p|..]]
  {
    var m := Match(Lits(p) + [Param], s);
    if m.Some? {
      var v := m.value;
      PrefixParamInstantiate(p, v);
      SplitParam(p, s, v[0]);
      assert v == [v[0]];
    }
  }

  /** A text made of `p` and a parameter splits back into the two. */
  lemma SplitParam(p: string, s: string, x: string)
    requires s == p + x && ValidParam(x)
    ensures |p| < |s| && s[..|p|] == p && s[|p|..] == x && ValidParam(s[|p|..])
  {
  }

  /** The prefix followed by a valid parameter is matched. */
  lemma PrefixParamComplete(p: string, s: string)
    requires |p| < |s| && s[..|p|] == p && ValidParam(s[|p|..])
    ensures Match(Lits(p) + [Param], s).Some?
  {
    var v := [s[|p|..]];
    PrefixParamInstantiate(p, v);
    assert s == p + s[|p|..];
    MatchComplete(Lits(p) + [Param], v);
  }

  /** A run of word characters is read whole. */
  lemma {:induction false} WordRunAll(w: string)
    requires forall k :: 0 <= k < |w| ==> IsWordChar(w[k])
    ensures WordRun(w) == |w|
  {
    if |w| > 0 {
      WordRunAll(w[1..]);
    }
  }

  // ------------------------------------------------------------ routes

  /** The closures the route table registers, named by the controller
      method each one calls. */
  datatype Handler =
    | Login | Register | GetProfile | GetDashboard | GetEvents
    | GetAllCourses | GetCourseById | GetLessonById
    | ToggleLessonFavorite | ToggleLessonLike | MarkLessonComplete | UpdateVideoPosition

  /** One entry of `$this->routes`; the middleware is the name of a function
      (`'requireAuth'`) or null. */
  datatype Route = Route(verb: string, path: string, handler: Handler, middleware: Option<string>)

  /** What the router calls, in order. */
  datatype Call = RunMiddleware(name: string) | RunHandler(handler: Handler, params: seq<string>)

  /** How `run()` ends: the index of the route that took the request and the
      calls it made, or a 404. */
  datatype Dispatch = Found(index: nat, calls: seq<Call>) | NotFound(status: int, message: string)

  const NoRoute := "Rota não encontrada"

  /** `matchRoute($route)`: None (false) for another method or a path the
      pattern does not match; otherwise the middleware, if truthy, and then
      the handler with the captured parameters. */
  function MatchRoute(route: Route, verb: string, path: string): (r: Option<seq<Call>>)
    ensures route.verb != verb ==> r.None?
    ensures r.Some? ==>
      && route.verb == verb
      && Match(Tokens(route.path), path).Some?
      && (var ps := Match(Tokens(route.path), path).value;
          && Instantiate(Tokens(route.path), ps) == path
          && r.value == (if IsFalsy(route.middleware) then [] else [RunMiddleware(route.middleware.value)])
                        + [RunHandler(route.handler, ps)])
    ensures route.verb == verb && Match(Tokens(route.path), path).Some? ==> r.Some?
  {
    if route.verb != verb then None
    else
      match Match(Tokens(route.path), path)
      case None => None
      case Some(ps) =>
        var middleware := if IsFalsy(route.middleware) then [] else [RunMiddleware(route.middleware.value)];
        Some(middleware + [RunHandler(route.handler, ps)])
  }

  /** The first route from index `from` on that takes the request. */
  function FirstMatch(routes: seq<Route>, verb: string, path: string, from: nat): (d: Dispatch)
    requires from <= |routes|
    ensures d.NotFound? <==> forall j :: from <= j < |routes| ==> MatchRoute(routes[j], verb, path).None?
    ensures d.NotFound? ==> d == NotFound(404, NoRoute)
    ensures d.Found? ==>
      && from <= d.index < |routes|
      && MatchRoute(routes[d.index], verb, path) == Some(d.calls)
      && forall j :: from <= j < d.index ==> MatchRoute(routes[j], verb, path).None?
    decreases |routes| - from
  {
    if from == |routes| then NotFound(404, NoRoute)
    else
      match MatchRoute(routes[from], verb, path)
      case Some(calls) => Found(from, calls)
      case None => FirstMatch(routes, verb, path, from + 1)
  }

  /** Adding routes after the first match does not change the dispatch. */
  lemma {:induction false} LaterRoutesIgnored(routes: seq<Route>, more: seq<Route>, verb: string, path: string, from: nat)
    requires from <= |routes|
    requires FirstMatch(routes, verb, path, from).Found?
    ensures FirstMatch(routes + more, verb, path, from) == FirstMatch(routes, verb, path, from)
    decreases |routes| - from
  {
    var all := routes + more;
    assert from < |routes|;
    assert all[from] == routes[from];
    SameRouteStep(routes, all, verb, path, from);
    if MatchRoute(routes[from], verb, path).None? {
      LaterRoutesIgnored(routes, more, verb, path, from + 1);
    }
  }

  /** Two tables that hold the same route at `from` take or pass the request
      there alike. */
  lemma SameRouteStep(routes: seq<Route>, all: seq<Route>, verb: string, path: string, from: nat)
    requires from < |routes| && from < |all| && all[from] == routes[from]
    ensures MatchRoute(routes[from], verb, path).Some? ==>
      FirstMatch(all, verb, path, from) == FirstMatch(routes, verb, path, from)
    ensures MatchRoute(routes[from], verb, path).None? ==>
      && FirstMatch(all, verb, path, from) == FirstMatch(all, verb, path, from + 1)
      && FirstMatch(routes, verb, path, from) == FirstMatch(routes, verb, path, from + 1)
  {
    FirstMatchAt(routes, verb, path, from);
    FirstMatchAt(all, verb, path, from);
  }

  /** One step of the `foreach` in `run`. */
  lemma FirstMatchAt(routes: seq<Route>, verb: string, path: string, from: nat)
    requires from < |routes|
    ensures FirstMatch(routes, verb, path, from)
      == if MatchRoute(routes[from], verb, path).Some? then Found(from, MatchRoute(routes[from], verb, path).value)
         else FirstMatch(routes, verb, path, from + 1)
  {
  }

  /** The router of one request. */
  class Router {
    var routes: seq<Route>
    const verb: string
    const path: string

    /** `new Router()` for the request's method and URI. */
    constructor (requestMethod: string, requestUri: string)
      ensures verb == requestMethod && path == GetPath(requestUri)
      ensures routes == []
    {
      verb := requestMethod;
      path := GetPath(requestUri);
      routes := [];
    }

    /** `addRoute`: append one route, keeping the registration order. */
    method AddRoute(verb: string, path: string, handler: Handler, middleware: Option<string>)
      modifies this`routes
      ensures routes == old(routes) + [Route(verb, path, handler, middleware)]
    {
      routes := routes + [Route(verb, path, handler, middleware)];
    }

    method Get(path: string, handler: Handler, middleware: Option<string>)
      modifies this`routes
      ensures routes == old(routes) + [Route("GET", path, handler, middleware)]
    {
      AddRoute("GET", path, handler, middleware);
    }

    method Post(path: string, handler: Handler, middleware: Option<string>)
      modifies this`routes
      ensures routes == old(routes) + [Route("POST", path, handler, middleware)]
    {
      AddRoute("POST", path, handler, middleware);
    }

    method Put(path: string, handler: Handler, middleware: Option<string>)
      modifies this`routes
      ensures routes == old(routes) + [Route("PUT", path, handler, middleware)]
    {
      AddRoute("PUT", path, handler, middleware);
    }

    method Delete(path: string, handler: Handler, middleware: Option<string>)
      modifies this`routes
      ensures routes == old(routes) + [Route("DELETE", path, handler, middleware)]
    {
      AddRoute("DELETE", path, handler, middleware);
    }

    /** `run()`: try the routes in registration order and stop at the first
        that matches; with none, respond 404. */
    method Run() returns (d: Dispatch)
      ensures d.NotFound? <==> forall j :: 0 <= j < |routes| ==> MatchRoute(routes[j], verb, path).None?
      ensures d.NotFound? ==> d == NotFound(404, NoRoute)
      ensures d.Found? ==>
        && d.index < |routes|
        && MatchRoute(routes[d.index], verb, path) == Some(d.calls)
        && forall j :: 0 <= j < d.index ==> MatchRoute(routes[j], verb, path).None?
    {
      var i := 0;
      while i < |routes|
        invariant 0 <= i <= |routes|
        invariant forall j :: 0 <= j < i ==> MatchRoute(routes[j], verb, path).None?
      {
        var m := MatchRoute(routes[i], verb, path);
        if m.Some? {
          return Found(i, m.value);
        }
        i := i + 1;
      }
      return NotFound(404, NoRoute);
    }

    /** The route table api.php registers, in its order. */
    method RegisterApiRoutes()
      modifies this`routes
      ensures routes == old(routes) + ApiRoutes()
    {
      var auth := Some("requireAuth");
      Post("/api/auth/login", Login, None);
      Post("/api/auth/register", Register, None);
      Get("/api/auth/profile", GetProfile, auth);
      Get("/api/dashboard", GetDashboard, auth);
      Get("/api/events", GetEvents, auth);
      Get("/api/courses", GetAllCourses, auth);
      Get("/api/courses/:id", GetCourseById, auth);
      Get("/api/lessons/:id", GetLessonById, auth);
      Post("/api/lessons/:id/favorite", ToggleLessonFavorite, auth);
      Post("/api/lessons/:id/like", ToggleLessonLike, auth);
      Post("/api/lessons/:id/complete", MarkLessonComplete, auth);
      Put("/api/lessons/:id/position", UpdateVideoPosition, auth);
    }
  }

  /** The registered routes. */
  function ApiRoutes(): seq<Route> {
    var auth := Some("requireAuth");
    [ Route("POST", "/api/auth/login", Login, None),
      Route("POST", "/api/auth/register", Register, None),
      Route("GET", "/api/auth/profile", GetProfile, auth),
      Route("GET", "/api/dashboard", GetDashboard, auth),
      Route("GET", "/api/events", GetEvents, auth),
      Route("GET", "/api/courses", GetAllCourses, auth),
      Route("GET", "/api/courses/:id", GetCourseById, auth),
      Route("GET", "/api/lessons/:id", GetLessonById, auth),
      Route("POST", "/api/lessons/:id/favorite", ToggleLessonFavorite, auth),
      Route("POST", "/api/lessons/:id/like", ToggleLessonLike, auth),
      Route("POST", "/api/lessons/:id/complete", MarkLessonComplete, auth),
      Route("PUT", "/api/lessons/:id/position", UpdateVideoPosition, auth) ]
  }

  /** `GET /api/courses/<id>` is taken by the `:id` course route, after the
      middleware, with the identifier as its one parameter. */
  lemma CourseByIdDispatch(id: string)
    requires ValidParam(id)
    ensures FirstMatch(ApiRoutes(), "GET", "/api/courses/" + id, 0)
      == Found(6, [RunMiddleware("requireAuth"), RunHandler(GetCourseById, [id])])
  {
    var s := "/api/courses/" + id;
    var rs := ApiRoutes();
    CourseByIdFrom2(id);
    PublicRoutes();
    assert FirstMatch(rs, "GET", s, 1) == FirstMatch(rs, "GET", s, 2);
    assert FirstMatch(rs, "GET", s, 0) == FirstMatch(rs, "GET", s, 1);
  }

  /** Login and registration are the only public routes: they come first,
      take POST only and run no middleware, and every later route runs
      `requireAuth`. */
  lemma PublicRoutes()
    ensures ApiRoutes()[0] == Route("POST", "/api/auth/login", Login, None)
    ensures ApiRoutes()[1] == Route("POST", "/api/auth/register", Register, None)
    ensures forall i :: 0 <= i < |ApiRoutes()| ==> (ApiRoutes()[i].middleware.None? <==> i < 2)
    ensures forall i :: 2 <= i < |ApiRoutes()| ==> ApiRoutes()[i].middleware == Some("requireAuth")
  {
  }

  /** Whatever the request, a protected handler is reached only through
      `requireAuth`: a dispatch to any route after login and registration
      calls the middleware and then that route's handler, and a dispatch to
      login or registration calls the handler alone. */
  lemma ProtectedDispatch(verb: string, path: string)
    ensures var d := FirstMatch(ApiRoutes(), verb, path, 0);
      d.Found? && d.index >= 2 ==>
        && |d.calls| == 2 && d.calls[0] == RunMiddleware("requireAuth")
        && d.calls[1].RunHandler? && d.calls[1].handler == ApiRoutes()[d.index].handler
    ensures var d := FirstMatch(ApiRoutes(), verb, path, 0);
      d.Found? && d.index < 2 ==>
        && |d.calls| == 1 && d.calls[0].RunHandler? && d.calls[0].handler == ApiRoutes()[d.index].handler
  {
    var rs := ApiRoutes();
    var d := FirstMatch(rs, verb, path, 0);
    PublicRoutes();
    if d.Found? {
      var r := rs[d.index];
      var ps := Match(Tokens(r.path), path).value;
      if d.index >= 2 {
        assert r.middleware == Some("requireAuth");
        assert !IsFalsy(r.middleware) by {
          assert "requireAuth"[0] != "0"[0];
        }
        assert d.calls == [RunMiddleware("requireAuth")] + [RunHandler(r.handler, ps)];
      } else {
        assert d.calls == [] + [RunHandler(r.handler, ps)];
      }
    }
  }

  /** From the third route on, `GET /api/courses/<id>` first meets the course route. */
  lemma CourseByIdFrom2(id: string)
    requires ValidParam(id)
    ensures FirstMatch(ApiRoutes(), "GET", "/api/courses/" + id, 2)
      == Found(6, [RunMiddleware("requireAuth"), RunHandler(GetCourseById, [id])])
  {
    var s := "/api/courses/" + id;
    var rs := ApiRoutes();
    var calls := [RunMiddleware("requireAuth"), RunHandler(GetCourseById, [id])];
    assert s[5] == 'c' && |s| > 13;
    CourseByIdHits(id);
    assert FirstMatch(rs, "GET", s, 6) == Found(6, calls);
    StaticMiss5(s);
    assert FirstMatch(rs, "GET", s, 5) == FirstMatch(rs, "GET", s, 6);
    StaticMiss4(s);
    assert FirstMatch(rs, "GET", s, 4) == FirstMatch(rs, "GET", s, 5);
    StaticMiss3(s);
    assert FirstMatch(rs, "GET", s, 3) == FirstMatch(rs, "GET", s, 4);
    StaticMiss2(s);
    assert FirstMatch(rs, "GET", s, 2) == FirstMatch(rs, "GET", s, 3);
  }

  /** A route whose pattern has no placeholder takes only its own path. */
  lemma StaticRouteMiss(r: Route, verb: string, s: string)
    requires ':' !in r.path && s != r.path
    ensures MatchRoute(r, verb, s).None?
  {
    StaticPattern(r.path, s);
  }

  /** The paths of the four static GET routes before the course route. */
  lemma StaticPaths()
    ensures ApiRoutes()[2].path == "/api/auth/profile"
    ensures ApiRoutes()[3].path == "/api/dashboard"
    ensures ApiRoutes()[4].path == "/api/events"
    ensures ApiRoutes()[5].path == "/api/courses"
  {
  }

  /** None of those paths has a placeholder or is longer than 13 with `c` at offset 5. */
  lemma MissFacts(u: string, s: string)
    requires u == "/api/auth/profile" || u == "/api/dashboard" || u == "/api/events" || u == "/api/courses"
    requires |s| > 13 && s[5] == 'c'
    ensures ':' !in u && s != u
  {
    assert |u| > 5 && (u[5] != 'c' || |u| <= 13);
  }

  /** Route 2, `GET /api/auth/profile`, does not take a path longer than 13 with `c` at offset 5. */
  lemma StaticMiss2(s: string)
    requires |s| > 13 && s[5] == 'c'
    ensures MatchRoute(ApiRoutes()[2], "GET", s).None?
  {
    StaticPaths();
    MissFacts(ApiRoutes()[2].path, s);
    StaticRouteMiss(ApiRoutes()[2], "GET", s);
  }

  /** Route 3, `GET /api/dashboard`, does not take a path longer than 13 with `c` at offset 5. */
  lemma StaticMiss3(s: string)
    requires |s| > 13 && s[5] == 'c'
    ensures MatchRoute(ApiRoutes()[3], "GET", s).None?
  {
    StaticPaths();
    MissFacts(ApiRoutes()[3].path, s);
    StaticRouteMiss(ApiRoutes()[3], "GET", s);
  }

  /** Route 4, `GET /api/events`, does not take a path longer than 13 with `c` at offset 5. */
  lemma StaticMiss4(s: string)
    requires |s| > 13 && s[5] == 'c'
    ensures MatchRoute(ApiRoutes()[4], "GET", s).None?
  {
    StaticPaths();
    MissFacts(ApiRoutes()[4].path, s);
    StaticRouteMiss(ApiRoutes()[4], "GET", s);
  }

  /** Route 5, `GET /api/courses`, does not take a path longer than 13 with `c` at offset 5. */
  lemma StaticMiss5(s: string)
    requires |s| > 13 && s[5] == 'c'
    ensures MatchRoute(ApiRoutes()[5], "GET", s).None?
  {
    StaticPaths();
    MissFacts(ApiRoutes()[5].path, s);
    StaticRouteMiss(ApiRoutes()[5], "GET", s);
  }

  /** The course route takes `GET /api/courses/<id>`, capturing the identifier. */
  lemma CourseByIdHits(id: string)
    requires ValidParam(id)
    ensures MatchRoute(ApiRoutes()[6], "GET", "/api/courses/" + id)
      == Some([RunMiddleware("requireAuth"), RunHandler(GetCourseById, [id])])
  {
    var s := "/api/courses/" + id;
    var r := ApiRoutes()[6];
    assert r == Route("GET", "/api/courses/:id", GetCourseById, Some("requireAuth"));
    assert !IsFalsy(r.middleware) by {
      assert "requireAuth"[0] != "0"[0];
    }
    CourseIdPattern(id);
    var m := MatchRoute(r, "GET", s);
    assert m.Some?;
    var calls := [RunMiddleware("requireAuth"), RunHandler(GetCourseById, [id])];
    assert m.value == [RunMiddleware("requireAuth")] + [RunHandler(GetCourseById, [id])];
    assert [RunMiddleware("requireAuth")] + [RunHandler(GetCourseById, [id])] == calls;
    assert m == Some(calls);
  }

  /** The pattern `/api/courses/:id` captures the identifier. */
  lemma CourseIdPattern(id: string)
    requires ValidParam(id)
    ensures Match(Tokens("/api/courses/:id"), "/api/courses/" + id) == Some([id])
  {
    CoursePatternParts();
    PrefixParamCapture("/api/courses/", "id", "/api/courses/:id", id);
  }

  /** `/api/courses/:id` is a placeholder-free prefix and the placeholder `:id`. */
  lemma CoursePatternParts()
    ensures ':' !in "/api/courses/"
    ensures "/api/courses/:id" == "/api/courses/" + ":" + "id"
    ensures forall k :: 0 <= k < |"id"| ==> IsWordChar("id"[k])
  {
    var p := "/api/courses/";
    assert forall k :: 0 <= k < |p| ==> p[k] != ':';
  }

  /** A pattern of a placeholder-free prefix and one placeholder captures
      whatever valid parameter follows the prefix. */
  lemma PrefixParamCapture(p: string, name: string, pattern: string, id: string)
    requires ':' !in p && |name| > 0 && forall k :: 0 <= k < |name| ==> IsWordChar(name[k])
    requires pattern == p + ":" + name
    requires ValidParam(id)
    ensures Match(Tokens(pattern), p + id) == Some([id])
  {
    var s := p + id;
    assert s[..|p|] == p && s[|p|..] == id;
    TrailingParamPattern(p, name, s);
  }
}
