/** `EnvLoader::load` (server_php/utils/EnvLoader.php): the `.env` parser of
    the PHP back end. The file is given as the lines `file()` returns with
    `FILE_IGNORE_NEW_LINES | FILE_SKIP_EMPTY_LINES`, or None when it does not
    exist; the three stores it writes (`putenv`, `$_ENV`, `$_SERVER`) receive
    the same pairs and are one map here. */
module EnvLoader {
  import opened Wrappers
  import opened PhpString

  /** One assignment the loader stores. */
  datatype Entry = Entry(name: string, value: string)

  /** `strpos(trim($line), '#') === 0`. */
  predicate IsComment(line: string) {
    var t := Trim(line);
    |t| > 0 && t[0] == '#'
  }

  /** `substr($value, 1, -1)` when `$value` is not empty and starts with a
      quote: the first and the last character go, whatever the last one is. */
  function Unquote(v: string): (r: string)
    ensures |v| > 0 && (v[0] == '"' || v[0] == '\'') ==> |r| == if |v| >= 2 then |v| - 2 else 0
    ensures |v| >= 2 && (v[0] == '"' || v[0] == '\'') ==> forall k :: 0 <= k < |r| ==> r[k] == v[k + 1]
    ensures !(|v| > 0 && (v[0] == '"' || v[0] == '\'')) ==> r == v
  {
    if !IsEmpty(v) && (v[0] == '"' || v[0] == '\'') then
      if |v| >= 2 then v[1..|v| - 1] else ""
    else v
  }

  /** The pair one line contributes: None for a comment or a PHP-empty name.
      The line is split at its first `=` only; without one the value is
      null, which `trim` turns into "". */
  function ParseLine(line: string): (r: Option<Entry>)
    ensures IsComment(line) ==> r.None?
    ensures r.Some? ==>
      var name := r.value.name;
      && !IsEmpty(name) && '=' !in name
      && !IsTrimSpace(name[0]) && !IsTrimSpace(name[|name| - 1])
    ensures r.Some? && '=' !in line ==> r.value.value == ""
  {
    if IsComment(line) then None
    else
      var parts := ExplodeFirst(line, '=');
      var name := Trim(parts[0]);
      var value := Unquote(if |parts| == 2 then Trim(parts[1]) else "");
      TrimKeeps(parts[0], '=');
      if IsEmpty(name) then None else Some(Entry(name, value))
  }

  /** `trim` deletes and never adds a character. */
  lemma TrimKeeps(s: string, c: char)
    requires c !in s
    ensures c !in Trim(s)
  {
    var l := Ltrim(s, IsTrimSpace);
    SliceKeeps(s, |s| - |l|, |s|, c);
    var r := Rtrim(l, IsTrimSpace);
    SliceKeeps(l, 0, |r|, c);
  }

  /** A slice holds no character its sequence does not. */
  lemma SliceKeeps(s: string, a: int, b: int, c: char)
    requires c !in s && 0 <= a <= b <= |s|
    ensures c !in s[a..b]
  {
    assert forall k :: 0 <= k < b - a ==> s[a..b][k] == s[a + k];
  }

  /** A line of name, `=` and value: nothing is stored for a PHP-empty
      trimmed name; otherwise the name is trimmed, the value trimmed and
      unquoted, and every later `=` belongs to the value. */
  lemma SplitAtFirstEquals(name: string, value: string)
    requires '=' !in name && !IsComment(name + "=" + value)
    ensures ParseLine(name + "=" + value) ==
      if IsEmpty(Trim(name)) then None else Some(Entry(Trim(name), Unquote(Trim(value))))
  {
    var line := name + "=" + value;
    assert ExplodeFirst(line, '=') == [name, value] by {
      assert line[|name|] == '=';
      assert line[..|name|] == name;
      assert line[|name| + 1..] == value;
      assert IndexOf(line, '=') == Some(|name|);
    }
    ParseLineOfTwo(line, name, value);
  }

  /** A line that is not a comment and splits into `a` and `b`. */
  lemma ParseLineOfTwo(line: string, a: string, b: string)
    requires !IsComment(line) && ExplodeFirst(line, '=') == [a, b]
    ensures ParseLine(line) == if IsEmpty(Trim(a)) then None else Some(Entry(Trim(a), Unquote(Trim(b))))
  {
  }

  /** The map after storing one parsed line. */
  function Store(vars: map<string, string>, e: Option<Entry>): (r: map<string, string>)
    ensures e.None? ==> r == vars
    ensures e.Some? ==>
      && r.Keys == vars.Keys + {e.value.name}
      && r[e.value.name] == e.value.value
      && forall n :: n in vars && n != e.value.name ==> r[n] == vars[n]
  {
    match e
    case None => vars
    case Some(e) => vars[e.name := e.value]
  }

  /** Storing a pair is a map update. */
  lemma StoreSome(vars: map<string, string>, name: string, value: string)
    ensures Store(vars, Some(Entry(name, value))) == vars[name := value]
  {
  }

  /** The parsed form of every line, in order. */
  function Parsed(lines: seq<string>): (es: seq<Option<Entry>>)
    ensures |es| == |lines|
    ensures forall k :: 0 <= k < |lines| ==> es[k] == ParseLine(lines[k])
    decreases |lines|
  {
    if |lines| == 0 then []
    else Parsed(lines[..|lines| - 1]) + [ParseLine(lines[|lines| - 1])]
  }

  /** The map after storing the parsed lines in order. */
  function Assign(vars: map<string, string>, es: seq<Option<Entry>>): map<string, string>
    decreases |es|
  {
    if |es| == 0 then vars
    else Store(Assign(vars, es[..|es| - 1]), es[|es| - 1])
  }

  /** Parsed line `k` assigns `name`. */
  predicate Assigns(es: seq<Option<Entry>>, k: int, name: string)
    requires 0 <= k < |es|
  {
    es[k].Some? && es[k].value.name == name
  }

  /** The last line that assigns a name decides its value. */
  lemma {:induction false} LastWins(vars: map<string, string>, es: seq<Option<Entry>>, k: int)
    requires 0 <= k < |es| && es[k].Some?
    requires forall j :: k < j < |es| ==> !Assigns(es, j, es[k].value.name)
    ensures es[k].value.name in Assign(vars, es)
    ensures Assign(vars, es)[es[k].value.name] == es[k].value.value
    decreases |es|
  {
    var front := es[..|es| - 1];
    if k < |es| - 1 {
      forall j | k < j < |front| ensures !Assigns(front, j, es[k].value.name) {
        assert front[j] == es[j];
        assert !Assigns(es, j, es[k].value.name);
      }
      assert front[k] == es[k];
      LastWins(vars, front, k);
      assert !Assigns(es, |es| - 1, es[k].value.name);
    }
  }

  /** A name no line assigns keeps its standing and its value. */
  lemma {:induction false} OthersUnchanged(vars: map<string, string>, es: seq<Option<Entry>>, name: string)
    requires forall j :: 0 <= j < |es| ==> !Assigns(es, j, name)
    ensures name in Assign(vars, es) <==> name in vars
    ensures name in vars ==> Assign(vars, es)[name] == vars[name]
    decreases |es|
  {
    if |es| > 0 {
      var front := es[..|es| - 1];
      forall j | 0 <= j < |front| ensures !Assigns(front, j, name) {
        assert front[j] == es[j];
        assert !Assigns(es, j, name);
      }
      OthersUnchanged(vars, front, name);
      assert !Assigns(es, |es| - 1, name);
    }
  }

  /** Storing the parsed lines one more line at a time. */
  lemma AssignSnoc(vars: map<string, string>, lines: seq<string>, line: string)
    ensures Assign(vars, Parsed(lines + [line])) == Store(Assign(vars, Parsed(lines)), ParseLine(line))
  {
    var all := lines + [line];
    assert all[..|lines|] == lines;
    var es := Parsed(all);
    assert es[..|lines|] == Parsed(lines);
  }

  /** Storing the first `i + 1` lines is storing line `i` after the first `i`. */
  lemma AssignPrefix(vars: map<string, string>, lines: seq<string>, i: int)
    requires 0 <= i < |lines|
    ensures Assign(vars, Parsed(lines[..i + 1])) == Store(Assign(vars, Parsed(lines[..i])), ParseLine(lines[i]))
  {
    assert lines[..i + 1] == lines[..i] + [lines[i]];
    AssignSnoc(vars, lines[..i], lines[i]);
  }

  /** A comment line changes nothing, wherever it stands. */
  lemma CommentIgnored(vars: map<string, string>, lines: seq<string>, comment: string)
    requires IsComment(comment)
    ensures Assign(vars, Parsed(lines + [comment])) == Assign(vars, Parsed(lines))
  {
    AssignSnoc(vars, lines, comment);
  }

  /** The process environment that `load` writes. */
  class Environment {
    var vars: map<string, string>

    /** An environment holding `vars`. */
    constructor (vars: map<string, string>)
      ensures this.vars == vars
    {
      this.vars := vars;
    }

    /** The body of `load`'s loop for one line: skip a comment, split at the
        first `=`, trim, strip the quotes, store a truthy name. */
    method StoreLine(line: string)
      modifies this
      ensures vars == Store(old(vars), ParseLine(line))
    {
      if IsComment(line) {
        return;
      }
      var parts := ExplodeFirst(line, '=');
      var name := Trim(parts[0]);
      var value := Unquote(if |parts| == 2 then Trim(parts[1]) else "");
      if !IsEmpty(name) {
        StoreSome(vars, name, value);
        vars := vars[name := value];
      }
    }

    /** `EnvLoader::load($path)` for the file's lines: false and nothing set
        when the file is missing; otherwise every line stored in order and
        true. */
    method Load(file: Option<seq<string>>) returns (ok: bool)
      modifies this
      ensures ok <==> file.Some?
      ensures file.None? ==> vars == old(vars)
      ensures file.Some? ==> vars == Assign(old(vars), Parsed(file.value))
    {
      if file.None? {
        return false;
      }
      var lines := file.value;
      var i := 0;
      while i < |lines|
        invariant 0 <= i <= |lines|
        invariant vars == Assign(old(vars), Parsed(lines[..i]))
      {
        AssignPrefix(old(vars), lines, i);
        StoreLine(lines[i]);
        i := i + 1;
      }
      assert lines[..i] == lines;
      return true;
    }
  }
}
