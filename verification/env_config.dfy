/**
 * The `.env` loader of the SDK. The file is its sequence of lines (or `None`
 * when it does not exist) and the process environment is a map from names
 * to values; loading returns the environment it leaves behind.
 */
module EnvConfig {
  import opened Wrappers
  import PyText

  type Env = map<string, string>

  const DeepgramApiKey := "DEEPGRAM_API_KEY"
  const RequiredVars: seq<string> := [DeepgramApiKey]
  const OptionalVars: seq<string> := ["OMI_API_KEY", "OMI_USER_ID", "MCP_BASE_URL", "MEMORY_FILE"]

  /** `os.getenv(key)` is truthy: the variable is set and non-empty. */
  predicate HasValue(env: Env, key: string)
  {
    key in env && env[key] != []
  }

  predicate IsQuote(c: char)
  {
    c == '"' || c == '\''
  }

  /**
   * Removes one layer of matching double or single quotes. A lone quote
   * character starts and ends with itself, so it becomes the empty string.
   */
  function Unquote(v: string): (r: string)
    ensures |v| >= 1 && IsQuote(v[0]) && v[|v| - 1] == v[0] ==> |r| == if |v| >= 2 then |v| - 2 else 0
    ensures !(|v| >= 1 && IsQuote(v[0]) && v[|v| - 1] == v[0]) ==> r == v
    ensures |v| >= 2 && IsQuote(v[0]) && v[|v| - 1] == v[0] ==> r == v[1..|v| - 1]
    ensures forall c :: c in r ==> c in v
  {
    if |v| >= 1 && v[0] == '"' && v[|v| - 1] == '"' then (if |v| >= 2 then v[1..|v| - 1] else [])
    else if |v| >= 1 && v[0] == '\'' && v[|v| - 1] == '\'' then (if |v| >= 2 then v[1..|v| - 1] else [])
    else v
  }

  /** Quoting a value with double quotes and unquoting it gives the value back. */
  lemma UnquoteQuoted(x: string)
    ensures Unquote("\"" + x + "\"") == x
    ensures Unquote("'" + x + "'") == x
  {
    var d := "\"" + x + "\"";
    assert d[1..|d| - 1] == x;
    var s := "'" + x + "'";
    assert s[1..|s| - 1] == x;
  }

  /** What one line of the file says. */
  datatype Line = Ignored | Assign(key: string, value: string)

  /** The body of the `for line in f` loop up to the environment update. */
  function ParseLine(raw: string): (r: Line)
    ensures PyText.Strip(raw) == [] || PyText.Strip(raw)[0] == '#' ==> r == Ignored
    ensures '=' !in PyText.Strip(raw) ==> r == Ignored
    ensures r.Assign? ==> '=' !in r.key && r.key == PyText.Strip(r.key)
    ensures r.Assign? ==> forall c :: c in r.key || c in r.value ==> c in raw
  {
    var line := PyText.Strip(raw);
    if line == [] || line[0] == '#' then Ignored
    else
      var i := PyText.Find(line, '=');
      if i == |line| then Ignored
      else
        var key := PyText.Strip(line[..i]);
        var value := Unquote(PyText.Strip(line[i + 1..]));
        SplitParts(raw, i, key, value);
        Assign(key, value)
  }

  /** The name and value cut from a stripped line at its first `=`. */
  lemma SplitParts(raw: string, i: nat, key: string, value: string)
    requires i < |PyText.Strip(raw)| && '=' !in PyText.Strip(raw)[..i]
    requires key == PyText.Strip(PyText.Strip(raw)[..i])
    requires value == Unquote(PyText.Strip(PyText.Strip(raw)[i + 1..]))
    ensures '=' !in key && key == PyText.Strip(key)
    ensures forall c :: c in key || c in value ==> c in raw
  {
    var line := PyText.Strip(raw);
    PyText.StripIdempotent(line[..i]);
    forall c | c in key || c in value
      ensures c in raw
    {
      if c in key {
        assert c in line[..i];
        var k :| 0 <= k < i && line[..i][k] == c;
        assert line[k] == c;
      } else {
        assert c in PyText.Strip(line[i + 1..]);
        assert c in line[i + 1..];
        var k :| 0 <= k < |line| - i - 1 && line[i + 1..][k] == c;
        assert line[i + 1 + k] == c;
      }
      assert c in line;
    }
  }

  /** Whether the loader writes `key`: a non-empty name that has no non-empty value yet. */
  predicate WillSet(env: Env, key: string)
  {
    key != [] && !HasValue(env, key)
  }

  /**
   * `os.environ[key] = value` raises on an embedded NUL character; `key`
   * can never hold `=`, the other name the platform refuses.
   */
  predicate SetRaises(key: string, value: string)
  {
    '\0' in key || '\0' in value
  }

  /**
   * The effect of one parsed line on the environment; `None` is the
   * exception raised by the assignment.
   */
  function ApplyLine(env: Env, line: Line): (r: Option<Env>)
    ensures r.Some? ==> env.Keys <= r.value.Keys
    ensures r.Some? ==> forall k :: HasValue(env, k) ==> r.value[k] == env[k]
    ensures r.Some? ==> forall k :: k in r.value && k !in env ==> k != []
  {
    match line
    case Ignored => Some(env)
    case Assign(key, value) =>
      if !WillSet(env, key) then Some(env)
      else if SetRaises(key, value) then None
      else Some(env[key := value])
  }

  /** Result of loading: the return value and the environment afterwards. */
  datatype Loaded = Loaded(ok: bool, env: Env)

  /**
   * The loop of `load_env_file` over the remaining lines. An assignment that
   * raises stops the loop: the function returns False and keeps the updates
   * already made.
   */
  function LoadLines(lines: seq<string>, env: Env): (r: Loaded)
    ensures env.Keys <= r.env.Keys
    ensures forall k :: HasValue(env, k) ==> r.env[k] == env[k]
    ensures forall k :: k in r.env && k !in env ==> k != []
    ensures (forall i :: 0 <= i < |lines| ==> '\0' !in lines[i]) ==> r.ok
    decreases |lines|
  {
    if lines == [] then Loaded(true, env)
    else
      match ApplyLine(env, ParseLine(lines[0]))
      case None => Loaded(false, env)
      case Some(env') => LoadLines(lines[1..], env')
  }

  /** `load_env_file(path)`: False with the environment unchanged when the file does not exist. */
  function LoadEnvFile(file: Option<seq<string>>, env: Env): (r: Loaded)
    ensures file.None? ==> r == Loaded(false, env)
    ensures forall k :: HasValue(env, k) ==> k in r.env && r.env[k] == env[k]
  {
    match file
    case None => Loaded(false, env)
    case Some(lines) => LoadLines(lines, env)
  }

  /** Names in `vars` without a non-empty value, in order. */
  function Missing(vars: seq<string>, env: Env): (m: seq<string>)
    ensures forall v :: v in m <==> v in vars && !HasValue(env, v)
  {
    if vars == [] then []
    else (if HasValue(env, vars[0]) then [] else [vars[0]]) + Missing(vars[1..], env)
  }

  /** `check_required_env_vars`: only a missing required variable fails the check. */
  function CheckRequiredEnvVars(env: Env): (ok: bool)
    ensures ok <==> HasValue(env, DeepgramApiKey)
  {
    var missing := Missing(RequiredVars, env);
    assert missing != [] ==> missing[0] in missing;
    missing == []
  }

  /** `setup_environment`: load `.env`, then report the check; the load's own result is discarded. */
  function SetupEnvironment(file: Option<seq<string>>, env: Env): (r: Loaded)
    ensures r.ok <==> HasValue(LoadEnvFile(file, env).env, DeepgramApiKey)
    ensures HasValue(env, DeepgramApiKey) ==> r.ok
    ensures file.None? ==> r == Loaded(CheckRequiredEnvVars(env), env)
  {
    var loaded := LoadEnvFile(file, env);
    Loaded(CheckRequiredEnvVars(loaded.env), loaded.env)
  }

  // ---------------------------------------------------------------------
  // Properties

  /** The values the file assigns to `key`, in file order. */
  function AssignedValues(lines: seq<string>, key: string): seq<string>
    decreases |lines|
  {
    if lines == [] then []
    else
      var rest := AssignedValues(lines[1..], key);
      match ParseLine(lines[0])
      case Assign(k, v) => if k == key then [v] + rest else rest
      case Ignored => rest
  }

  /** The first non-empty value, or the empty string when there is none. */
  function FirstNonEmpty(values: seq<string>): string
  {
    if values == [] then []
    else if values[0] != [] then values[0]
    else FirstNonEmpty(values[1..])
  }

  /**
   * Within one successfully loaded file, a key the environment did not
   * already hold with a non-empty value ends with the first non-empty value
   * the file assigns it (an earlier empty assignment is overwritten), and a
   * key the file never assigns keeps its previous state.
   */
  lemma {:induction false} FirstNonEmptyAssignmentWins(lines: seq<string>, env: Env, key: string)
    requires LoadLines(lines, env).ok
    requires key != [] && !HasValue(env, key)
    ensures var r := LoadLines(lines, env);
      && (AssignedValues(lines, key) != [] ==>
            key in r.env && r.env[key] == FirstNonEmpty(AssignedValues(lines, key)))
      && (AssignedValues(lines, key) == [] ==>
            (key in r.env <==> key in env) && (key in env ==> r.env[key] == env[key]))
    decreases |lines|
  {
    if lines != [] {
      var rest := lines[1..];
      match ParseLine(lines[0])
      case Ignored =>
        FirstNonEmptyAssignmentWins(rest, env, key);
      case Assign(k, v) =>
        if WillSet(env, k) {
          var env' := env[k := v];
          if k == key {
            if v != [] {
              assert HasValue(env', key);
              assert LoadLines(rest, env').env[key] == v;
            } else {
              FirstNonEmptyAssignmentWins(rest, env', key);
            }
          } else {
            FirstNonEmptyAssignmentWins(rest, env', key);
          }
        } else {
          assert k != key;
          FirstNonEmptyAssignmentWins(rest, env, key);
        }
    }
  }

  /** A `KEY="value"` line written for a well-formed name reads back as that name and value. */
  lemma ParseAssignmentLine(key: string, value: string)
    requires key != [] && '=' !in key && key[0] != '#'
    requires !PyText.IsSpace(key[0]) && !PyText.IsSpace(key[|key| - 1])
    ensures ParseLine(key + "=\"" + value + "\"") == Assign(key, value)
  {
    var line := key + "=\"" + value + "\"";
    assert line[0] == key[0] && line[|line| - 1] == '"';
    assert PyText.Strip(line) == line;
    var i := PyText.Find(line, '=');
    assert line[..|key|] == key;
    assert line[|key|] == '=';
    assert i == |key|;
    assert line[i + 1..] == "\"" + value + "\"";
    var q := "\"" + value + "\"";
    assert PyText.Strip(q) == q;
    UnquoteQuoted(value);
  }

  /**
   * An assignment line splits at its first `=`: the name is the stripped
   * text before it and the value the stripped, unquoted text after it, which
   * may itself contain `=`.
   */
  lemma SplitsAtFirstEquals(raw: string, before: string, after: string)
    requires PyText.Strip(raw) == before + "=" + after
    requires '=' !in before
    requires before == [] || before[0] != '#'
    ensures ParseLine(raw) == Assign(PyText.Strip(before), Unquote(PyText.Strip(after)))
  {
    var line := before + "=" + after;
    assert line[0] != '#' by {
      if before == [] { assert line[0] == '='; } else { assert line[0] == before[0]; }
    }
    assert line[..|before|] == before;
    assert line[|before|] == '=';
    var i := PyText.Find(line, '=');
    assert i == |before|;
    assert line[i + 1..] == after;
  }

  /** Missing optional variables never fail the check: only the required key matters. */
  lemma OptionalVarsIrrelevant(env1: Env, env2: Env)
    requires HasValue(env1, DeepgramApiKey) == HasValue(env2, DeepgramApiKey)
    ensures CheckRequiredEnvVars(env1) == CheckRequiredEnvVars(env2)
  {
  }
}
