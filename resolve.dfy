/** Placeholder resolution (`replace_braces` and `_replace_match` with its
    strategies): every flat `{...}` group of a string is replaced by what
    its inner text names, and the whole is done `DEPTH` times over. */
module Resolve {
  import opened Wrappers
  import opened Text
  import opened Scan
  import opened Factors
  import opened Posargs

  /** How many substitution passes `replace_braces` makes. */
  const DEPTH: nat := 5

  /** What a placeholder is resolved against: the environment's name, its
      string attributes (looked up by `getattr`), its config values keyed by
      section and option, and the options the command line passed. */
  datatype Env = Env(
    name: string,
    attrs: map<string, string>,
    config: map<(string, string), string>,
    options: seq<string>)

  /** The exceptions that escape `replace_braces`. */
  datatype Failure =
    | MissingEnvVar(key: string)                    // KeyError from `os.environ[KEY]`
    | MissingConfig(section: string, option: string) // `env.config.get` finds nothing
    | MissingPosargsDefault                         // IndexError on `e[1]` of a bare `posargs`
    | NotUnderstood(expr: string)                   // NotImplementedError

  /** What one strategy makes of a placeholder: not its shape (the
      `TypeError` the code raises to move on), a value, or a failure. */
  datatype Outcome = NotApplicable | Value(v: string) | Failed(f: Failure)

  datatype Result<T> = Ok(value: T) | Err(error: Failure)

  /** `_replace_envvar(s)`: `env:KEY` must find `KEY` in the process
      environment, `env:KEY:DEFAULT` falls back to `DEFAULT`; anything
      with another number of colons, or not starting with `env`, is not of
      this shape. */
  function ReplaceEnvvar(s: string, environ: map<string, string>): Outcome {
    var e := SplitChar(s, ':');
    if |e| > 3 || |e| == 1 || e[0] != "env" then NotApplicable
    else if |e| == 2 then
      if e[1] in environ then Value(environ[e[1]]) else Failed(MissingEnvVar(e[1]))
    else Value(if e[1] in environ then environ[e[1]] else e[2])
  }

  /** `re.match(r"\[(.*?)\](.*)", s)`: `s` opens with `[`, the section runs
      to the first `]` (the lazy `.*?` may not cross a newline), and the
      option is what follows up to the end of that line. */
  function ConfigRef(s: string): Option<(string, string)> {
    if s == [] || s[0] != '[' then None
    else
      var j := IndexOf(s, ']', 1);
      if j == |s| || '\n' in s[1..j] then None
      else Some((s[1..j], s[j + 1..IndexOf(s, '\n', j + 1)]))
  }

  /** `[expand_factor_conditions(e, env) for e in lines]`. */
  function FilterEach(lines: seq<string>, name: string): (r: seq<string>)
    ensures |r| == |lines|
  {
    if lines == [] then []
    else [ExpandFactorConditions(lines[0], name)] + FilterEach(lines[1..], name)
  }

  /** A config value with each of its lines passed through the factor
      conditions of the environment `name`. */
  function FilterLines(value: string, name: string): string {
    Join(FilterEach(SplitChar(value, '\n'), name), "\n")
  }

  /** `_replace_config(s, env)`. */
  function ReplaceConfig(s: string, env: Env): Outcome {
    match ConfigRef(s)
    case None => NotApplicable
    case Some(ref) =>
      if ref in env.config then Value(FilterLines(env.config[ref], env.name))
      else Failed(MissingConfig(ref.0, ref.1))
  }

  /** `_replace_posargs(s, env)`: the positional arguments joined by blanks,
      or, when that is empty, the default after the colon; a bare `posargs`
      has no default to fall back to. */
  function ReplacePosargs(s: string, env: Env): Outcome {
    var e := ReSplit(s, ':');
    if e[0] != "posargs" then NotApplicable
    else
      var joined := Join(PositionalArgs(env.options), " ");
      if joined != "" then Value(joined)
      else if |e| >= 2 then Value(e[1])
      else Failed(MissingPosargsDefault)
  }

  /** `_replace_match`: the inner text of a group, stripped, is looked up as
      an attribute of the environment first, then tried as `env:...`,
      `[section]option` and `posargs:...` in that order; text of none of
      these shapes is not understood. */
  function ReplaceMatch(inner: string, env: Env, environ: map<string, string>): (r: Outcome)
    ensures !r.NotApplicable?
  {
    Dispatch(Strip(inner), env, environ)
  }

  /** The strategies of `_replace_match` tried in order on the stripped text
      `s`: an attribute of the environment, then `env:`, then
      `[section]option`, then `posargs`. */
  function Dispatch(s: string, env: Env, environ: map<string, string>): (r: Outcome)
    ensures !r.NotApplicable?
  {
    if s in env.attrs then Value(env.attrs[s])
    else
      var a := ReplaceEnvvar(s, environ);
      if !a.NotApplicable? then a
      else
        var b := ReplaceConfig(s, env);
        if !b.NotApplicable? then b
        else
          var c := ReplacePosargs(s, env);
          if !c.NotApplicable? then c else Failed(NotUnderstood(s))
  }

  /** `u` put in front of a successful result. */
  function Prepend(u: string, r: Result<string>): Result<string> {
    match r
    case Ok(t) => Ok(u + t)
    case Err(f) => Err(f)
  }

  /** The callback `replace` of `replace_braces`: the inner text of a group
      resolved by `_replace_match`. */
  function Replacer(env: Env, environ: map<string, string>): string -> Result<string> {
    inner =>
      var o := ReplaceMatch(inner, env, environ);
      if o.Failed? then Err(o.f) else Ok(o.v)
  }

  /** `re.sub(r"{[^{}]*}", replace, s[p..])`: the scan of `FindGroups`, each
      group's inner text handed to `replace`, left to right; the first
      failure aborts the substitution. */
  function SubFrom(s: string, p: nat, replace: string -> Result<string>): Result<string>
    requires p <= |s|
    decreases |s| - p
  {
    if p == |s| then Ok([])
    else if GroupAt(s, p) then
      var e := GroupEnd(s, p);
      match replace(s[p + 1..e - 1])
      case Err(f) => Err(f)
      case Ok(v) => Prepend(v, SubFrom(s, e, replace))
    else Prepend([s[p]], SubFrom(s, p + 1, replace))
  }

  /** One pass of `replace_braces`: `re.sub` over the whole string. */
  function Pass(s: string, replace: string -> Result<string>): Result<string> {
    SubFrom(s, 0, replace)
  }

  /** `n` passes, stopping at the first failure. */
  function Passes(s: string, n: nat, replace: string -> Result<string>): Result<string>
    decreases n
  {
    if n == 0 then Ok(s)
    else
      match Pass(s, replace)
      case Err(f) => Err(f)
      case Ok(t) => Passes(t, n - 1, replace)
  }

  /** What `replace_braces(s, env)` returns or raises. */
  function ReplaceBracesOf(s: string, env: Env, environ: map<string, string>): Result<string> {
    Passes(s, DEPTH, Replacer(env, environ))
  }

  /** `replace_braces(s, env)`: its loop of `DEPTH` substitutions. */
  method ReplaceBraces(s: string, env: Env, environ: map<string, string>) returns (r: Result<string>)
    ensures r == ReplaceBracesOf(s, env, environ)
  {
    var replace := Replacer(env, environ);
    var cur := s;
    for i := 0 to DEPTH
      invariant Passes(s, DEPTH, replace) == Passes(cur, DEPTH - i, replace)
    {
      var next := Pass(cur, replace);
      if next.Err? {
        return next;
      }
      cur := next.value;
    }
    return Ok(cur);
  }

  // The strategies, one shape at a time.

  /** `env:KEY` is the value of `KEY` in the environment, and a failure
      naming `KEY` when it is not set. */
  lemma EnvvarKey(key: string, environ: map<string, string>)
    requires ':' !in key
    ensures ReplaceEnvvar("env:" + key, environ) ==
      if key in environ then Value(environ[key]) else Failed(MissingEnvVar(key))
  {
    assert ':' !in "env";
    SplitJoin(["env", key], ':');
    assert Join(["env", key], [':']) == "env:" + key;
  }

  /** `env:KEY:DEFAULT` is the value of `KEY`, or `DEFAULT` when it is not
      set; it never fails. */
  lemma EnvvarDefault(key: string, d: string, environ: map<string, string>)
    requires ':' !in key && ':' !in d
    ensures ReplaceEnvvar("env:" + key + ":" + d, environ) ==
      Value(if key in environ then environ[key] else d)
  {
    assert SplitChar("env:" + key + ":" + d, ':') == ["env", key, d] by {
      assert ':' !in "env";
      SplitJoin(["env", key, d], ':');
      assert ["env", key, d][1..] == [key, d];
      assert Join([key, d], [':']) == key + ":" + d;
      assert Join(["env", key, d], [':']) == "env:" + key + ":" + d;
    }
  }

  lemma ConfigText(section: string, option: string, rest: string)
    ensures var s := "[" + section + "]" + option + rest;
      var j := |section| + 1;
      && s[0] == '[' && s[j] == ']'
      && (forall k :: 0 <= k < |section| ==> s[1 + k] == section[k])
      && (forall k :: 0 <= k < |option| ==> s[j + 1 + k] == option[k])
      && s[j + 1 + |option|..] == rest
  {
  }

  lemma ConfigSectionEnd(section: string, option: string, rest: string)
    requires ']' !in section
    ensures IndexOf("[" + section + "]" + option + rest, ']', 1) == |section| + 1
  {
    assert "[" + section + "]" + option + rest == ("[" + section) + ("]" + option + rest);
    assert ("[" + section)[1..] == section;
    IndexOfPast("[" + section, "]" + option + rest, ']', 1);
  }

  lemma ConfigOptionEnd(section: string, option: string, rest: string)
    requires '\n' !in option
    requires rest == [] || rest[0] == '\n'
    ensures IndexOf("[" + section + "]" + option + rest, '\n', |section| + 2) ==
      |section| + 2 + |option|
  {
    var u := "[" + section + "]" + option;
    assert u[|section| + 2..] == option;
    IndexOfPast(u, rest, '\n', |section| + 2);
  }

  /** `[section]option`, followed by nothing or by another line, names that
      section and option. */
  lemma ConfigRefOf(section: string, option: string, rest: string)
    requires ']' !in section && '\n' !in section && '\n' !in option
    requires rest == [] || rest[0] == '\n'
    ensures ConfigRef("[" + section + "]" + option + rest) == Some((section, option))
  {
    var s := "[" + section + "]" + option + rest;
    var j := |section| + 1;
    assert IndexOf(s, ']', 1) == j by {
      ConfigSectionEnd(section, option, rest);
    }
    assert IndexOf(s, '\n', j + 1) == j + 1 + |option| by {
      ConfigOptionEnd(section, option, rest);
    }
    assert s[1..j] == section && s[j + 1..j + 1 + |option|] == option by {
      ConfigText(section, option, rest);
      SliceIs(s, 1, section);
      SliceIs(s, j + 1, option);
    }
  }

  /** A reference that is found has that shape: the section and option are
      read off the front of the text, and the option ends the line. */
  lemma ConfigRefShape(s: string)
    ensures ConfigRef(s).Some? ==>
      var (section, option) := ConfigRef(s).value;
      var n := |section| + |option| + 2;
      && n <= |s| && s[..n] == "[" + section + "]" + option
      && ']' !in section && '\n' !in section && '\n' !in option
      && (n == |s| || s[n] == '\n')
  {
    if ConfigRef(s).Some? {
      var j := IndexOf(s, ']', 1);
      var n := IndexOf(s, '\n', j + 1);
      assert s[..n] == [s[0]] + s[1..j] + [s[j]] + s[j + 1..n];
    }
  }

  lemma {:induction false} FilterEachNoNewline(lines: seq<string>, name: string)
    requires forall x :: x in lines ==> '\n' !in x
    ensures forall y :: y in FilterEach(lines, name) ==> '\n' !in y
  {
    if lines != [] {
      FactorConditionsNoNewline(lines[0], name);
      FilterEachNoNewline(lines[1..], name);
      assert FilterEach(lines, name) ==
        [ExpandFactorConditions(lines[0], name)] + FilterEach(lines[1..], name);
    }
  }

  /** Filtering a config value keeps its lines: the result has as many lines
      as the value, each the factor-filtered line of the value. */
  lemma ConfigLines(value: string, name: string)
    ensures SplitChar(FilterLines(value, name), '\n') == FilterEach(SplitChar(value, '\n'), name)
  {
    var lines := SplitChar(value, '\n');
    SplitCharJoin(value, '\n');
    FilterEachNoNewline(lines, name);
    SplitJoin(FilterEach(lines, name), '\n');
  }

  /** `posargs:DEFAULT` is the positional arguments joined by blanks, or the
      default, stripped on the left, when they join to nothing. */
  lemma PosargsDefault(d: string, env: Env)
    requires ':' !in d
    ensures var joined := Join(PositionalArgs(env.options), " ");
      ReplacePosargs("posargs:" + d, env) == Value(if joined != "" then joined else LStrip(d))
  {
    assert ':' !in "posargs";
    ReSplitPair("posargs", d, ':');
    assert "posargs" + [':'] + d == "posargs:" + d;
    RStripKeeps("posargs");
  }

  /** A bare `posargs` without positional arguments has no default: it fails
      rather than giving the empty string. */
  lemma PosargsBare(env: Env)
    ensures var joined := Join(PositionalArgs(env.options), " ");
      ReplacePosargs("posargs", env) ==
        if joined != "" then Value(joined) else Failed(MissingPosargsDefault)
  {
    assert IndexOf("posargs", ':', 0) == 7;
    ReSplitNone("posargs", ':');
  }

  lemma StripKeeps(s: string)
    requires s == [] || (!IsSpace(s[0]) && !IsSpace(s[|s| - 1]))
    ensures Strip(s) == s
  {
    LStripKeeps(s);
    RStripKeeps(s);
  }

  /** Text of the `env:` shape that is no attribute is resolved by the
      `env:` strategy. */
  lemma RouteEnvvar(s: string, env: Env, environ: map<string, string>)
    requires Strip(s) == s && s !in env.attrs
    requires !ReplaceEnvvar(s, environ).NotApplicable?
    ensures ReplaceMatch(s, env, environ) == ReplaceEnvvar(s, environ)
  {
  }

  /** Text that is neither an attribute, nor of the `env:` or `[section]`
      shape, is resolved by the `posargs` strategy if at all. */
  lemma RoutePosargs(s: string, env: Env, environ: map<string, string>)
    requires Strip(s) == s && s !in env.attrs
    requires ReplaceEnvvar(s, environ).NotApplicable? && ReplaceConfig(s, env).NotApplicable?
    requires !ReplacePosargs(s, env).NotApplicable?
    ensures ReplaceMatch(s, env, environ) == ReplacePosargs(s, env)
  {
  }

  lemma PosargsNotEnvvar(d: string, environ: map<string, string>)
    ensures ReplaceEnvvar("posargs:" + d, environ).NotApplicable?
  {
    assert ':' !in "posargs";
    SplitCharHead("posargs", d, ':');
    assert "posargs" + [':'] + d == "posargs:" + d;
  }

  /** `{posargs:DEFAULT}` reaches the `posargs` strategy: it is neither an
      `env:` nor a `[section]` reference. */
  lemma MatchPosargs(d: string, env: Env, environ: map<string, string>)
    requires ':' !in d && (d == [] || !IsSpace(d[|d| - 1]))
    requires "posargs:" + d !in env.attrs
    ensures var joined := Join(PositionalArgs(env.options), " ");
      ReplaceMatch("posargs:" + d, env, environ) == Value(if joined != "" then joined else LStrip(d))
  {
    var y := "posargs:" + d;
    assert Strip(y) == y by {
      assert y[0] == 'p' && y[|y| - 1] == if d == [] then ':' else d[|d| - 1];
      StripKeeps(y);
    }
    assert ReplaceEnvvar(y, environ).NotApplicable? by {
      PosargsNotEnvvar(d, environ);
    }
    assert ReplaceConfig(y, env).NotApplicable? by {
      assert y[0] == 'p';
    }
    assert ReplacePosargs(y, env) == Value(if Join(PositionalArgs(env.options), " ") != "" then Join(PositionalArgs(env.options), " ") else LStrip(d)) by {
      PosargsDefault(d, env);
    }
    RoutePosargs(y, env, environ);
  }

  /** `{env:KEY:DEFAULT}` that is not an attribute reaches the `env:`
      strategy. */
  lemma MatchEnvDefault(key: string, d: string, env: Env, environ: map<string, string>)
    requires ':' !in key && ':' !in d
    requires d == [] || !IsSpace(d[|d| - 1])
    requires "env:" + key + ":" + d !in env.attrs
    ensures ReplaceMatch("env:" + key + ":" + d, env, environ) ==
      Value(if key in environ then environ[key] else d)
  {
    var y := "env:" + key + ":" + d;
    assert y[0] == 'e' && y[|y| - 1] == if d == [] then ':' else d[|d| - 1];
    StripKeeps(y);
    EnvvarDefault(key, d, environ);
    RouteEnvvar(y, env, environ);
  }

  /** Whitespace around the inner text of a group does not matter. */
  lemma MatchStrips(inner: string, env: Env, environ: map<string, string>)
    ensures ReplaceMatch(inner, env, environ) == ReplaceMatch(Strip(inner), env, environ)
  {
    StripTwice(inner);
  }

  /** Text opening with `[` is not of the `env:` shape. */
  lemma BracketNotEnvvar(s: string, environ: map<string, string>)
    requires s != [] && s[0] == '['
    ensures ReplaceEnvvar(s, environ).NotApplicable?
  {
    var k := IndexOf(s, ':', 0);
    if k == |s| {
      SplitCharWhole(s, ':');
    } else {
      SplitCharStep(s, ':');
      assert SplitChar(s, ':')[0] == s[..k];
      if k > 0 {
        assert s[..k][0] == '[';
      }
    }
  }

  /** Text that is neither an attribute nor of the `env:` shape, but a
      `[section]option` reference, is resolved by the config strategy. */
  lemma RouteConfig(s: string, env: Env, environ: map<string, string>)
    requires Strip(s) == s && s !in env.attrs
    requires ReplaceEnvvar(s, environ).NotApplicable? && !ReplaceConfig(s, env).NotApplicable?
    ensures ReplaceMatch(s, env, environ) == ReplaceConfig(s, env)
  {
  }

  /** A `[section]option` reference whose option ends in a non-blank has
      nothing to strip. */
  lemma ConfigStripped(section: string, option: string)
    requires option == [] || !IsSpace(option[|option| - 1])
    ensures Strip("[" + section + "]" + option) == "[" + section + "]" + option
  {
    var y := "[" + section + "]" + option;
    assert y[0] == '[' && y[|y| - 1] == if option == [] then ']' else option[|option| - 1];
    StripKeeps(y);
  }

  /** `_replace_config` on a `[section]option` reference: the option's
      value, filtered line by line, or a failure naming the option. */
  lemma ConfigOutcome(section: string, option: string, env: Env)
    requires ']' !in section && '\n' !in section && '\n' !in option
    ensures ReplaceConfig("[" + section + "]" + option, env) ==
      if (section, option) in env.config then Value(FilterLines(env.config[(section, option)], env.name))
      else Failed(MissingConfig(section, option))
  {
    var y := "[" + section + "]" + option;
    assert y + [] == y;
    ConfigRefOf(section, option, []);
  }

  /** `{[section]option}` that is not an attribute is the option's value,
      filtered line by line for the environment's factors, and a failure
      naming the section and option when the config has no such value. */
  lemma MatchConfig(section: string, option: string, env: Env, environ: map<string, string>)
    requires ']' !in section && '\n' !in section && '\n' !in option
    requires option == [] || !IsSpace(option[|option| - 1])
    requires "[" + section + "]" + option !in env.attrs
    ensures ReplaceMatch("[" + section + "]" + option, env, environ) ==
      if (section, option) in env.config then Value(FilterLines(env.config[(section, option)], env.name))
      else Failed(MissingConfig(section, option))
  {
    var y := "[" + section + "]" + option;
    assert Strip(y) == y by {
      ConfigStripped(section, option);
    }
    assert ReplaceEnvvar(y, environ).NotApplicable? by {
      assert y[0] == '[';
      BracketNotEnvvar(y, environ);
    }
    assert ReplaceConfig(y, env) ==
      if (section, option) in env.config then Value(FilterLines(env.config[(section, option)], env.name))
      else Failed(MissingConfig(section, option)) by {
      ConfigOutcome(section, option, env);
    }
    RouteConfig(y, env, environ);
  }

  /** A word that is no attribute and of none of the strategies' shapes is
      not understood. */
  lemma MatchUnknown(w: string, env: Env, environ: map<string, string>)
    requires w != [] && !IsSpace(w[0]) && !IsSpace(w[|w| - 1])
    requires ':' !in w && w[0] != '[' && w != "posargs"
    requires w !in env.attrs
    ensures ReplaceMatch(w, env, environ) == Failed(NotUnderstood(w))
  {
    LStripKeeps(w);
    RStripKeeps(w);
    SplitCharWhole(w, ':');
    assert IndexOf(w, ':', 0) == |w|;
    ReSplitNone(w, ':');
  }

  /** An attribute of the environment wins over every other reading of the
      text, even one the later strategies would take. */
  lemma AttributeFirst(inner: string, env: Env, environ: map<string, string>)
    requires Strip(inner) in env.attrs
    ensures ReplaceMatch(inner, env, environ) == Value(env.attrs[Strip(inner)])
  {
  }

  /** `Dispatch` reports text as not understood exactly when it is no
      attribute and no strategy takes it. */
  lemma DispatchNone(s: string, env: Env, environ: map<string, string>)
    ensures Dispatch(s, env, environ) == Failed(NotUnderstood(s)) <==>
      && s !in env.attrs
      && ReplaceEnvvar(s, environ).NotApplicable?
      && ReplaceConfig(s, env).NotApplicable?
      && ReplacePosargs(s, env).NotApplicable?
  {
  }

  /** The stripped text is not understood exactly when it is no attribute,
      its `:` fields are not `env` with one or two more, it is no
      `[section]option` reference, and its first `\s*:\s*` field is not
      `posargs`. */
  lemma NotUnderstoodIff(inner: string, env: Env, environ: map<string, string>)
    ensures var s := Strip(inner);
      var e := SplitChar(s, ':');
      ReplaceMatch(inner, env, environ) == Failed(NotUnderstood(s)) <==>
        && s !in env.attrs
        && (|e| > 3 || |e| == 1 || e[0] != "env")
        && ConfigRef(s).None?
        && ReSplit(s, ':')[0] != "posargs"
  {
    var s := Strip(inner);
    DispatchNone(s, env, environ);
    EnvvarShape(s, environ);
    ConfigShape(s, env);
    PosargsShape(s, env);
  }

  lemma EnvvarShape(s: string, environ: map<string, string>)
    ensures var e := SplitChar(s, ':');
      ReplaceEnvvar(s, environ).NotApplicable? <==> (|e| > 3 || |e| == 1 || e[0] != "env")
  {
  }

  lemma ConfigShape(s: string, env: Env)
    ensures ReplaceConfig(s, env).NotApplicable? <==> ConfigRef(s).None?
  {
  }

  lemma PosargsShape(s: string, env: Env)
    ensures ReplacePosargs(s, env).NotApplicable? <==> ReSplit(s, ':')[0] != "posargs"
  {
  }

  /** Stripped text that is no attribute and of no strategy's shape is not
      understood. */
  lemma RouteNone(s: string, env: Env, environ: map<string, string>)
    requires Strip(s) == s && s !in env.attrs
    requires ReplaceEnvvar(s, environ).NotApplicable?
    requires s != [] && s[0] != '['
    requires ReSplit(s, ':')[0] != "posargs"
    ensures ReplaceMatch(s, env, environ) == Failed(NotUnderstood(s))
  {
    DispatchNone(s, env, environ);
  }

  /** `env:` with more than two further fields is not of the `env:` shape. */
  lemma EnvvarTooMany(a: string, b: string, c: string, environ: map<string, string>)
    requires ':' !in a && ':' !in b
    ensures ReplaceEnvvar("env:" + a + ":" + b + ":" + c, environ).NotApplicable?
  {
    var y := "env:" + a + ":" + b + ":" + c;
    assert y == "env" + [':'] + (a + [':'] + (b + [':'] + c));
    assert ':' !in "env";
    SplitCharHead("env", a + [':'] + (b + [':'] + c), ':');
    SplitCharHead(a, b + [':'] + c, ':');
    SplitCharHead(b, c, ':');
  }

  /** The first `\s*:\s*` field of `word:rest`, for a word without
      trailing blanks, is the word. */
  lemma ReSplitHead(w: string, rest: string)
    requires ':' !in w && (w == [] || !IsSpace(w[|w| - 1]))
    ensures ReSplit(w + ":" + rest, ':')[0] == w
  {
    var y := w + ":" + rest;
    assert y == w + [':'] + rest;
    SplitCharHead(w, rest, ':');
    ReSplitFields(y, ':');
    TrimFieldsStep(SplitChar(y, ':'), true);
    RStripKeeps(w);
  }

  /** `{env:a:b:c}` has too many fields for `env:` and is no other shape: it
      is not understood. */
  lemma MatchEnvTooMany(a: string, b: string, c: string, env: Env, environ: map<string, string>)
    requires ':' !in a && ':' !in b
    requires c == [] || !IsSpace(c[|c| - 1])
    requires "env:" + a + ":" + b + ":" + c !in env.attrs
    ensures var y := "env:" + a + ":" + b + ":" + c;
      ReplaceMatch(y, env, environ) == Failed(NotUnderstood(y))
  {
    var y := "env:" + a + ":" + b + ":" + c;
    EnvTooManyText(a, b, c);
    EnvvarTooMany(a, b, c, environ);
    RouteNone(y, env, environ);
  }

  /** `env:a:b:c` has nothing to strip, and its first `\s*:\s*` field is `env`. */
  lemma EnvTooManyText(a: string, b: string, c: string)
    requires c == [] || !IsSpace(c[|c| - 1])
    ensures var y := "env:" + a + ":" + b + ":" + c;
      Strip(y) == y && y[0] == 'e' && ReSplit(y, ':')[0] == "env"
  {
    var rest := a + ":" + b + ":" + c;
    assert "env:" + a + ":" + b + ":" + c == "env" + ":" + rest;
    PrefixedText("env", rest);
  }

  /** `word:rest` for a word without blanks at its ends and a rest not
      ending in one has nothing to strip, and its first `\s*:\s*` field is
      the word. */
  lemma PrefixedText(w: string, rest: string)
    requires ':' !in w && w != [] && !IsSpace(w[0]) && !IsSpace(w[|w| - 1])
    requires rest == [] || !IsSpace(rest[|rest| - 1])
    ensures var y := w + ":" + rest;
      Strip(y) == y && y[0] == w[0] && ReSplit(y, ':')[0] == w
  {
    var y := w + ":" + rest;
    assert Strip(y) == y by {
      assert y[0] == w[0] && y[|y| - 1] == if rest == [] then ':' else rest[|rest| - 1];
      StripKeeps(y);
    }
    ReSplitHead(w, rest);
  }

  /** `{word:rest}` whose word is neither `env` nor `posargs` and does not
      open with `[` is not understood. */
  lemma MatchOtherPrefix(w: string, rest: string, env: Env, environ: map<string, string>)
    requires ':' !in w && w != [] && !IsSpace(w[0]) && !IsSpace(w[|w| - 1])
    requires w != "env" && w != "posargs" && w[0] != '['
    requires rest == [] || !IsSpace(rest[|rest| - 1])
    requires w + ":" + rest !in env.attrs
    ensures var y := w + ":" + rest;
      ReplaceMatch(y, env, environ) == Failed(NotUnderstood(y))
  {
    var y := w + ":" + rest;
    PrefixedText(w, rest);
    OtherNotEnvvar(w, rest, environ);
    RouteNone(y, env, environ);
  }

  /** `word:rest` with a word other than `env` is not of the `env:` shape. */
  lemma OtherNotEnvvar(w: string, rest: string, environ: map<string, string>)
    requires ':' !in w && w != "env"
    ensures ReplaceEnvvar(w + ":" + rest, environ).NotApplicable?
  {
    assert w + ":" + rest == w + [':'] + rest;
    SplitCharHead(w, rest, ':');
  }

  /** `posargs:a:b` without positional arguments falls back to `a` alone,
      stripped: what follows a second colon is dropped. */
  lemma PosargsExtraColon(a: string, b: string, env: Env)
    requires ':' !in a
    ensures var joined := Join(PositionalArgs(env.options), " ");
      ReplacePosargs("posargs:" + a + ":" + b, env) == Value(if joined != "" then joined else Strip(a))
  {
    var y := "posargs:" + a + ":" + b;
    assert y == "posargs" + [':'] + (a + [':'] + b);
    assert ':' !in "posargs";
    SplitCharHead("posargs", a + [':'] + b, ':');
    SplitCharHead(a, b, ':');
    var fs := SplitChar(y, ':');
    ReSplitFields(y, ':');
    TrimFieldsStep(fs, true);
    TrimFieldsStep(fs[1..], false);
    RStripKeeps("posargs");
  }

  /** The source's environments carry their name as an attribute too. */
  predicate NamedEnv(env: Env) {
    "name" in env.attrs && env.attrs["name"] == env.name
  }

  /** In such an environment `{name}` is the environment's name. */
  lemma MatchName(inner: string, env: Env, environ: map<string, string>)
    requires NamedEnv(env) && Strip(inner) == "name"
    ensures ReplaceMatch(inner, env, environ) == Value(env.name)
  {
    AttributeFirst(inner, env, environ);
  }

  // One pass, and the passes together.

  /** Spans that lie in order in `s[p..]`, each wide enough for two braces. */
  predicate Ordered(s: string, p: nat, gs: seq<Span>)
    decreases |gs|
  {
    gs == [] || (p <= gs[0].start && gs[0].start + 2 <= gs[0].end <= |s| && Ordered(s, gs[0].end, gs[1..]))
  }

  /** `re.sub` spelled out over its list of matches `gs`: the text before
      each match is kept and the match is replaced, the rest after the last
      match is kept; the first failure aborts. */
  function Splice(s: string, p: nat, gs: seq<Span>, replace: string -> Result<string>): Result<string>
    requires p <= |s| && Ordered(s, p, gs)
    decreases |gs|
  {
    if gs == [] then Ok(s[p..])
    else
      var g := gs[0];
      match replace(s[g.start + 1..g.end - 1])
      case Err(f) => Err(f)
      case Ok(v) => Prepend(s[p..g.start] + v, Splice(s, g.end, gs[1..], replace))
  }

  lemma {:induction false} OrderedLater(s: string, p: nat, q: nat, gs: seq<Span>)
    requires q <= p && Ordered(s, p, gs)
    ensures Ordered(s, q, gs)
  {
  }

  lemma {:induction false} FindGroupsOrdered(s: string, p: nat)
    requires p <= |s|
    ensures Ordered(s, p, FindGroups(s, p))
    decreases |s| - p
  {
    if p < |s| {
      if GroupAt(s, p) {
        FindGroupsOrdered(s, GroupEnd(s, p));
        assert FindGroups(s, p)[1..] == FindGroups(s, GroupEnd(s, p));
      } else {
        FindGroupsOrdered(s, p + 1);
        OrderedLater(s, p + 1, p, FindGroups(s, p + 1));
      }
    }
  }

  lemma PrependTwice(u: string, w: string, r: Result<string>)
    ensures Prepend(u, Prepend(w, r)) == Prepend(u + w, r)
  {
    if r.Ok? {
      assert u + (w + r.value) == (u + w) + r.value;
    }
  }

  lemma SpliceShift(s: string, p: nat, gs: seq<Span>, replace: string -> Result<string>)
    requires p < |s| && Ordered(s, p + 1, gs)
    ensures Ordered(s, p, gs)
    ensures Splice(s, p, gs, replace) == Prepend([s[p]], Splice(s, p + 1, gs, replace))
  {
    OrderedLater(s, p + 1, p, gs);
    if gs == [] {
      assert s[p..] == [s[p]] + s[p + 1..];
    } else {
      var g := gs[0];
      assert s[p..g.start] == [s[p]] + s[p + 1..g.start];
      match replace(s[g.start + 1..g.end - 1])
      case Err(f) =>
      case Ok(v) =>
        var rest := Splice(s, g.end, gs[1..], replace);
        PrependTwice([s[p]], s[p + 1..g.start] + v, rest);
        assert [s[p]] + (s[p + 1..g.start] + v) == s[p..g.start] + v;
    }
  }

  /** The scan of a pass is `re.sub` over the matches `FindGroups` finds:
      every flat group, left to right, is replaced once, and the text
      between them is kept. */
  lemma {:induction false} SubIsSplice(s: string, p: nat, replace: string -> Result<string>)
    requires p <= |s|
    ensures Ordered(s, p, FindGroups(s, p))
    ensures SubFrom(s, p, replace) == Splice(s, p, FindGroups(s, p), replace)
    decreases |s| - p
  {
    FindGroupsOrdered(s, p);
    if p < |s| {
      if GroupAt(s, p) {
        var e := GroupEnd(s, p);
        SubIsSplice(s, e, replace);
        var gs := FindGroups(s, p);
        assert gs[0] == Span(p, e) && gs[1..] == FindGroups(s, e);
        assert forall v: string :: s[p..p] + v == v;
      } else {
        SubIsSplice(s, p + 1, replace);
        SpliceShift(s, p, FindGroups(s, p + 1), replace);
      }
    }
  }

  /** A pass over text without a flat group changes nothing. */
  lemma PassNoGroup(s: string, replace: string -> Result<string>)
    requires NoFlatGroup(s)
    ensures Pass(s, replace) == Ok(s)
  {
    NoFlatGroupScan(s);
    SubIsSplice(s, 0, replace);
  }

  /** Once a pass changes nothing, no later pass does. */
  lemma {:induction false} PassesFixed(s: string, n: nat, replace: string -> Result<string>)
    requires Pass(s, replace) == Ok(s)
    ensures Passes(s, n, replace) == Ok(s)
  {
    if n > 0 {
      PassesFixed(s, n - 1, replace);
    }
  }

  /** `replace_braces` returns text without a flat group as it is: a fully
      resolved result is a fixed point. */
  lemma ReplaceBracesNoGroup(s: string, env: Env, environ: map<string, string>)
    requires NoFlatGroup(s)
    ensures ReplaceBracesOf(s, env, environ) == Ok(s)
  {
    PassNoGroup(s, Replacer(env, environ));
    PassesFixed(s, DEPTH, Replacer(env, environ));
  }

  /** Text without an opening brace from `q` on is copied by the scan. */
  lemma {:induction false} SubNoOpen(s: string, q: nat, replace: string -> Result<string>)
    requires q <= |s|
    requires forall i :: q <= i < |s| ==> s[i] != '{'
    ensures SubFrom(s, q, replace) == Ok(s[q..])
    decreases |s| - q
  {
    if q < |s| {
      SubNoOpen(s, q + 1, replace);
      assert [s[q]] + s[q + 1..] == s[q..];
    }
  }

  /** Text without a closing brace before an opening brace at `a` is copied
      up to `a`. */
  lemma {:induction false} SubLeft(s: string, p: nat, a: nat, replace: string -> Result<string>)
    requires p <= a < |s| && s[a] == '{'
    requires forall i :: p <= i < a ==> s[i] != '}'
    ensures SubFrom(s, p, replace) == Prepend(s[p..a], SubFrom(s, a, replace))
    decreases a - p
  {
    if p == a {
      assert s[p..a] == [];
      assert forall t: string :: [] + t == t;
    } else {
      assert !GroupAt(s, p) by {
        if s[p] == '{' {
          var k := NextBrace(s, p + 1);
          assert k <= a;
        }
      }
      SubLeft(s, p + 1, a, replace);
      PrependTwice([s[p]], s[p + 1..a], SubFrom(s, a, replace));
      assert [s[p]] + s[p + 1..a] == s[p..a];
    }
  }

  /** Text with neither an opening nor a closing brace. */
  predicate BraceFree(s: string) {
    '{' !in s && '}' !in s
  }

  lemma OneGroupText(L: string, y: string, R: string)
    requires BraceFree(y)
    ensures var s := L + "{" + y + "}" + R;
      var a := |L|;
      && FlatGroup(s, a, a + |y| + 2)
      && s[..a] == L && s[a + 1..a + |y| + 1] == y && s[a + |y| + 2..] == R
  {
    var s := L + "{" + y + "}" + R;
    var a := |L|;
    assert forall k :: a < k < a + |y| + 1 ==> s[k] == y[k - a - 1] && s[k] in y;
  }

  /** A pass over text with one flat group, whose left has no closing
      brace and whose right has no opening brace, replaces that group by
      what `replace` makes of its inner text, or fails with it. The value is
      put in as it is: a brace in it is not looked at again in this pass. */
  lemma PassOneGroup(L: string, y: string, R: string, replace: string -> Result<string>)
    requires '}' !in L && '{' !in R
    requires BraceFree(y)
    ensures Pass(L + "{" + y + "}" + R, replace) ==
      if replace(y).Err? then replace(y) else Ok(L + replace(y).value + R)
  {
    var s := L + "{" + y + "}" + R;
    var a := |L|;
    var b := a + |y| + 2;
    assert GroupAt(s, a) && GroupEnd(s, a) == b && s[a + 1..b - 1] == y by {
      OneGroupText(L, y, R);
      FlatGroupAt(s, a, b);
    }
    assert SubFrom(s, 0, replace) == Prepend(L, SubFrom(s, a, replace)) by {
      OneGroupText(L, y, R);
      SubLeft(s, 0, a, replace);
    }
    assert SubFrom(s, b, replace) == Ok(R) by {
      OneGroupText(L, y, R);
      SubNoOpen(s, b, replace);
    }
    match replace(y)
    case Err(f) =>
    case Ok(v) =>
      assert L + (v + R) == L + v + R;
  }

  /** Text without an opening brace is left as it is by a pass. */
  lemma PassNoOpen(s: string, replace: string -> Result<string>)
    requires '{' !in s
    ensures Pass(s, replace) == Ok(s)
  {
    SubNoOpen(s, 0, replace);
  }

  // The depth of `DEPTH` passes.

  /** `k` opening `{posargs:` prefixes. */
  function Opens(k: nat): string {
    if k == 0 then "" else Opens(k - 1) + "{posargs:"
  }

  /** `k` closing braces. */
  function Closes(k: nat): string {
    if k == 0 then "" else "}" + Closes(k - 1)
  }

  /** `x` as the default of `k` nested `posargs` placeholders. */
  function Nest(k: nat, x: string): string {
    Opens(k) + x + Closes(k)
  }

  lemma {:induction false} OpensCloses(k: nat)
    ensures '}' !in Opens(k) && '{' !in Closes(k)
  {
    if k > 0 {
      OpensCloses(k - 1);
    }
  }

  /** Text a `posargs` default can be left as it is: no brace, no colon, and
      no whitespace at either end. */
  predicate Leaf(x: string) {
    && BraceFree(x) && ':' !in x
    && (x == [] || (!IsSpace(x[0]) && !IsSpace(x[|x| - 1])))
  }

  lemma NestStep(k: nat, x: string)
    requires BraceFree(x)
    ensures Nest(k + 1, x) == Opens(k) + "{" + ("posargs:" + x) + "}" + Closes(k)
    ensures '}' !in Opens(k) && '{' !in Closes(k) && BraceFree("posargs:" + x)
  {
    OpensCloses(k);
    assert BraceFree("posargs:");
  }

  /** A pass resolves the innermost of nested placeholders, and only that
      one, when `replace` resolves it to its default. */
  lemma PeelPass(k: nat, x: string, replace: string -> Result<string>)
    requires Leaf(x) && replace("posargs:" + x) == Ok(x)
    ensures Pass(Nest(k + 1, x), replace) == Ok(Nest(k, x))
  {
    var y := "posargs:" + x;
    NestStep(k, x);
    PassOneGroup(Opens(k), y, Closes(k), replace);
  }

  /** `n` passes peel `n` levels of nesting. */
  lemma {:induction false} PassesNest(k: nat, n: nat, x: string, replace: string -> Result<string>)
    requires n <= k
    requires Leaf(x) && replace("posargs:" + x) == Ok(x)
    ensures Passes(Nest(k, x), n, replace) == Ok(Nest(k - n, x))
  {
    if n > 0 {
      PeelPass(k - 1, x, replace);
      PassesNest(k - 1, n - 1, x, replace);
    }
  }

  /** Without positional arguments, `_replace_match` resolves `posargs:x`
      to `x`. */
  lemma ReplacerLeaf(x: string, env: Env, environ: map<string, string>)
    requires Leaf(x) && Join(PositionalArgs(env.options), " ") == ""
    requires "posargs:" + x !in env.attrs
    ensures Replacer(env, environ)("posargs:" + x) == Ok(x)
  {
    MatchPosargs(x, env, environ);
    LStripKeeps(x);
  }

  /** `k` passes resolve `k` nested placeholders. */
  lemma NestResolved(k: nat, x: string, replace: string -> Result<string>)
    requires Leaf(x) && replace("posargs:" + x) == Ok(x)
    ensures Passes(Nest(k, x), k, replace) == Ok(x)
  {
    PassesNest(k, k, x, replace);
    assert Nest(0, x) == x;
  }

  /** `k` passes leave the outermost of `k + 1` nested placeholders. */
  lemma NestOneLeft(k: nat, x: string, replace: string -> Result<string>)
    requires Leaf(x) && replace("posargs:" + x) == Ok(x)
    ensures Passes(Nest(k + 1, x), k, replace) == Ok("{posargs:" + x + "}")
  {
    assert Passes(Nest(k + 1, x), k, replace) == Ok(Nest(1, x)) by {
      PassesNest(k + 1, k, x, replace);
    }
    assert Nest(1, x) == "{posargs:" + x + "}" by {
      assert Opens(1) == "{posargs:" && Closes(1) == "}";
    }
  }

  /** `replace_braces` resolves placeholders nested `DEPTH` deep, and leaves
      one level unresolved, braces and all, when they are nested one deeper. */
  lemma DepthCap(x: string, env: Env, environ: map<string, string>)
    requires Leaf(x) && Join(PositionalArgs(env.options), " ") == ""
    requires "posargs:" + x !in env.attrs
    ensures ReplaceBracesOf(Nest(DEPTH, x), env, environ) == Ok(x)
    ensures ReplaceBracesOf(Nest(DEPTH + 1, x), env, environ) == Ok("{posargs:" + x + "}")
  {
    ReplacerLeaf(x, env, environ);
    NestResolved(DEPTH, x, Replacer(env, environ));
    NestOneLeft(DEPTH, x, Replacer(env, environ));
  }

  // The documented call of `replace_braces`.

  const Echo := "echo "
  const PosargsColon := "posargs:"
  const PassedNone := " passed no posargs"

  /** `echo {posargs:{env:USER:} passed no posargs}`. */
  const Documented := Echo + "{" + PosargsColon + "{" + "env:USER:" + "}" + PassedNone + "}"

  /** A pass that succeeds hands its result to the remaining passes. */
  lemma PassesStep(s: string, t: string, n: nat, replace: string -> Result<string>)
    requires n > 0 && Pass(s, replace) == Ok(t)
    ensures Passes(s, n, replace) == Passes(t, n - 1, replace)
  {
  }

  lemma DocumentedShape()
    ensures Documented == (Echo + "{" + PosargsColon) + "{" + "env:USER:" + "}" + (PassedNone + "}")
    ensures '}' !in Echo + "{" + PosargsColon && '{' !in PassedNone + "}" && BraceFree("env:USER:")
  {
  }

  /** The first pass resolves the inner `{env:USER:}`. */
  lemma DocumentedFirst(s: string, u: string, replace: string -> Result<string>)
    requires s == Documented
    requires replace("env:USER:") == Ok(u)
    ensures Pass(s, replace) == Ok((Echo + "{" + PosargsColon) + u + (PassedNone + "}"))
  {
    DocumentedShape();
    PassOneGroup(Echo + "{" + PosargsColon, "env:USER:", PassedNone + "}", replace);
  }

  lemma SecondShape(u: string)
    ensures (Echo + "{" + PosargsColon) + u + (PassedNone + "}") == Echo + "{" + (PosargsColon + u + PassedNone) + "}" + ""
    ensures BraceFree(u) ==> BraceFree(PosargsColon + u + PassedNone)
    ensures '}' !in Echo
  {
  }

  /** The second pass resolves the `posargs` placeholder around the result. */
  lemma DocumentedSecond(u: string, v: string, replace: string -> Result<string>)
    requires BraceFree(u)
    requires replace(PosargsColon + u + PassedNone) == Ok(v)
    ensures Pass((Echo + "{" + PosargsColon) + u + (PassedNone + "}"), replace) == Ok(Echo + v)
  {
    SecondShape(u);
    PassOneGroup(Echo, PosargsColon + u + PassedNone, "", replace);
    assert Echo + v + "" == Echo + v;
  }

  /** The documented call, for any callback: `{env:USER:}` is resolved in
      the first pass, the `posargs` placeholder around the result in the
      second, and the remaining passes change nothing. */
  lemma DocumentedPasses(s: string, u: string, v: string, replace: string -> Result<string>)
    requires s == Documented
    requires BraceFree(u)
    requires '{' !in v
    requires replace("env:USER:") == Ok(u)
    requires replace(PosargsColon + u + PassedNone) == Ok(v)
    ensures Passes(s, DEPTH, replace) == Ok(Echo + v)
  {
    var s1 := (Echo + "{" + PosargsColon) + u + (PassedNone + "}");
    var s2 := Echo + v;
    DocumentedFirst(s, u, replace);
    PassesStep(s, s1, DEPTH, replace);
    DocumentedSecond(u, v, replace);
    PassesStep(s1, s2, DEPTH - 1, replace);
    assert '{' !in Echo;
    PassNoOpen(s2, replace);
    PassesFixed(s2, DEPTH - 2, replace);
  }

  /** `{env:USER:}` is the user name, or nothing when `USER` is not set. */
  lemma ReplacerUser(env: Env, environ: map<string, string>)
    requires "env:USER:" !in env.attrs
    ensures Replacer(env, environ)("env:USER:") ==
      Ok(if "USER" in environ then environ["USER"] else "")
  {
    assert "env:USER:" == "env:" + "USER" + ":" + "";
    MatchEnvDefault("USER", "", env, environ);
  }

  /** With no positional arguments, `posargs:` falls back to its default,
      stripped on the left. */
  lemma ReplacerDefault(d: string, env: Env, environ: map<string, string>)
    requires ':' !in d && d != [] && !IsSpace(d[|d| - 1])
    requires Join(PositionalArgs(env.options), " ") == ""
    requires "posargs:" + d !in env.attrs
    ensures Replacer(env, environ)("posargs:" + d) == Ok(LStrip(d))
  {
    MatchPosargs(d, env, environ);
  }

  /** With no positional arguments, the `posargs` placeholder of the
      documented call falls back to its default. */
  lemma ReplacerUserDefault(u: string, env: Env, environ: map<string, string>)
    requires Leaf(u) && u != []
    requires Join(PositionalArgs(env.options), " ") == ""
    requires PosargsColon + u + PassedNone !in env.attrs
    ensures Replacer(env, environ)(PosargsColon + u + PassedNone) == Ok(u + PassedNone)
  {
    var v := u + PassedNone;
    assert PosargsColon + u + PassedNone == "posargs:" + v;
    assert ':' !in v && v[|v| - 1] == 's';
    ReplacerDefault(v, env, environ);
    LStripKeeps(v);
  }

  /** The documented call for a user name `u` without braces, colons or
      whitespace at its ends, and no positional arguments: the result is
      `echo `, the name, and ` passed no posargs`. */
  lemma DocumentedUser(s: string, u: string, env: Env, environ: map<string, string>)
    requires s == Documented
    requires Leaf(u) && u != []
    requires "USER" in environ && environ["USER"] == u
    requires Join(PositionalArgs(env.options), " ") == ""
    requires "env:USER:" !in env.attrs && PosargsColon + u + PassedNone !in env.attrs
    ensures ReplaceBracesOf(s, env, environ) == Ok(Echo + (u + PassedNone))
  {
    ReplacerUser(env, environ);
    ReplacerUserDefault(u, env, environ);
    assert '{' !in u + PassedNone;
    DocumentedPasses(s, u, u + PassedNone, Replacer(env, environ));
  }

  /** With no positional arguments, a default that opens with one blank
      comes back without it. */
  lemma ReplacerBlankDefault(d: string, env: Env, environ: map<string, string>)
    requires ':' !in d && |d| >= 2 && d[0] == ' ' && !IsSpace(d[1]) && !IsSpace(d[|d| - 1])
    requires Join(PositionalArgs(env.options), " ") == ""
    requires "posargs:" + d !in env.attrs
    ensures Replacer(env, environ)("posargs:" + d) == Ok(d[1..])
  {
    ReplacerDefault(d, env, environ);
    LStripOneBlank(d);
  }

  lemma PassedNoneText()
    ensures ':' !in PassedNone && |PassedNone| >= 2 && PassedNone[0] == ' '
    ensures !IsSpace(PassedNone[1]) && !IsSpace(PassedNone[|PassedNone| - 1])
    ensures '{' !in PassedNone && PosargsColon + "" + PassedNone == "posargs:" + PassedNone
  {
  }

  lemma NoUserText()
    ensures Echo + PassedNone[1..] == "echo passed no posargs"
  {
  }

  /** The documented call when `USER` is unset or empty, the fallback the
      docstring names: `{env:USER:}` becomes nothing, and the `\s*:\s*`
      split of `posargs: passed no posargs` eats the blank after the colon,
      so one blank is left after `echo`. */
  lemma DocumentedNoUser(s: string, env: Env, environ: map<string, string>)
    requires s == Documented
    requires "USER" !in environ || environ["USER"] == ""
    requires Join(PositionalArgs(env.options), " ") == ""
    requires "env:USER:" !in env.attrs && PosargsColon + PassedNone !in env.attrs
    ensures ReplaceBracesOf(s, env, environ) == Ok("echo passed no posargs")
  {
    ReplacerUser(env, environ);
    PassedNoneText();
    assert PosargsColon + "" + PassedNone == PosargsColon + PassedNone;
    ReplacerBlankDefault(PassedNone, env, environ);
    assert '{' !in PassedNone[1..] && BraceFree("");
    DocumentedPasses(s, "", PassedNone[1..], Replacer(env, environ));
    NoUserText();
  }

  /** For the user `andy`, the documented `echo andy passed no posargs`. */
  lemma DocumentedAndy(s: string, env: Env, environ: map<string, string>)
    requires s == Documented
    requires "USER" in environ && environ["USER"] == "andy"
    requires Join(PositionalArgs(env.options), " ") == ""
    requires "env:USER:" !in env.attrs && PosargsColon + "andy" + PassedNone !in env.attrs
    ensures ReplaceBracesOf(s, env, environ) == Ok(Echo + ("andy" + PassedNone))
  {
    DocumentedUser(s, "andy", env, environ);
  }
}
