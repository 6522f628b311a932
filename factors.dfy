/** Factor conditions (`expand_factor_conditions`): a config line of the form
    `labels: value` is kept only for the environments it names. */
module Factors {
  import opened Text
  import opened Scan
  import opened EnvList

  /** `set(bash_expand(labels)) & set(name.split('-'))` is not empty: one of
      the labels the left-hand side expands to is a factor of the name. */
  predicate Matches(labels: string, name: string) {
    exists x :: x in BashExpand(labels) && x in SplitChar(name, '-')
  }

  /** `expand_factor_conditions(s, env)` for an environment called `name`. */
  function ExpandFactorConditions(s: string, name: string): (r: string)
  {
    var e := ReSplit(s, ':');
    if |e| == 2 && e[0] != "env" then
      if Matches(e[0], name) then e[1] else ""
    else s
  }

  /** The line holds exactly one colon. */
  ghost predicate OneColon(s: string) {
    var c := IndexOf(s, ':', 0);
    c < |s| && ':' !in s[c + 1..]
  }

  lemma SplitOneColon(s: string)
    requires OneColon(s)
    ensures var c := IndexOf(s, ':', 0);
      SplitChar(s, ':') == [s[..c], s[c + 1..]]
  {
    var c := IndexOf(s, ':', 0);
    assert IndexOf(s[c + 1..], ':', 0) == |s[c + 1..]|;
  }

  lemma SplitMoreColons(s: string)
    requires IndexOf(s, ':', 0) < |s| && !OneColon(s)
    ensures |SplitChar(s, ':')| >= 3
  {
    var c := IndexOf(s, ':', 0);
    var k :| 0 <= k < |s[c + 1..]| && s[c + 1..][k] == ':';
    assert IndexOf(s[c + 1..], ':', 0) <= k;
  }

  /** `re.split(r"\s*\:\s*", s)` has two fields exactly when the line has
      one colon, and they are then the stripped text around it. */
  lemma ColonFields(s: string)
    ensures var c := IndexOf(s, ':', 0);
      var e := ReSplit(s, ':');
      if OneColon(s) then e == [RStrip(s[..c]), LStrip(s[c + 1..])] else |e| != 2
  {
    var c := IndexOf(s, ':', 0);
    var fs := SplitChar(s, ':');
    ReSplitFields(s, ':');
    if OneColon(s) {
      SplitOneColon(s);
      assert fs[1..] == [s[c + 1..]];
    } else if c < |s| {
      SplitMoreColons(s);
    } else {
      assert fs == [s];
    }
  }

  /** What the function does, read off the colons of the line: a line with
      exactly one colon whose label part is not `env` becomes its value when
      the labels match the name, and the empty string when they do not;
      every other line is returned unchanged. */
  lemma FactorConditions(s: string, name: string)
    ensures var c := IndexOf(s, ':', 0);
      var r := ExpandFactorConditions(s, name);
      if OneColon(s) && RStrip(s[..c]) != "env" then
        r == if Matches(RStrip(s[..c]), name) then LStrip(s[c + 1..]) else ""
      else r == s
  {
    ColonFields(s);
  }

  /** The value part of a line is a suffix of it. */
  lemma ValueSuffix(s: string)
    requires IndexOf(s, ':', 0) < |s|
    ensures EndsWith(s, LStrip(s[IndexOf(s, ':', 0) + 1..]))
  {
    var c := IndexOf(s, ':', 0);
    var j := SkipSpaces(s[c + 1..], 0);
    assert LStrip(s[c + 1..]) == s[c + 1 + j..];
  }

  /** The result is the line itself, the empty string, or a suffix of the
      line. */
  lemma FactorConditionsSuffix(s: string, name: string)
    ensures var r := ExpandFactorConditions(s, name);
      r == s || r == "" || EndsWith(s, r)
  {
    FactorConditions(s, name);
    if OneColon(s) {
      ValueSuffix(s);
    }
  }

  /** A line without a newline stays without one, so filtering the lines of
      a config value one by one keeps the number of lines. */
  lemma FactorConditionsNoNewline(s: string, name: string)
    requires '\n' !in s
    ensures '\n' !in ExpandFactorConditions(s, name)
  {
    FactorConditionsSuffix(s, name);
    var r := ExpandFactorConditions(s, name);
    if r != s && r != "" {
      assert r == s[|s| - |r|..];
      assert forall i :: 0 <= i < |r| ==> r[i] == s[|s| - |r| + i];
    }
  }

  /** A line without a colon is never filtered. */
  lemma FactorConditionsNoColon(s: string, name: string)
    requires ':' !in s
    ensures ExpandFactorConditions(s, name) == s
  {
    FactorConditions(s, name);
  }

  /** The `env:...` form is not a factor condition. */
  lemma FactorConditionsEnv(v: string, name: string)
    requires ':' !in v
    ensures ExpandFactorConditions("env:" + v, name) == "env:" + v
  {
    var s := "env:" + v;
    FactorConditions(s, name);
    assert s[0] != ':' && s[1] != ':' && s[2] != ':' && s[3] == ':';
    assert IndexOf(s, ':', 0) == 3;
    assert s[..3] == "env";
    assert s[4..] == v;
    assert RStrip(s[..3]) == "env";
  }
}
