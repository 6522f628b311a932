/** Quote-aware splitting (`split_on` and `_strip_speechmarks`): a command
    line is cut at a separator character except inside quoted spans, and one
    pair of outer quotes is removed from each piece. */
module Quoting {
  import opened Text

  /** The quote marks tried by `_strip_speechmarks`, in the order tried. */
  const Marks: seq<string> := ["'''", "\"\"\"", "'", "\""]

  /** `t.startswith(m) and t.endswith(m)`. */
  predicate Wrapped(t: string, m: string) {
    StartsWith(t, m) && EndsWith(t, m)
  }

  /** `t[n:-n]` for a `t` of at least `n` characters: what lies between the
      first and the last `n` characters, empty when those overlap. */
  function Inner(t: string, n: nat): (r: string)
    requires n <= |t|
    ensures 2 * n <= |t| ==> t == t[..n] + r + t[|t| - n..]
    ensures 2 * n > |t| ==> r == []
  {
    if 2 * n <= |t| then t[n..|t| - n] else []
  }

  /** What `_strip_speechmarks` returns once the marks before `Marks[k]`
      have been found not to wrap `t`. */
  function StripFrom(t: string, k: nat): string
    requires k <= |Marks|
    decreases |Marks| - k
  {
    if k == |Marks| then t
    else if Wrapped(t, Marks[k]) then Inner(t, |Marks[k]|)
    else StripFrom(t, k + 1)
  }

  /** `_strip_speechmarks(t)`: the first mark that both opens and closes `t`
      is removed from each end; `t` is returned as it is when none does. */
  function Unquoted(t: string): string {
    StripFrom(t, 0)
  }

  /** `_strip_speechmarks` as its loop runs: the marks are tried in order
      and the first that wraps `t` ends the loop. */
  method StripSpeechmarks(t: string) returns (r: string)
    ensures r == Unquoted(t)
  {
    for k := 0 to |Marks|
      invariant StripFrom(t, k) == Unquoted(t)
    {
      var sm := Marks[k];
      if StartsWith(t, sm) && EndsWith(t, sm) {
        if 2 * |sm| <= |t| {
          return t[|sm|..|t| - |sm|];
        }
        return [];
      }
    }
    return t;
  }

  /** Text inside triple single quotes comes back whatever it holds. */
  lemma UnquoteTripleSingle(x: string)
    ensures Unquoted("'''" + x + "'''") == x
  {
    var t := "'''" + x + "'''";
    assert t[..3] == "'''" && t[|t| - 3..] == "'''";
    assert t[3..|t| - 3] == x;
  }

  /** Text inside triple double quotes comes back whatever it holds. */
  lemma UnquoteTripleDouble(x: string)
    ensures Unquoted("\"\"\"" + x + "\"\"\"") == x
  {
    var t := "\"\"\"" + x + "\"\"\"";
    assert t[..3] == "\"\"\"" && t[|t| - 3..] == "\"\"\"";
    assert t[0] != '\'';
    assert !Wrapped(t, Marks[0]);
    assert t[3..|t| - 3] == x;
  }

  /** Text without single quotes inside single quotes comes back. */
  lemma UnquoteSingle(x: string)
    requires '\'' !in x
    ensures Unquoted("'" + x + "'") == x
  {
    var t := "'" + x + "'";
    if |x| >= 1 {
      assert t[1] == x[0];
    }
    assert !StartsWith(t, Marks[0]);
    assert t[0] != '"';
    assert !Wrapped(t, Marks[1]);
    assert t[..1] == "'" && t[|t| - 1..] == "'";
    assert t[1..|t| - 1] == x;
  }

  /** Text without double quotes inside double quotes comes back. */
  lemma UnquoteDouble(x: string)
    requires '"' !in x
    ensures Unquoted("\"" + x + "\"") == x
  {
    var t := "\"" + x + "\"";
    if |x| >= 1 {
      assert t[1] == x[0];
    }
    assert t[0] != '\'';
    assert !Wrapped(t, Marks[0]) && !Wrapped(t, Marks[2]);
    assert !StartsWith(t, Marks[1]);
    assert t[..1] == "\"" && t[|t| - 1..] == "\"";
    assert t[1..|t| - 1] == x;
  }

  /** A piece that does not start with a quote is returned unchanged. */
  lemma UnquotePlain(t: string)
    requires t == [] || (t[0] != '\'' && t[0] != '"')
    ensures Unquoted(t) == t
  {
    if t != [] {
      assert forall k :: 0 <= k < |Marks| ==> Marks[k][0] in {'\'', '"'};
      assert !Wrapped(t, Marks[0]) && !Wrapped(t, Marks[1]);
      assert !Wrapped(t, Marks[2]) && !Wrapped(t, Marks[3]);
    }
  }

  /** At most one pair of marks is removed: the result is `t` itself, or
      what is left once the same one or three characters are dropped from
      both ends, or empty when those would overlap. */
  lemma UnquoteShape(t: string)
    ensures var r := Unquoted(t);
      || r == t
      || r == []
      || (exists n :: n in {1, 3} && 2 * n <= |t| && t == t[..n] + r + t[|t| - n..])
  {
    var r := Unquoted(t);
    if r != t && r != [] {
      var k :| 0 <= k < |Marks| && Wrapped(t, Marks[k]) && r == Inner(t, |Marks[k]|) by {
        UnquoteFirst(t, 0);
      }
      assert |Marks[k]| in {1, 3};
    }
  }

  /** The marks are tried in order from `k` on: when none of them wraps
      `t`, `t` comes back as it is; otherwise the first one that wraps it
      is the one removed. */
  lemma {:induction false} UnquoteFirst(t: string, k: nat)
    requires k <= |Marks|
    ensures (forall j :: k <= j < |Marks| ==> !Wrapped(t, Marks[j])) ==> StripFrom(t, k) == t
    ensures forall j ::
      (k <= j < |Marks| && Wrapped(t, Marks[j]) && forall i :: k <= i < j ==> !Wrapped(t, Marks[i]))
      ==> StripFrom(t, k) == Inner(t, |Marks[j]|)
    ensures StripFrom(t, k) == t ||
      exists j :: k <= j < |Marks| && Wrapped(t, Marks[j]) && StripFrom(t, k) == Inner(t, |Marks[j]|)
    decreases |Marks| - k
  {
    if k < |Marks| && !Wrapped(t, Marks[k]) {
      UnquoteFirst(t, k + 1);
    }
  }

  /** A character of the token pattern `[^SEP"']`: neither a quote nor the
      separator. The separator is pasted into the character class, so a
      backslash escapes the quote after it and then excludes nothing. */
  predicate Plain(c: char, sep: char) {
    c != '"' && c != '\'' && (c != sep || sep == '\\')
  }

  /** The length of the unit of `((?:[^SEP"']|"[^"]*"|'[^']*')+)` that starts
      at `p`: one plain character, or a whole quoted span up to the next
      occurrence of its quote; 0 when no unit starts there. */
  function UnitLen(s: string, sep: char, p: nat): (n: nat)
    requires p < |s|
    ensures p + n <= |s|
  {
    if s[p] == '"' || s[p] == '\'' then
      var k := IndexOf(s, s[p], p + 1);
      if k < |s| then k + 1 - p else 0
    else if Plain(s[p], sep) then 1
    else 0
  }

  /** The end of the greedy run of units that starts at `p`. */
  function TokenEnd(s: string, sep: char, p: nat): (e: nat)
    requires p <= |s|
    ensures p <= e <= |s|
    ensures p < |s| && UnitLen(s, sep, p) > 0 ==> p < e
    ensures e < |s| ==> UnitLen(s, sep, e) == 0
    decreases |s| - p
  {
    if p == |s| || UnitLen(s, sep, p) == 0 then p
    else TokenEnd(s, sep, p + UnitLen(s, sep, p))
  }

  /** The matches of the token pattern in `s`, leftmost first: a match is
      a maximal run of units, and where no unit starts the search moves on
      by one character. The pattern looks neither behind nor ahead, so the
      search goes on in what is left after each match. `re.split` with one
      capturing group puts these matches at the odd positions of its
      result. */
  function Tokens(s: string, sep: char): (r: seq<string>)
    ensures "" !in r
    decreases |s|
  {
    if s == [] then []
    else if UnitLen(s, sep, 0) == 0 then Tokens(s[1..], sep)
    else
      var e := TokenEnd(s, sep, 0);
      [s[..e]] + Tokens(s[e..], sep)
  }

  /** `[_strip_speechmarks(t) for t in ts]`. */
  function UnquoteAll(ts: seq<string>): (r: seq<string>)
    ensures |r| == |ts|
  {
    if ts == [] then [] else [Unquoted(ts[0])] + UnquoteAll(ts[1..])
  }

  /** `split_on(s, sep)` for a one-character separator. */
  function SplitOn(s: string, sep: char): seq<string> {
    UnquoteAll(Tokens(s, sep))
  }

  ghost predicate QuoteFree(s: string) {
    '"' !in s && '\'' !in s
  }

  /** Without quotes a run of units ends at the next separator. */
  lemma {:induction false} TokenEndPlain(s: string, sep: char, p: nat)
    requires p <= |s| && QuoteFree(s) && sep != '\\'
    ensures TokenEnd(s, sep, p) == IndexOf(s, sep, p)
    decreases |s| - p
  {
    if p < |s| && s[p] != sep {
      assert s[p] != '"' && s[p] != '\'';
      TokenEndPlain(s, sep, p + 1);
    }
  }

  /** Without quotes, a token runs from a non-separator to the next
      separator, and the scan resumes after that separator. */
  lemma TokensField(s: string, sep: char)
    requires s != [] && QuoteFree(s) && sep != '\\' && s[0] != sep
    ensures var e := IndexOf(s, sep, 0);
      Tokens(s, sep) == [s[..e]] + (if e == |s| then [] else Tokens(s[e + 1..], sep))
  {
    assert s[0] != '"' && s[0] != '\'';
    TokenEndPlain(s, sep, 0);
    var e := IndexOf(s, sep, 0);
    if e < |s| {
      assert s[e..][0] == sep;
      assert s[e..][1..] == s[e + 1..];
    }
  }

  lemma UnquoteAllCons(x: string, xs: seq<string>)
    ensures UnquoteAll([x] + xs) == [Unquoted(x)] + UnquoteAll(xs)
  {
    assert ([x] + xs)[1..] == xs;
  }

  /** Without quotes, the scan is `str.split(sep)` with the empty fields
      dropped, and unquoting changes no token. */
  lemma {:induction false} TokensPlain(s: string, sep: char)
    requires QuoteFree(s) && sep != '\\'
    ensures Tokens(s, sep) == NonEmpty(SplitChar(s, sep))
    ensures UnquoteAll(Tokens(s, sep)) == Tokens(s, sep)
    decreases |s|
  {
    var e := IndexOf(s, sep, 0);
    if s == [] {
    } else if s[0] == sep {
      SplitCharStep(s, sep);
      NonEmptyCons("", SplitChar(s[1..], sep));
      TokensPlain(s[1..], sep);
    } else {
      TokensField(s, sep);
      var x := s[..e];
      UnquotePlain(x);
      if e == |s| {
        SplitCharWhole(s, sep);
        assert x == s;
        assert [x] + [] == [x];
        NonEmptyCons(x, []);
        UnquoteAllCons(x, []);
      } else {
        SplitCharStep(s, sep);
        TokensPlain(s[e + 1..], sep);
        NonEmptyCons(x, SplitChar(s[e + 1..], sep));
        UnquoteAllCons(x, Tokens(s[e + 1..], sep));
      }
    }
  }

  /** On text without quotes, `split_on` is `str.split(sep)` without the
      empty fields: every piece is kept as it is. */
  lemma SplitOnPlain(s: string, sep: char)
    requires QuoteFree(s) && sep != '\\'
    ensures SplitOn(s, sep) == NonEmpty(SplitChar(s, sep))
  {
    TokensPlain(s, sep);
  }

  /** A quote that opens a unit reaches to its next occurrence: the
      token runs at least past that closing quote, whatever separators lie
      between the two. */
  lemma QuotedSpanKept(s: string, sep: char, p: nat, k: nat)
    requires p < k < |s|
    requires s[p] == '"' || s[p] == '\''
    requires s[k] == s[p] && s[p] !in s[p + 1..k]
    ensures UnitLen(s, sep, p) == k + 1 - p
    ensures k < TokenEnd(s, sep, p)
  {
    forall j | p + 1 <= j < k
      ensures s[j] != s[p]
    {
      assert s[j] == s[p + 1..k][j - p - 1];
    }
    IndexOfIs(s, s[p], p + 1, k);
  }

  /** Text between a quote and the same quote is unquoted to itself. */
  lemma UnquoteQuoted(m: char, q: string)
    requires m == '"' || m == '\''
    requires m !in q
    ensures Unquoted([m] + q + [m]) == q
  {
    if m == '"' {
      assert [m] + q + [m] == "\"" + q + "\"";
      UnquoteDouble(q);
    } else {
      assert [m] + q + [m] == "'" + q + "'";
      UnquoteSingle(q);
    }
  }

  /** A quoted piece followed by a separator is one token, whatever
      separators it holds, and `split_on` gives what lies between its
      quotes before going on with the rest. */
  lemma SplitOnQuotedHead(m: char, q: string, sep: char, v: string)
    requires m == '"' || m == '\''
    requires m !in q
    requires sep != '"' && sep != '\'' && sep != '\\'
    ensures Tokens([m] + q + [m] + [sep] + v, sep) == [[m] + q + [m]] + Tokens(v, sep)
    ensures SplitOn([m] + q + [m] + [sep] + v, sep) == [q] + SplitOn(v, sep)
  {
    var w := [m] + q + [m];
    var s := w + [sep] + v;
    assert s[1..|w| - 1] == q && s[|w| - 1] == m;
    QuotedSpanKept(s, sep, 0, |w| - 1);
    assert UnitLen(s, sep, |w|) == 0;
    assert TokenEnd(s, sep, 0) == |w|;
    assert s[..|w|] == w;
    var r := s[|w|..];
    assert r == [sep] + v && r[1..] == v;
    assert Tokens(r, sep) == Tokens(v, sep);
    UnquoteQuoted(m, q);
    UnquoteAllCons(w, Tokens(v, sep));
  }

  /** A quoted piece alone is one token, whatever separators it holds. */
  lemma SplitOnQuoted(m: char, q: string, sep: char)
    requires m == '"' || m == '\''
    requires m !in q
    ensures Tokens([m] + q + [m], sep) == [[m] + q + [m]]
    ensures SplitOn([m] + q + [m], sep) == [q]
  {
    var w := [m] + q + [m];
    assert w[1..|w| - 1] == q && w[|w| - 1] == m;
    QuotedSpanKept(w, sep, 0, |w| - 1);
    assert TokenEnd(w, sep, 0) == |w|;
    assert w[..|w|] == w && w[|w|..] == [];
    UnquoteQuoted(m, q);
    UnquoteAllCons(w, []);
  }

  // `split_on('a "b c" d')`: the blank inside the quotes does not split,
  // and the quotes are removed from the middle piece.

  lemma SampleLast(u: string)
    requires Spells(u, " d")
    ensures Tokens(u, ' ') == [u[1..]] && Spells(u[1..], "d")
  {
    var v := u[1..];
    assert UnitLen(u, ' ', 0) == 0;
    assert UnitLen(v, ' ', 0) == 1;
    assert TokenEnd(v, ' ', 0) == 1;
    assert v[..1] == v && v[1..] == [];
    assert Tokens(v, ' ') == [v] + Tokens([], ' ');
  }

  lemma SampleQuoted(u: string)
    requires Spells(u, "\"b c\" d")
    ensures Tokens(u, ' ') == [u[..5]] + Tokens(u[5..], ' ')
    ensures Spells(u[..5], "\"b c\"") && Spells(u[5..], " d")
  {
    assert u[1] != '"' && u[2] != '"' && u[3] != '"' && u[4] == '"';
    assert IndexOf(u, '"', 1) == 4;
    assert UnitLen(u, ' ', 0) == 5;
    assert UnitLen(u, ' ', 5) == 0;
    assert TokenEnd(u, ' ', 0) == 5;
  }

  lemma SampleFirst(s: string)
    requires Spells(s, "a \"b c\" d")
    ensures Tokens(s, ' ') == [s[..1]] + Tokens(s[2..], ' ')
    ensures Spells(s[..1], "a") && Spells(s[2..], "\"b c\" d")
  {
    assert UnitLen(s, ' ', 0) == 1 && UnitLen(s, ' ', 1) == 0;
    assert TokenEnd(s, ' ', 0) == 1;
    assert s[1..][1..] == s[2..];
  }

  lemma SampleTokens(s: string)
    requires Spells(s, "a \"b c\" d")
    ensures var u := s[2..];
      && Tokens(s, ' ') == [s[..1], u[..5], u[5..][1..]]
      && Spells(s[..1], "a") && Spells(u[..5], "\"b c\"") && Spells(u[5..][1..], "d")
  {
    SampleFirst(s);
    var u := s[2..];
    SampleQuoted(u);
    SampleLast(u[5..]);
  }

  lemma UnquoteAllThree(a: string, q: string, d: string)
    ensures UnquoteAll([a, q, d]) == [Unquoted(a), Unquoted(q), Unquoted(d)]
  {
    UnquoteAllCons(a, [q, d]);
    UnquoteAllCons(q, [d]);
    UnquoteAllCons(d, []);
  }

  lemma SampleQuotes(q: string)
    requires Spells(q, "\"b c\"")
    ensures Unquoted(q) == "b c"
  {
    SpellsIff(q, "\"b c\"");
    assert q == "\"" + "b c" + "\"";
    UnquoteDouble("b c");
  }

  /** `split_on('a "b c" d')` is `["a", "b c", "d"]`. */
  lemma SplitOnSample(s: string)
    requires Spells(s, "a \"b c\" d")
    ensures SplitOn(s, ' ') == ["a", "b c", "d"]
  {
    SampleTokens(s);
    var u := s[2..];
    var a, q, d := s[..1], u[..5], u[5..][1..];
    UnquoteAllThree(a, q, d);
    SampleQuotes(q);
    SpellsIff(a, "a");
    SpellsIff(d, "d");
    UnquotePlain(a);
    UnquotePlain(d);
  }
}
