/** Character- and string-level building blocks that mirror the Python
    built-ins the substitution engine relies on: `str.isspace`, `str.strip`,
    `str.split` with a one-character separator, `str.join`, `startswith`,
    `endswith`, and the concatenation `sum(lists, [])`. */
module Text {

  /** Python's `str.isspace()`; the `\s` class of a `str` regex and the
      default `str.strip()` use the same set of characters. The test is split
      at the space character so that ordinary text is ruled out at once. */
  predicate IsSpace(c: char) {
    if c <= ' ' then '\t' <= c <= '\r' || '\U{1c}' <= c
    else '\U{85}' <= c && IsWideSpace(c)
  }

  /** The whitespace characters above the ASCII range. */
  predicate IsWideSpace(c: char) {
    || c == '\U{85}' || c == '\U{a0}' || c == '\U{1680}'
    || ('\U{2000}' <= c <= '\U{200a}')
    || c == '\U{2028}' || c == '\U{2029}' || c == '\U{202f}' || c == '\U{205f}'
    || c == '\U{3000}'
  }

  predicate AllSpace(s: string) {
    forall k :: 0 <= k < |s| ==> IsSpace(s[k])
  }

  /** The end of the run of whitespace that starts at `i`. */
  function SkipSpaces(s: string, i: nat): (j: nat)
    requires i <= |s|
    ensures i <= j <= |s|
    ensures forall k :: i <= k < j ==> IsSpace(s[k])
    ensures j < |s| ==> !IsSpace(s[j])
    decreases |s| - i
  {
    if i == |s| || !IsSpace(s[i]) then i else SkipSpaces(s, i + 1)
  }

  /** The start of the run of whitespace that ends at `j`. */
  function SpacesBefore(s: string, j: nat): (i: nat)
    requires j <= |s|
    ensures i <= j
    ensures forall k :: i <= k < j ==> IsSpace(s[k])
    ensures 0 < i ==> !IsSpace(s[i - 1])
  {
    if j == 0 || !IsSpace(s[j - 1]) then j else SpacesBefore(s, j - 1)
  }

  /** `s.lstrip()`: the suffix of `s` left after dropping leading whitespace. */
  function LStrip(s: string): (r: string)
    ensures |r| <= |s| && r == s[|s| - |r|..]
    ensures AllSpace(s[..|s| - |r|])
    ensures r != [] ==> !IsSpace(r[0])
  {
    s[SkipSpaces(s, 0)..]
  }

  /** `s.rstrip()`: the prefix of `s` left after dropping trailing whitespace. */
  function RStrip(s: string): (r: string)
    ensures |r| <= |s| && r == s[..|r|]
    ensures AllSpace(s[|r|..])
    ensures r != [] ==> !IsSpace(r[|r| - 1])
  {
    s[..SpacesBefore(s, |s|)]
  }

  /** Stripping a string that does not end in whitespace changes nothing. */
  lemma RStripKeeps(s: string)
    requires s == [] || !IsSpace(s[|s| - 1])
    ensures RStrip(s) == s
  {
  }

  /** Stripping a string that does not start with whitespace changes nothing. */
  lemma LStripKeeps(s: string)
    requires s == [] || !IsSpace(s[0])
    ensures LStrip(s) == s
  {
  }

  /** A single leading blank is all that left-stripping drops when the
      character after it is not whitespace. */
  lemma LStripOneBlank(s: string)
    requires |s| >= 2 && s[0] == ' ' && !IsSpace(s[1])
    ensures LStrip(s) == s[1..]
  {
    assert SkipSpaces(s, 1) == 1;
  }

  /** `s.strip()`. */
  function Strip(s: string): string {
    RStrip(LStrip(s))
  }

  /** Stripping twice strips no more than once. */
  lemma StripTwice(s: string)
    ensures Strip(Strip(s)) == Strip(s)
  {
    var u := LStrip(s);
    var r := RStrip(u);
    if r != [] {
      assert r[0] == u[0];
    }
    LStripKeeps(r);
    RStripKeeps(r);
  }

  /** The first index at or after `i` holding `c`, or `|s|` when there is none. */
  function IndexOf(s: string, c: char, i: nat): (k: nat)
    requires i <= |s|
    ensures i <= k <= |s|
    ensures forall j :: i <= j < k ==> s[j] != c
    ensures k < |s| ==> s[k] == c
    decreases |s| - i
  {
    if i == |s| || s[i] == c then i else IndexOf(s, c, i + 1)
  }

  /** The first `c` from `i` on is at `k` when none comes before it. */
  lemma IndexOfIs(s: string, c: char, i: nat, k: nat)
    requires i <= k <= |s|
    requires forall j :: i <= j < k ==> s[j] != c
    requires k == |s| || s[k] == c
    ensures IndexOf(s, c, i) == k
  {
  }

  /** Searching `u + v` from inside a stretch of `u` free of `c` finds the
      first `c` of `v`. */
  lemma IndexOfPast(u: string, v: string, c: char, i: nat)
    requires i <= |u| && c !in u[i..]
    ensures IndexOf(u + v, c, i) == |u| + IndexOf(v, c, 0)
  {
    var s := u + v;
    var m := IndexOf(v, c, 0);
    assert forall j :: i <= j < |u| ==> s[j] == u[i..][j - i];
    assert forall j :: |u| <= j < |u| + m ==> s[j] == v[j - |u|];
    IndexOfIs(s, c, i, |u| + m);
  }

  /** `sep.join(xs)`. */
  function Join(xs: seq<string>, sep: string): string {
    if |xs| == 0 then ""
    else if |xs| == 1 then xs[0]
    else xs[0] + sep + Join(xs[1..], sep)
  }

  /** `s.split(c)` for a one-character separator; never empty. */
  function SplitChar(s: string, c: char): (r: seq<string>)
    ensures |r| >= 1
    decreases |s|
  {
    var k := IndexOf(s, c, 0);
    if k == |s| then [s]
    else [s[..k]] + SplitChar(s[k + 1..], c)
  }

  /** No field of `s.split(c)` holds the separator, and joining the fields
      back with `c` gives `s`. */
  lemma {:induction false} SplitCharJoin(s: string, c: char)
    ensures forall x :: x in SplitChar(s, c) ==> c !in x
    ensures Join(SplitChar(s, c), [c]) == s
    decreases |s|
  {
    var k := IndexOf(s, c, 0);
    if k < |s| {
      var rest := SplitChar(s[k + 1..], c);
      SplitCharJoin(s[k + 1..], c);
      assert SplitChar(s, c) == [s[..k]] + rest;
      assert s == s[..k] + [c] + s[k + 1..];
    }
  }

  /** `s.split(x)` cuts at the first `x`. */
  lemma SplitCharStep(s: string, x: char)
    requires IndexOf(s, x, 0) < |s|
    ensures var c := IndexOf(s, x, 0);
      SplitChar(s, x) == [s[..c]] + SplitChar(s[c + 1..], x)
  {
  }

  /** A first field without the separator is split off whole. */
  lemma SplitCharHead(u: string, v: string, c: char)
    requires c !in u
    ensures SplitChar(u + [c] + v, c) == [u] + SplitChar(v, c)
  {
    var s := u + [c] + v;
    assert IndexOf(s, c, 0) == |u| by {
      assert s == u + ([c] + v) && u[0..] == u;
      IndexOfPast(u, [c] + v, c, 0);
    }
    assert s[..|u|] == u && s[|u| + 1..] == v;
    SplitCharStep(s, c);
  }

  /** Without `x`, `s.split(x)` is `[s]`. */
  lemma SplitCharWhole(s: string, x: char)
    requires IndexOf(s, x, 0) == |s|
    ensures SplitChar(s, x) == [s]
  {
  }

  /** Splitting a join undoes it when no part holds the separator. */
  lemma {:induction false} SplitJoin(xs: seq<string>, c: char)
    requires |xs| >= 1
    requires forall x :: x in xs ==> c !in x
    ensures SplitChar(Join(xs, [c]), c) == xs
  {
    var s := Join(xs, [c]);
    var k := IndexOf(s, c, 0);
    if |xs| == 1 {
      assert c !in xs[0];
      assert k == |s|;
    } else {
      var tail := Join(xs[1..], [c]);
      assert s == xs[0] + [c] + tail;
      assert c !in xs[0];
      assert k == |xs[0]| by {
        assert s[|xs[0]|] == c;
        forall j | 0 <= j < |xs[0]| ensures s[j] != c {
          assert s[j] == xs[0][j];
        }
      }
      assert s[..k] == xs[0];
      assert s[k + 1..] == tail;
      SplitJoin(xs[1..], c);
      assert xs == [xs[0]] + xs[1..];
    }
  }

  predicate StartsWith(s: string, p: string) {
    |p| <= |s| && s[..|p|] == p
  }

  predicate EndsWith(s: string, p: string) {
    |p| <= |s| && s[|s| - |p|..] == p
  }

  /** The non-empty strings of `xs`, in order: the fields of a split with
      the empty ones dropped. */
  function NonEmpty(xs: seq<string>): (r: seq<string>)
    ensures forall x :: x in r ==> x != "" && x in xs
  {
    if xs == [] then []
    else if xs[0] == "" then NonEmpty(xs[1..])
    else [xs[0]] + NonEmpty(xs[1..])
  }

  lemma NonEmptyCons(x: string, xs: seq<string>)
    ensures NonEmpty([x] + xs) == if x == "" then NonEmpty(xs) else [x] + NonEmpty(xs)
  {
    assert ([x] + xs)[1..] == xs;
  }

  /** `sum(xss, [])`: the lists one after another. */
  function Flatten<T>(xss: seq<seq<T>>): (r: seq<T>)
    ensures xss == [] ==> r == []
    ensures |xss| == 1 ==> r == xss[0]
  {
    if xss == [] then [] else xss[0] + Flatten(xss[1..])
  }

  /** `s` holds the characters of `t`, which is the same as `s == t`
      (`SpellsIff`). Worked examples are stated for every `s` that spells
      the sample, so that their proofs reason one character at a time. */
  ghost predicate Spells(s: string, t: string) {
    |s| == |t| && forall k :: 0 <= k < |t| ==> s[k] == t[k]
  }

  lemma SpellsIff(s: string, t: string)
    ensures Spells(s, t) <==> s == t
  {
  }

  /** Adjacent slices concatenate. */
  lemma SliceConcat(s: string, i: nat, j: nat, k: nat)
    requires i <= j <= k <= |s|
    ensures s[i..k] == s[i..j] + s[j..k]
  {
  }

  /** Slicing a suffix is slicing the whole string further on. */
  lemma SliceOfSlice(s: string, p: nat, k: nat)
    requires p + k < |s|
    ensures s[p..][..k] == s[p..p + k] && s[p..][k + 1..] == s[p + k + 1..]
  {
  }

  /** `s[i..i + |t|]` is `t`, checked one character at a time. */
  lemma SliceIs(s: string, i: nat, t: string)
    requires i + |t| <= |s|
    requires forall k :: 0 <= k < |t| ==> s[i + k] == t[k]
    ensures s[i..i + |t|] == t
  {
  }
}
