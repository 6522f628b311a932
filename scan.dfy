/** Hand-written scanners for the two regular expressions the engine scans
    with: the flat brace group `{[^{}]*}` (found leftmost-first and without
    overlap, as `re.finditer` and `re.sub` do) and the separator `\s*X\s*`
    used by `re.split` with `X` a comma or a colon. */
module Scan {
  import opened Text
  import opened Wrappers

  /** A match `s[start..end]`. */
  datatype Span = Span(start: nat, end: nat)

  predicate IsBrace(c: char) {
    c == '{' || c == '}'
  }

  /** The regex `{[^{}]*}` matches exactly `s[a..b]`. */
  predicate FlatGroup(s: string, a: nat, b: nat) {
    && a + 2 <= b <= |s|
    && s[a] == '{' && s[b - 1] == '}'
    && forall k :: a < k < b - 1 ==> !IsBrace(s[k])
  }

  /** The first brace at or after `i`, or `|s|`. */
  function NextBrace(s: string, i: nat): (k: nat)
    requires i <= |s|
    ensures i <= k <= |s|
    ensures forall j :: i <= j < k ==> !IsBrace(s[j])
    ensures k < |s| ==> IsBrace(s[k])
    decreases |s| - i
  {
    if i == |s| || IsBrace(s[i]) then i else NextBrace(s, i + 1)
  }

  /** A flat group starts at `p`: an opening brace whose next brace closes. */
  predicate GroupAt(s: string, p: nat) {
    && p < |s| && s[p] == '{'
    && NextBrace(s, p + 1) < |s| && s[NextBrace(s, p + 1)] == '}'
  }

  /** Where the flat group starting at `p` ends. */
  function GroupEnd(s: string, p: nat): (e: nat)
    requires GroupAt(s, p)
    ensures FlatGroup(s, p, e)
  {
    NextBrace(s, p + 1) + 1
  }

  /** A flat group starting at `a` is the one `GroupAt` and `GroupEnd` find. */
  lemma FlatGroupAt(s: string, a: nat, b: nat)
    requires FlatGroup(s, a, b)
    ensures GroupAt(s, a) && GroupEnd(s, a) == b
  {
  }

  /** `re.finditer(r"{[^{}]*}", s[p..])`: the flat groups from `p` on, in
      order, scanning leftmost-first and resuming after each match. */
  function FindGroups(s: string, p: nat): (gs: seq<Span>)
    requires p <= |s|
    ensures forall i :: 0 <= i < |gs| ==> p <= gs[i].start && FlatGroup(s, gs[i].start, gs[i].end)
    ensures forall i, j :: 0 <= i < j < |gs| ==> gs[i].end <= gs[j].start
    decreases |s| - p
  {
    if p == |s| then []
    else if GroupAt(s, p) then [Span(p, GroupEnd(s, p))] + FindGroups(s, GroupEnd(s, p))
    else FindGroups(s, p + 1)
  }

  /** The scan misses no flat group that starts at or after `p`. */
  lemma {:induction false} FindGroupsComplete(s: string, p: nat, a: nat, b: nat)
    requires p <= a && FlatGroup(s, a, b)
    ensures Span(a, b) in FindGroups(s, p)
    decreases |s| - p
  {
    FlatGroupAt(s, a, b);
    if p < a {
      if GroupAt(s, p) {
        var e := GroupEnd(s, p);
        assert e <= a by {
          if a < e {
            assert p < a < e - 1 && IsBrace(s[a]);
          }
        }
        FindGroupsComplete(s, e, a, b);
      } else {
        FindGroupsComplete(s, p + 1, a, b);
      }
    }
  }

  /** The scan lists exactly the flat groups that start at or after `p`
      (flat groups can never overlap one another). */
  lemma FindGroupsExact(s: string, p: nat, a: nat, b: nat)
    requires p <= |s|
    ensures Span(a, b) in FindGroups(s, p) <==> p <= a && FlatGroup(s, a, b)
  {
    var gs := FindGroups(s, p);
    if Span(a, b) in gs {
      var i :| 0 <= i < |gs| && gs[i] == Span(a, b);
    }
    if p <= a && FlatGroup(s, a, b) {
      FindGroupsComplete(s, p, a, b);
    }
  }

  /** No part of `s` matches `{[^{}]*}`. */
  ghost predicate NoFlatGroup(s: string) {
    forall a: nat, b: nat :: !FlatGroup(s, a, b)
  }

  lemma NoFlatGroupScan(s: string)
    ensures FindGroups(s, 0) == [] <==> NoFlatGroup(s)
  {
    var gs := FindGroups(s, 0);
    if gs != [] {
      assert FlatGroup(s, gs[0].start, gs[0].end);
    } else {
      forall a: nat, b: nat ensures !FlatGroup(s, a, b) {
        FindGroupsExact(s, 0, a, b);
      }
    }
  }

  /** The regex `\s*x\s*` matches starting at `p`. */
  predicate SepAt(s: string, x: char, p: nat)
    requires p <= |s|
  {
    var q := SkipSpaces(s, p);
    q < |s| && s[q] == x
  }

  /** Where the greedy match of `\s*x\s*` starting at `p` ends. */
  function SepEnd(s: string, x: char, p: nat): (e: nat)
    requires p <= |s| && SepAt(s, x, p)
    ensures p < e <= |s|
  {
    SkipSpaces(s, SkipSpaces(s, p) + 1)
  }

  /** The leftmost match of `\s*x\s*` at or after `p`. */
  function SepSearch(s: string, x: char, p: nat): (r: Option<nat>)
    requires p <= |s|
    ensures r.Some? ==> p <= r.value <= |s| && SepAt(s, x, r.value)
    decreases |s| - p
  {
    if SepAt(s, x, p) then Some(p)
    else if p == |s| then None
    else SepSearch(s, x, p + 1)
  }

  /** The search result is the first match from `i` on. */
  lemma {:induction false} SepSearchIs(t: string, x: char, i: nat, a: nat)
    requires i <= a <= |t| && SepAt(t, x, a)
    requires forall q :: i <= q < a ==> !SepAt(t, x, q)
    ensures SepSearch(t, x, i) == Some(a)
    decreases a - i
  {
    if i < a {
      SepSearchIs(t, x, i + 1, a);
    }
  }

  /** The search fails when nothing from `i` on matches. */
  lemma {:induction false} SepSearchNoneIs(t: string, x: char, i: nat)
    requires i <= |t|
    requires forall q :: i <= q <= |t| ==> !SepAt(t, x, q)
    ensures SepSearch(t, x, i) == None
    decreases |t| - i
  {
    if i < |t| {
      SepSearchNoneIs(t, x, i + 1);
    }
  }

  /** Nothing matches between `p` and the match found, nor anywhere from `p`
      on when the search fails. */
  lemma {:induction false} SepSearchLeftmost(s: string, x: char, p: nat)
    requires p <= |s|
    ensures var r := SepSearch(s, x, p);
      forall q :: p <= q <= |s| && (r.None? || q < r.value) ==> !SepAt(s, x, q)
    decreases |s| - p
  {
    if !SepAt(s, x, p) && p < |s| {
      SepSearchLeftmost(s, x, p + 1);
    }
  }

  /** `re.split(r"\s*x\s*", s)`. The pattern has no anchors or look-behind,
      so resuming the scan on the rest of the string is the same as resuming
      it at the end of the match. */
  function ReSplit(s: string, x: char): (r: seq<string>)
    ensures |r| >= 1
    decreases |s|
  {
    match SepSearch(s, x, 0)
    case None => [s]
    case Some(a) => [s[..a]] + ReSplit(s[SepEnd(s, x, a)..], x)
  }

  /** `re.split` cuts at the first match and goes on after it. */
  lemma ReSplitSome(t: string, x: char, a: nat)
    requires SepSearch(t, x, 0) == Some(a)
    ensures ReSplit(t, x) == [t[..a]] + ReSplit(t[SepEnd(t, x, a)..], x)
  {
  }

  lemma SkipSpacesIs(s: string, i: nat, j: nat)
    requires i <= j <= |s|
    requires forall k :: i <= k < j ==> IsSpace(s[k])
    requires j == |s| || !IsSpace(s[j])
    ensures SkipSpaces(s, i) == j
  {
  }

  lemma SpacesBeforeIs(s: string, i: nat, j: nat)
    requires i <= j <= |s|
    requires forall k :: i <= k < j ==> IsSpace(s[k])
    requires i == 0 || !IsSpace(s[i - 1])
    ensures SpacesBefore(s, j) == i
  {
  }

  /** The leftmost separator match begins with the whitespace run in front of
      the first `x`, or at `p` when that run starts before `p`. */
  lemma SepSearchFirst(s: string, x: char, p: nat)
    requires !IsSpace(x)
    requires p <= |s|
    ensures var c := IndexOf(s, x, p);
      SepSearch(s, x, p) == if c == |s| then None
                            else Some(if SpacesBefore(s, c) <= p then p else SpacesBefore(s, c))
  {
    var c := IndexOf(s, x, p);
    if c < |s| {
      var a := if SpacesBefore(s, c) <= p then p else SpacesBefore(s, c);
      SkipSpacesIs(s, a, c);
      assert SepAt(s, x, a);
      assert forall q :: p <= q < a ==> !SepAt(s, x, q);
      SepSearchIs(s, x, p, a);
    }
  }

  /** The fields of `s.split(x)` with the whitespace next to each separator
      removed: leading whitespace goes from every field but the first (when
      `first` holds), trailing whitespace from every field but the last. */
  function TrimFields(fs: seq<string>, first: bool): (r: seq<string>)
    requires |fs| >= 1
    ensures |r| == |fs|
    decreases |fs|
  {
    var f := if first then fs[0] else LStrip(fs[0]);
    if |fs| == 1 then [f] else [RStrip(f)] + TrimFields(fs[1..], false)
  }

  lemma RStripPrefix(t: string, j: nat)
    requires j <= |t|
    ensures RStrip(t[..j]) == t[..SpacesBefore(t, j)]
  {
    SpacesBeforeIs(t[..j], SpacesBefore(t, j), j);
  }

  lemma LStripSuffix(t: string, i: nat)
    requires i <= |t|
    ensures LStrip(t[i..]) == t[SkipSpaces(t, i)..]
  {
    SkipSpacesIs(t[i..], 0, SkipSpaces(t, i) - i);
  }

  lemma SkipSpacesPrefix(s: string, c: nat)
    requires c <= |s| && SkipSpaces(s, 0) <= c
    ensures SkipSpaces(s[..c], 0) == SkipSpaces(s, 0)
  {
    SkipSpacesIs(s[..c], 0, SkipSpaces(s, 0));
  }

  lemma IndexOfSuffix(s: string, x: char, L: nat)
    requires L <= IndexOf(s, x, 0)
    ensures IndexOf(s[L..], x, 0) == IndexOf(s, x, 0) - L
  {
  }

  /** One step of the split: the first field is what precedes the first `x`,
      right-stripped, and the scan resumes after the whitespace following it. */
  lemma ReSplitStep(t: string, x: char)
    requires !IsSpace(x)
    requires IndexOf(t, x, 0) < |t|
    ensures var c := IndexOf(t, x, 0);
      ReSplit(t, x) == [RStrip(t[..c])] + ReSplit(LStrip(t[c + 1..]), x)
  {
    var c := IndexOf(t, x, 0);
    var a := SpacesBefore(t, c);
    var e := SkipSpaces(t, c + 1);
    assert SepSearch(t, x, 0) == Some(a) by {
      SepSearchFirst(t, x, 0);
    }
    assert SepEnd(t, x, a) == e by {
      SkipSpacesIs(t, a, c);
    }
    assert t[..a] == RStrip(t[..c]) by {
      RStripPrefix(t, c);
    }
    assert t[e..] == LStrip(t[c + 1..]) by {
      LStripSuffix(t, c + 1);
    }
    ReSplitSome(t, x, a);
  }

  lemma ReSplitNone(t: string, x: char)
    requires !IsSpace(x)
    requires IndexOf(t, x, 0) == |t|
    ensures ReSplit(t, x) == [t]
  {
    SepSearchFirst(t, x, 0);
  }

  lemma TrimFieldsStep(fs: seq<string>, first: bool)
    requires |fs| >= 2
    ensures TrimFields(fs, first) == [RStrip(if first then fs[0] else LStrip(fs[0]))] + TrimFields(fs[1..], false)
  {
  }

  /** Left-stripping `s` (when not `first`) and cutting at its first `x`
      gives the same first field as cutting first and stripping after. */
  lemma TrimHead(s: string, x: char, first: bool)
    requires !IsSpace(x)
    requires IndexOf(s, x, 0) < |s|
    ensures var c := IndexOf(s, x, 0);
      var L := if first then 0 else SkipSpaces(s, 0);
      && L <= c
      && (if first then s[..c] else LStrip(s[..c])) == s[L..][..c - L]
      && s[L..][c - L + 1..] == s[c + 1..]
  {
    var c := IndexOf(s, x, 0);
    if !first {
      SkipSpacesPrefix(s, c);
    }
  }

  lemma {:induction false} ReSplitTrim(s: string, x: char, first: bool)
    requires !IsSpace(x)
    ensures ReSplit(if first then s else LStrip(s), x) == TrimFields(SplitChar(s, x), first)
    decreases |s|
  {
    var L := if first then 0 else SkipSpaces(s, 0);
    var t := s[L..];
    assert t == if first then s else LStrip(s);
    var c := IndexOf(s, x, 0);
    IndexOfSuffix(s, x, L);
    if c < |s| {
      TrimHead(s, x, first);
      ReSplitStep(t, x);
      ReSplitTrim(s[c + 1..], x, false);
      SplitCharStep(s, x);
      TrimFieldsStep(SplitChar(s, x), first);
      assert SplitChar(s, x)[0] == s[..c] && SplitChar(s, x)[1..] == SplitChar(s[c + 1..], x);
    } else {
      ReSplitNone(t, x);
      assert SplitChar(s, x) == [s];
    }
  }

  /** `re.split(r"\s*x\s*", s)` is `s.split(x)` with the whitespace around
      each separator dropped; whitespace anywhere else is kept. */
  lemma ReSplitFields(s: string, x: char)
    requires !IsSpace(x)
    ensures ReSplit(s, x) == TrimFields(SplitChar(s, x), true)
  {
    ReSplitTrim(s, x, true);
  }

  /** Two fields around one separator lose the whitespace next to it. */
  lemma ReSplitPair(u: string, v: string, x: char)
    requires !IsSpace(x)
    requires x !in u && x !in v
    ensures ReSplit(u + [x] + v, x) == [RStrip(u), LStrip(v)]
  {
    SplitJoin([u, v], x);
    assert Join([u, v], [x]) == u + [x] + v;
    ReSplitFields(u + [x] + v, x);
    assert [u, v][1..] == [v];
  }
}
