/** Bash-style brace expansion of one string (`expand_curlys` and
    `_replace_curly`): every flat group `{a,b,c}` stands for its
    comma-separated alternatives, and the result is the cartesian product of
    all groups, built by folding the groups in from the rightmost one. */
module BraceExpand {
  import opened Text
  import opened Scan

  /** The Python slices `e[:k]` and `e[k:]`, which clamp an index past the end. */
  function Head(e: string, k: nat): string {
    if k <= |e| then e[..k] else e
  }

  function Tail(e: string, k: nat): string {
    if k <= |e| then e[k..] else ""
  }

  /** The alternatives of the group `g` of `s`:
      `re.split(r"\s*,\s*", match.group()[1:-1])`. */
  function Alternatives(s: string, g: Span): (alts: seq<string>)
    requires FlatGroup(s, g.start, g.end)
    ensures |alts| >= 1
  {
    ReSplit(s[g.start + 1..g.end - 1], ',')
  }

  /** `e[:start] + m + e[end:]` for every candidate `e`, in order. */
  function Substitute(envlist: seq<string>, m: string, g: Span): (r: seq<string>)
    ensures |r| == |envlist|
  {
    seq(|envlist|, i requires 0 <= i < |envlist| => Head(envlist[i], g.start) + m + Tail(envlist[i], g.end))
  }

  /** The comprehension of `_replace_curly`: alternatives in the outer loop,
      candidates in the inner one. */
  function SubstituteAll(envlist: seq<string>, alts: seq<string>, g: Span): (r: seq<string>)
    ensures |r| == |alts| * |envlist|
  {
    if alts == [] then [] else Substitute(envlist, alts[0], g) + SubstituteAll(envlist, alts[1..], g)
  }

  /** `_replace_curly(envlist, match)` for the match `g` of the original `s`. */
  function ReplaceCurly(envlist: seq<string>, s: string, g: Span): seq<string>
    requires FlatGroup(s, g.start, g.end)
  {
    SubstituteAll(envlist, Alternatives(s, g), g)
  }

  ghost predicate AllGroups(s: string, gs: seq<Span>) {
    forall i :: 0 <= i < |gs| ==> FlatGroup(s, gs[i].start, gs[i].end)
  }

  /** `reduce(_replace_curly, reversed(gs), acc)`. */
  function ExpandFold(s: string, gs: seq<Span>, acc: seq<string>): seq<string>
    requires AllGroups(s, gs)
    decreases |gs|
  {
    if gs == [] then acc
    else ExpandFold(s, gs[..|gs| - 1], ReplaceCurly(acc, s, gs[|gs| - 1]))
  }

  /** `expand_curlys(s)`. */
  function ExpandCurlys(s: string): seq<string> {
    ExpandFold(s, FindGroups(s, 0), [s])
  }

  // ---------------------------------------------------------------------
  // The reference: the product read left to right.

  function PrefixAll(p: string, ts: seq<string>): (r: seq<string>)
    ensures |r| == |ts|
  {
    seq(|ts|, i requires 0 <= i < |ts| => p + ts[i])
  }

  /** Every `p + a + t`, with `a` from `alts` in the outer loop and `t` from
      `tails` in the inner one. */
  function Prefixed(p: string, alts: seq<string>, tails: seq<string>): (r: seq<string>)
    ensures |r| == |alts| * |tails|
  {
    if alts == [] then [] else PrefixAll(p + alts[0], tails) + Prefixed(p, alts[1..], tails)
  }

  /** Groups of `s`, in order, without overlap, none starting before `from`. */
  ghost predicate GroupsFrom(s: string, gs: seq<Span>, from: nat) {
    && from <= |s|
    && AllGroups(s, gs)
    && (forall i :: 0 <= i < |gs| ==> from <= gs[i].start)
    && (forall i, j :: 0 <= i < j < |gs| ==> gs[i].end <= gs[j].start)
  }

  lemma GroupsFromSuffix(s: string, gs: seq<Span>, from: nat, k: nat)
    requires GroupsFrom(s, gs, from)
    requires k < |gs|
    ensures GroupsFrom(s, gs[k..], gs[k].start)
    ensures GroupsFrom(s, gs[k + 1..], gs[k].end)
  {
    assert FlatGroup(s, gs[k].start, gs[k].end);
  }

  /** How many strings the groups `gs` expand to: the product of their
      alternative counts. */
  function Count(s: string, gs: seq<Span>): nat
    requires AllGroups(s, gs)
  {
    if gs == [] then 1 else |Alternatives(s, gs[0])| * Count(s, gs[1..])
  }

  /** The expansion of `s[from..]` read left to right: the text before the
      first group, one of its alternatives, then every expansion of the rest. */
  function Product(s: string, gs: seq<Span>, from: nat): (r: seq<string>)
    requires GroupsFrom(s, gs, from)
    decreases |gs|
  {
    if gs == [] then [s[from..]]
    else Prefixed(s[from..gs[0].start], Alternatives(s, gs[0]), Product(s, gs[1..], gs[0].end))
  }

  lemma PrefixAllTwice(p: string, q: string, ts: seq<string>)
    ensures PrefixAll(p, PrefixAll(q, ts)) == PrefixAll(p + q, ts)
  {
    forall i | 0 <= i < |ts| ensures PrefixAll(p, PrefixAll(q, ts))[i] == PrefixAll(p + q, ts)[i] {
      assert p + (q + ts[i]) == p + q + ts[i];
    }
  }

  lemma PrefixAllConcat(p: string, a: seq<string>, b: seq<string>)
    ensures PrefixAll(p, a + b) == PrefixAll(p, a) + PrefixAll(p, b)
  {
  }

  lemma {:induction false} PrefixAllPrefixed(p: string, q: string, alts: seq<string>, tails: seq<string>)
    ensures PrefixAll(p, Prefixed(q, alts, tails)) == Prefixed(p + q, alts, tails)
  {
    if alts != [] {
      PrefixAllConcat(p, PrefixAll(q + alts[0], tails), Prefixed(q, alts[1..], tails));
      PrefixAllTwice(p, q + alts[0], tails);
      assert p + (q + alts[0]) == p + q + alts[0];
      PrefixAllPrefixed(p, q, alts[1..], tails);
    }
  }

  /** Moving the start of the product forward leaves the skipped text as a
      common prefix. */
  lemma ProductShift(s: string, gs: seq<Span>, from: nat, to: nat)
    requires from <= to
    requires GroupsFrom(s, gs, to)
    ensures Product(s, gs, from) == PrefixAll(s[from..to], Product(s, gs, to))
  {
    if gs == [] {
      ProductShiftEnd(s, from, to);
    } else {
      ProductShiftGroup(s, gs, from, to);
    }
  }

  lemma ProductShiftEnd(s: string, from: nat, to: nat)
    requires from <= to <= |s|
    ensures PrefixAll(s[from..to], [s[to..]]) == [s[from..]]
  {
    assert s[from..] == s[from..to] + s[to..];
  }

  lemma ProductShiftGroup(s: string, gs: seq<Span>, from: nat, to: nat)
    requires from <= to
    requires GroupsFrom(s, gs, to) && gs != []
    ensures Product(s, gs, from) == PrefixAll(s[from..to], Product(s, gs, to))
  {
    var g := gs[0];
    var alts := Alternatives(s, g);
    var rest := Product(s, gs[1..], g.end);
    var a, b := s[from..to], s[to..g.start];
    ProductFirst(s, gs, to);
    GroupsFromEarlier(s, gs, from, to);
    ProductFirst(s, gs, from);
    SliceConcat(s, from, to, g.start);
    PrefixAllPrefixed(a, b, alts, rest);
  }

  /** Groups that lie after `to` also lie after any earlier position. */
  lemma GroupsFromEarlier(s: string, gs: seq<Span>, from: nat, to: nat)
    requires from <= to && GroupsFrom(s, gs, to)
    ensures GroupsFrom(s, gs, from)
  {
  }

  lemma ProductFirst(s: string, gs: seq<Span>, from: nat)
    requires GroupsFrom(s, gs, from) && gs != []
    ensures Product(s, gs, from) ==
      Prefixed(s[from..gs[0].start], Alternatives(s, gs[0]), Product(s, gs[1..], gs[0].end))
  {
  }


  /** Substituting one alternative into candidates that all share the
      original text up to `P` keeps their tails. */
  lemma SubstituteOne(s: string, ts: seq<string>, P: nat, m: string, g: Span)
    requires g.start <= g.end <= P <= |s|
    ensures Substitute(PrefixAll(s[..P], ts), m, g) == PrefixAll(s[..g.start] + m, PrefixAll(s[g.end..P], ts))
  {
    var acc := PrefixAll(s[..P], ts);
    forall i | 0 <= i < |ts|
      ensures Substitute(acc, m, g)[i] == PrefixAll(s[..g.start] + m, PrefixAll(s[g.end..P], ts))[i]
    {
      var e := s[..P] + ts[i];
      assert Head(e, g.start) == s[..g.start];
      assert Tail(e, g.end) == s[g.end..P] + ts[i];
    }
  }

  /** Substituting every alternative gives the left-to-right product. */
  lemma {:induction false} SubstituteGlued(s: string, ts: seq<string>, P: nat, alts: seq<string>, g: Span)
    requires g.start <= g.end <= P <= |s|
    ensures SubstituteAll(PrefixAll(s[..P], ts), alts, g)
         == Prefixed(s[..g.start], alts, PrefixAll(s[g.end..P], ts))
  {
    if alts != [] {
      SubstituteOne(s, ts, P, alts[0], g);
      SubstituteGlued(s, ts, P, alts[1..], g);
    }
  }

  /** One step of the fold: substituting group `g` into candidates that
      already carry the product of the groups `gs` after it. */
  lemma FoldStep(s: string, g: Span, gs: seq<Span>, P: nat)
    requires FlatGroup(s, g.start, g.end)
    requires GroupsFrom(s, [g] + gs, g.start)
    requires GroupsFrom(s, gs, P) && g.end <= P
    ensures ReplaceCurly(PrefixAll(s[..P], Product(s, gs, P)), s, g)
         == PrefixAll(s[..g.start], Product(s, [g] + gs, g.start))
  {
    var alts := Alternatives(s, g);
    var rest := Product(s, gs, g.end);
    ProductShift(s, gs, g.end, P);
    SubstituteGlued(s, Product(s, gs, P), P, alts, g);
    PrefixAllPrefixed(s[..g.start], "", alts, rest);
    assert ([g] + gs)[1..] == gs;
    assert Product(s, [g] + gs, g.start) == Prefixed(s[g.start..g.start], alts, rest);
    assert s[g.start..g.start] == "" && s[..g.start] + "" == s[..g.start];
  }

  /** Where the substituted part of the fold begins once the groups from
      `k` on are done. */
  function FoldPoint(s: string, gs: seq<Span>, k: nat): nat
    requires k <= |gs|
  {
    if k < |gs| then gs[k].start else |s|
  }

  lemma FoldDone(s: string, gs: seq<Span>, acc: seq<string>)
    requires GroupsFrom(s, gs, 0)
    requires GroupsFrom(s, gs, FoldPoint(s, gs, 0))
    requires acc == PrefixAll(s[..FoldPoint(s, gs, 0)], Product(s, gs, FoldPoint(s, gs, 0)))
    ensures acc == Product(s, gs, 0)
  {
    ProductShift(s, gs, 0, FoldPoint(s, gs, 0));
  }

  /** The fold after the groups `gs[k..]` have been substituted. */
  lemma {:induction false} FoldIsProduct(s: string, gs: seq<Span>, k: nat, acc: seq<string>)
    requires GroupsFrom(s, gs, 0)
    requires k <= |gs|
    requires GroupsFrom(s, gs[k..], FoldPoint(s, gs, k))
    requires acc == PrefixAll(s[..FoldPoint(s, gs, k)], Product(s, gs[k..], FoldPoint(s, gs, k)))
    ensures ExpandFold(s, gs[..k], acc) == Product(s, gs, 0)
    decreases k
  {
    if k == 0 {
      assert gs[0..] == gs && gs[..0] == [];
      FoldDone(s, gs, acc);
    } else {
      var g := gs[k - 1];
      GroupsFromSuffix(s, gs, 0, k - 1);
      assert gs[k - 1..] == [g] + gs[k..];
      FoldStep(s, g, gs[k..], FoldPoint(s, gs, k));
      assert gs[..k][..k - 1] == gs[..k - 1];
      FoldIsProduct(s, gs, k - 1, ReplaceCurly(acc, s, g));
    }
  }

  /** `expand_curlys` is the cartesian product of the groups read left to
      right: the text between groups is kept as it is, and the leftmost
      group varies slowest (so the rightmost varies fastest). */
  lemma ExpandIsProduct(s: string)
    ensures GroupsFrom(s, FindGroups(s, 0), 0)
    ensures ExpandCurlys(s) == Product(s, FindGroups(s, 0), 0)
  {
    var gs := FindGroups(s, 0);
    assert gs[..|gs|] == gs && gs[|gs|..] == [];
    assert FoldPoint(s, gs, |gs|) == |s|;
    assert s[|s|..] == "";
    assert Product(s, [], |s|) == [""];
    var acc := PrefixAll(s[..|s|], [""]);
    assert acc[0] == s[..|s|] + "" == s;
    assert acc == [s];
    FoldIsProduct(s, gs, |gs|, [s]);
  }

  /** There are exactly as many expansions as the product of the groups'
      alternative counts. */
  /** The product has one string per choice of one alternative in every group. */
  lemma {:induction false} ProductCount(s: string, gs: seq<Span>, from: nat)
    requires GroupsFrom(s, gs, from)
    ensures |Product(s, gs, from)| == Count(s, gs)
    decreases |gs|
  {
    if gs != [] {
      GroupsFromSuffix(s, gs, from, 0);
      ProductCount(s, gs[1..], gs[0].end);
    }
  }

  lemma ExpandCount(s: string)
    ensures |ExpandCurlys(s)| == Count(s, FindGroups(s, 0))
  {
    ExpandIsProduct(s);
    ProductCount(s, FindGroups(s, 0), 0);
  }

  /** Position `i * |tails| + j` holds alternative `i` followed by tail `j`:
      in a product the alternatives of the leftmost group vary slowest and
      those of the rightmost group fastest. */
  lemma {:induction false} PrefixedAt(p: string, alts: seq<string>, tails: seq<string>, i: nat, j: nat)
    requires i < |alts| && j < |tails|
    ensures i * |tails| + j < |Prefixed(p, alts, tails)|
    ensures Prefixed(p, alts, tails)[i * |tails| + j] == p + alts[i] + tails[j]
  {
    if i > 0 {
      PrefixedAt(p, alts[1..], tails, i - 1, j);
      assert i * |tails| + j == |tails| + ((i - 1) * |tails| + j);
    }
  }

  /** A string without a flat group expands to itself alone. */
  lemma ExpandNoGroup(s: string)
    requires NoFlatGroup(s)
    ensures ExpandCurlys(s) == [s]
  {
    NoFlatGroupScan(s);
  }

  /** An empty group `{}` contributes one empty alternative. */
  lemma ExpandEmptyGroup()
    ensures ExpandCurlys("{}") == [""]
  {
    var s := "{}";
    assert GroupAt(s, 0);
    assert FindGroups(s, 0) == [Span(0, 2)];
    assert ReSplit("", ',') == [""];
  }

  // ---------------------------------------------------------------------
  // Worked examples.

  /** The product of a single group. */
  lemma ProductOne(s: string, g: Span)
    requires FlatGroup(s, g.start, g.end)
    ensures GroupsFrom(s, [g], 0)
    ensures Product(s, [g], 0) == Prefixed(s[..g.start], Alternatives(s, g), [s[g.end..]])
  {
    assert [g][1..] == [];
  }

  /** The product of two groups. */
  lemma ProductTwo(s: string, g: Span, h: Span)
    requires FlatGroup(s, g.start, g.end) && FlatGroup(s, h.start, h.end)
    requires g.end <= h.start
    ensures GroupsFrom(s, [g, h], 0)
    ensures Product(s, [g, h], 0)
         == Prefixed(s[..g.start], Alternatives(s, g), Prefixed(s[g.end..h.start], Alternatives(s, h), [s[h.end..]]))
  {
    assert [g, h][1..] == [h];
    assert [h][1..] == [];
    assert GroupsFrom(s, [h], g.end);
    assert Product(s, [h], g.end) == Prefixed(s[g.end..h.start], Alternatives(s, h), [s[h.end..]]);
    assert s[0..g.start] == s[..g.start];
  }

  /** Two alternatives in front of a single tail. */
  lemma PrefixedPair(p: string, a: string, b: string, t: string)
    ensures Prefixed(p, [a, b], [t]) == [p + a + t, p + b + t]
  {
    assert [a, b][1..] == [b];
    assert [b][1..] == [];
  }

  /** A group holding one comma has two alternatives, the whitespace next to
      the comma dropped. */
  lemma GroupFields(s: string, g: Span, u: string, v: string)
    requires FlatGroup(s, g.start, g.end)
    requires s[g.start + 1..g.end - 1] == u + [','] + v
    requires ',' !in u && ',' !in v
    ensures Alternatives(s, g) == [RStrip(u), LStrip(v)]
  {
    ReSplitPair(u, v, ',');
  }

  /** A group holding two alternatives with no whitespace next to the comma. */
  lemma GroupPair(s: string, g: Span, u: string, v: string)
    requires FlatGroup(s, g.start, g.end)
    requires s[g.start + 1..g.end - 1] == u + [','] + v
    requires ',' !in u && ',' !in v
    requires u == [] || !IsSpace(u[|u| - 1])
    requires v == [] || !IsSpace(v[0])
    ensures Alternatives(s, g) == [u, v]
  {
    GroupFields(s, g, u, v);
    RStripKeeps(u);
    LStripKeeps(v);
  }

  /** A string with a single group of two alternatives expands to two
      candidates, the text around the group kept. */
  lemma ExpandOnePair(s: string, g: Span, a: string, b: string)
    requires FlatGroup(s, g.start, g.end)
    requires FindGroups(s, 0) == [g]
    requires Alternatives(s, g) == [a, b]
    ensures ExpandCurlys(s) == [s[..g.start] + a + s[g.end..], s[..g.start] + b + s[g.end..]]
  {
    ExpandIsProduct(s);
    ProductOne(s, g);
    PrefixedPair(s[..g.start], a, b, s[g.end..]);
  }

  /** A string without `{` expands to itself alone. */
  lemma ExpandPlain(s: string)
    requires '{' !in s
    ensures ExpandCurlys(s) == [s]
  {
    FindGroupsSkip(s, 0, |s|);
  }

  /** Two alternatives times two alternatives around a fixed middle. */
  lemma PrefixedTwoByTwo(mid: string, a1: string, a2: string, b1: string, b2: string)
    ensures Prefixed("", [a1, a2], Prefixed(mid, [b1, b2], [""]))
         == [a1 + mid + b1, a1 + mid + b2, a2 + mid + b1, a2 + mid + b2]
  {
    PrefixedPair(mid, b1, b2, "");
    var tails := Prefixed(mid, [b1, b2], [""]);
    PrefixedPair2("", a1, a2, tails);
    assert "" + a1 + (mid + b1 + "") == a1 + mid + b1;
    assert "" + a1 + (mid + b2 + "") == a1 + mid + b2;
    assert "" + a2 + (mid + b1 + "") == a2 + mid + b1;
    assert "" + a2 + (mid + b2 + "") == a2 + mid + b2;
  }

  /** Two alternatives in front of two tails. */
  lemma PrefixedPair2(p: string, a: string, b: string, tails: seq<string>)
    requires |tails| == 2
    ensures Prefixed(p, [a, b], tails)
         == [p + a + tails[0], p + a + tails[1], p + b + tails[0], p + b + tails[1]]
  {
    assert [a, b][1..] == [b];
    assert [b][1..] == [];
  }

  /** Two groups of two alternatives each, the first at the start of `s` and
      the second at its end: four expansions, the second group varying
      fastest. */
  lemma ExpandTwoPairs(s: string, g: Span, h: Span, a1: string, a2: string, b1: string, b2: string, mid: string)
    requires FlatGroup(s, g.start, g.end) && FlatGroup(s, h.start, h.end) && g.end <= h.start
    requires FindGroups(s, 0) == [g, h]
    requires g.start == 0 && h.end == |s| && s[g.end..h.start] == mid
    requires Alternatives(s, g) == [a1, a2] && Alternatives(s, h) == [b1, b2]
    ensures ExpandCurlys(s) == [a1 + mid + b1, a1 + mid + b2, a2 + mid + b1, a2 + mid + b2]
  {
    ExpandIsProduct(s);
    ProductTwo(s, g, h);
    assert s[..0] == "" && s[|s|..] == "";
    PrefixedTwoByTwo(mid, a1, a2, b1, b2);
  }

  /** No `{` between `p` and `e`: no group starts there. */
  lemma {:induction false} FindGroupsSkip(s: string, p: nat, e: nat)
    requires p <= e <= |s|
    requires forall q :: p <= q < e ==> s[q] != '{'
    ensures FindGroups(s, p) == FindGroups(s, e)
    decreases e - p
  {
    if p < e {
      FindGroupsSkip(s, p + 1, e);
    }
  }
}
