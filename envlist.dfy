/** The envlist of a tox.ini (`parse_envlist`, `bash_expand` and
    `_split_out_of_braces`): the string is cut at the commas that lie outside
    brace groups, and each piece is brace-expanded. */
module EnvList {
  import opened Text
  import opened Scan
  import opened BraceExpand
  import opened Wrappers

  /** One match of the alternation `{[^{}]*}|\s*,\s*`. */
  datatype Hit = GroupHit(start: nat, end: nat) | SepHit(start: nat, end: nat)

  /** Hits in `s`, each inside `[from, |s|]`, in order and without overlap. */
  ghost predicate Ordered(s: string, hits: seq<Hit>, from: nat) {
    && from <= |s|
    && (forall k :: 0 <= k < |hits| ==> from <= hits[k].start < hits[k].end <= |s|)
    && (forall i, j :: 0 <= i < j < |hits| ==> hits[i].end <= hits[j].start)
  }

  /** `re.finditer(r"{[^{}]*}|\s*,\s*", s[p..])`: at each position the group
      alternative is tried first, then the separator; the scan resumes at
      the end of each match. */
  function Hits(s: string, p: nat): (hits: seq<Hit>)
    requires p <= |s|
    ensures Ordered(s, hits, p)
    decreases |s| - p
  {
    if p == |s| then []
    else if GroupAt(s, p) then [GroupHit(p, GroupEnd(s, p))] + Hits(s, GroupEnd(s, p))
    else if SepAt(s, ',', p) then [SepHit(p, SepEnd(s, ',', p))] + Hits(s, SepEnd(s, ',', p))
    else Hits(s, p + 1)
  }

  /** The hit is a match of its alternative: a flat group, or a separator
      `\s*,\s*` matched greedily. */
  predicate IsMatch(s: string, h: Hit) {
    match h
    case GroupHit(a, b) => FlatGroup(s, a, b)
    case SepHit(a, b) => a <= |s| && SepAt(s, ',', a) && b == SepEnd(s, ',', a)
  }

  lemma {:induction false} HitsMatch(s: string, p: nat)
    requires p <= |s|
    ensures forall h :: h in Hits(s, p) ==> IsMatch(s, h)
    decreases |s| - p
  {
    if p < |s| {
      if GroupAt(s, p) {
        var e := GroupEnd(s, p);
        assert Hits(s, p) == [GroupHit(p, e)] + Hits(s, e);
        HitsMatch(s, e);
      } else if SepAt(s, ',', p) {
        var e := SepEnd(s, ',', p);
        assert Hits(s, p) == [SepHit(p, e)] + Hits(s, e);
        HitsMatch(s, e);
      } else {
        HitsMatch(s, p + 1);
      }
    }
  }

  /** A piece is yielded only when it is not empty. */
  function Keep(part: string): (r: seq<string>)
    ensures "" !in r
  {
    if part == "" then [] else [part]
  }

  /** The pieces the generator yields from the hits `hits`, the previous
      separator having ended at `prev`. */
  function SegmentsFrom(s: string, hits: seq<Hit>, prev: nat): (parts: seq<string>)
    requires Ordered(s, hits, prev)
    ensures "" !in parts
    decreases |hits|
  {
    if hits == [] then Keep(s[prev..])
    else if hits[0].SepHit? then Keep(s[prev..hits[0].start]) + SegmentsFrom(s, hits[1..], hits[0].end)
    else SegmentsFrom(s, hits[1..], prev)
  }

  /** One hit consumed: a separator closes the pending piece, a group does not. */
  lemma SegmentsFromStep(s: string, hits: seq<Hit>, prev: nat)
    requires Ordered(s, hits, prev) && hits != []
    ensures var m := hits[0];
      var prev' := if m.SepHit? then m.end else prev;
      && prev <= m.start
      && Ordered(s, hits[1..], prev')
      && SegmentsFrom(s, hits, prev) ==
         (if m.SepHit? then Keep(s[prev..m.start]) else []) + SegmentsFrom(s, hits[1..], prev')
  {
  }

  /** `list(_split_out_of_braces(s))`. */
  function Segments(s: string): (parts: seq<string>)
    ensures "" !in parts
  {
    SegmentsFrom(s, Hits(s, 0), 0)
  }

  /** The generator as a loop over the matches, keeping the end of the last
      separator in `prev`. */
  method SplitOutOfBraces(s: string) returns (parts: seq<string>)
    ensures parts == Segments(s)
    ensures "" !in parts
  {
    var rest := Hits(s, 0);
    var prev: nat := 0;
    parts := [];
    while rest != []
      invariant Ordered(s, rest, prev)
      invariant parts + SegmentsFrom(s, rest, prev) == Segments(s)
      decreases |rest|
    {
      SegmentsFromStep(s, rest, prev);
      var m := rest[0];
      if m.SepHit? {
        var part := s[prev..m.start];
        if part != "" {
          parts := parts + [part];
        }
        prev := m.end;
      }
      rest := rest[1..];
    }
    var part := s[prev..];
    if part != "" {
      parts := parts + [part];
    }
  }

  /** `bash_expand(s)`: every piece expanded, the expansions one after another. */
  function BashExpand(s: string): seq<string> {
    var parts := Segments(s);
    Flatten(seq(|parts|, i requires 0 <= i < |parts| => ExpandCurlys(parts[i])))
  }

  /** A string that is one piece expands as that piece. */
  lemma BashExpandOne(s: string)
    requires Segments(s) == [s]
    ensures BashExpand(s) == ExpandCurlys(s)
  {
    var xss := seq(1, i requires 0 <= i < 1 => ExpandCurlys([s][i]));
    assert xss == [ExpandCurlys(s)];
  }

  /** `parse_envlist(s)`. */
  function ParseEnvlist(s: string): seq<string> {
    BashExpand(s)
  }

  // ---------------------------------------------------------------------
  // The group matches of the combined scan are those of the group scan.

  function GroupSpans(hits: seq<Hit>): seq<Span> {
    if hits == [] then []
    else if hits[0].GroupHit? then [Span(hits[0].start, hits[0].end)] + GroupSpans(hits[1..])
    else GroupSpans(hits[1..])
  }

  /** A separator match holds no brace, so it cannot hide the start of a
      group: the combined scan finds the same groups as `expand_curlys`. */
  lemma {:induction false} HitsGroups(s: string, p: nat)
    requires p <= |s|
    ensures GroupSpans(Hits(s, p)) == FindGroups(s, p)
    decreases |s| - p
  {
    if p < |s| {
      if GroupAt(s, p) {
        var e := GroupEnd(s, p);
        assert Hits(s, p) == [GroupHit(p, e)] + Hits(s, e);
        HitsGroups(s, e);
      } else if SepAt(s, ',', p) {
        var e := SepEnd(s, ',', p);
        assert Hits(s, p) == [SepHit(p, e)] + Hits(s, e);
        SepNoBrace(s, p);
        FindGroupsSkip(s, p, e);
        HitsGroups(s, e);
      } else {
        assert Hits(s, p) == Hits(s, p + 1);
        HitsGroups(s, p + 1);
      }
    }
  }

  /** A separator match holds no `{`. */
  lemma SepNoBrace(s: string, p: nat)
    requires p < |s| && SepAt(s, ',', p)
    ensures forall q :: p <= q < SepEnd(s, ',', p) ==> s[q] != '{'
  {
    var c := SkipSpaces(s, p);
    var e := SepEnd(s, ',', p);
    forall q | p <= q < e ensures s[q] != '{' {
      if q > c {
        assert q < SkipSpaces(s, c + 1);
      }
    }
  }

  // ---------------------------------------------------------------------
  // Commas inside a group never split.

  lemma {:induction false} SegmentsNoSep(s: string, hits: seq<Hit>, prev: nat)
    requires Ordered(s, hits, prev)
    requires forall k :: 0 <= k < |hits| ==> hits[k].GroupHit?
    ensures SegmentsFrom(s, hits, prev) == Keep(s[prev..])
    decreases |hits|
  {
    if hits != [] {
      SegmentsNoSep(s, hits[1..], prev);
    }
  }

  lemma {:induction false} GroupSpansIn(hits: seq<Hit>, g: Span)
    requires g in GroupSpans(hits)
    ensures exists k :: 0 <= k < |hits| && hits[k] == GroupHit(g.start, g.end)
    decreases |hits|
  {
    if hits[0].GroupHit? && g == Span(hits[0].start, hits[0].end) {
      assert hits[0] == GroupHit(g.start, g.end);
    } else {
      GroupSpansIn(hits[1..], g);
      var k :| 0 <= k < |hits[1..]| && hits[1..][k] == GroupHit(g.start, g.end);
      assert hits[k + 1] == GroupHit(g.start, g.end);
    }
  }

  /** A comma inside a flat group never splits: no separator match of the
      combined scan overlaps a flat group of `s`, wherever the other
      commas are. */
  lemma SepOutsideGroups(s: string, a: nat, b: nat, h: Hit)
    requires FlatGroup(s, a, b)
    requires h in Hits(s, 0) && h.SepHit?
    ensures h.end <= a || b <= h.start
  {
    var hits := Hits(s, 0);
    FindGroupsExact(s, 0, a, b);
    HitsGroups(s, 0);
    GroupSpansIn(hits, Span(a, b));
    var i :| 0 <= i < |hits| && hits[i] == GroupHit(a, b);
    var j :| 0 <= j < |hits| && hits[j] == h;
    assert i != j;
  }

  /** Every comma of `s` lies inside one of its brace groups. */
  ghost predicate CommasInGroups(s: string) {
    forall c :: 0 <= c < |s| && s[c] == ',' ==>
      exists g :: g in FindGroups(s, 0) && g.start < c < g.end
  }

  /** When every comma is inside a group, `_split_out_of_braces` does not
      split at all: it yields `s` alone, or nothing for the empty string. */
  lemma SegmentsWhole(s: string)
    requires CommasInGroups(s)
    ensures Segments(s) == if s == "" then [] else [s]
  {
    var hits := Hits(s, 0);
    HitsGroups(s, 0);
    HitsMatch(s, 0);
    forall k | 0 <= k < |hits| ensures hits[k].GroupHit? {
      if hits[k].SepHit? {
        assert hits[k] in hits && IsMatch(s, hits[k]);
        var c := SkipSpaces(s, hits[k].start);
        assert s[c] == ',';
        var g :| g in FindGroups(s, 0) && g.start < c < g.end;
        GroupSpansIn(hits, g);
        assert false;
      }
    }
    SegmentsNoSep(s, hits, 0);
    assert s[0..] == s;
  }

  // ---------------------------------------------------------------------
  // Without braces the generator is the plain comma split.

  lemma SkipSpacesShift(s: string, p: nat, q: nat)
    requires p + q <= |s|
    ensures SkipSpaces(s[p..], q) == SkipSpaces(s, p + q) - p
  {
    SkipSpacesIs(s[p..], q, SkipSpaces(s, p + q) - p);
  }

  lemma SepAtShift(s: string, x: char, p: nat, q: nat)
    requires p + q <= |s|
    ensures SepAt(s[p..], x, q) <==> SepAt(s, x, p + q)
    ensures SepAt(s, x, p + q) ==> SepEnd(s[p..], x, q) == SepEnd(s, x, p + q) - p
  {
    SkipSpacesShift(s, p, q);
    var c := SkipSpaces(s, p + q);
    if c < |s| {
      SkipSpacesShift(s, p, c + 1 - p);
    }
  }

  /** On a string without `{` the combined scan only meets separators. */
  lemma {:induction false} HitsNoBrace(s: string, q: nat)
    requires q <= |s|
    requires '{' !in s
    ensures Hits(s, q) == match SepSearch(s, ',', q)
                          case None => []
                          case Some(a) => [SepHit(a, SepEnd(s, ',', a))] + Hits(s, SepEnd(s, ',', a))
    decreases |s| - q
  {
    if q < |s| {
      assert !GroupAt(s, q);
      if !SepAt(s, ',', q) {
        HitsNoBrace(s, q + 1);
      }
    }
  }

  lemma SearchSuffix(s: string, x: char, prev: nat, a: nat)
    requires prev <= |s|
    requires SepSearch(s, x, prev) == Some(a)
    ensures prev <= a <= |s| && SepAt(s, x, a)
    ensures SepSearch(s[prev..], x, 0) == Some(a - prev)
    ensures SepEnd(s[prev..], x, a - prev) == SepEnd(s, x, a) - prev
  {
    SepSearchLeftmost(s, x, prev);
    forall q | 0 <= q < a - prev
      ensures !SepAt(s[prev..], x, q)
    {
      SepAtShift(s, x, prev, q);
    }
    SepAtShift(s, x, prev, a - prev);
    SepSearchIs(s[prev..], x, 0, a - prev);
  }

  lemma SearchSuffixNone(s: string, x: char, prev: nat)
    requires prev <= |s|
    requires SepSearch(s, x, prev) == None
    ensures SepSearch(s[prev..], x, 0) == None
  {
    SepSearchLeftmost(s, x, prev);
    forall q | 0 <= q <= |s| - prev
      ensures !SepAt(s[prev..], x, q)
    {
      SepAtShift(s, x, prev, q);
    }
    SepSearchNoneIs(s[prev..], x, 0);
  }

  /** Splitting the suffix from `prev` at the first separator match. */
  lemma ReSplitFrom(s: string, x: char, prev: nat, a: nat)
    requires prev <= |s|
    requires SepSearch(s, x, prev) == Some(a)
    ensures prev <= a <= |s| && SepAt(s, x, a)
    ensures ReSplit(s[prev..], x) == [s[prev..a]] + ReSplit(s[SepEnd(s, x, a)..], x)
  {
    var t := s[prev..];
    var e := SepEnd(s, x, a);
    SearchSuffix(s, x, prev, a);
    SuffixSlices(s, prev, a, e);
    ReSplitSome(t, x, a - prev);
    assert t[SepEnd(t, x, a - prev)..] == s[e..];
  }

  lemma SuffixSlices(s: string, prev: nat, a: nat, e: nat)
    requires prev <= a <= e <= |s|
    ensures s[prev..][..a - prev] == s[prev..a]
    ensures s[prev..][e - prev..] == s[e..]
  {
  }

  lemma {:induction false} SegmentsSplitFrom(s: string, prev: nat)
    requires prev <= |s|
    requires '{' !in s
    ensures SegmentsFrom(s, Hits(s, prev), prev) == NonEmpty(ReSplit(s[prev..], ','))
    decreases |s| - prev
  {
    HitsNoBrace(s, prev);
    match SepSearch(s, ',', prev)
    case None =>
      SearchSuffixNone(s, ',', prev);
    case Some(a) =>
      var e := SepEnd(s, ',', a);
      ReSplitFrom(s, ',', prev, a);
      NonEmptyCons(s[prev..a], ReSplit(s[e..], ','));
      SegmentsSplitFrom(s, e);
  }

  /** Without braces, `_split_out_of_braces(s)` is `s.split(",")` with the
      whitespace next to each comma removed and the empty pieces dropped. */
  lemma SegmentsSplit(s: string)
    requires '{' !in s
    ensures Segments(s) == NonEmpty(TrimFields(SplitChar(s, ','), true))
  {
    SegmentsSplitFrom(s, 0);
    assert s[0..] == s;
    ReSplitFields(s, ',');
  }
}
