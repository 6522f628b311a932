/** Worked examples from the documentation of the substitution functions,
    each stated for every string that spells the example. */
module Samples {
  import opened Text
  import opened Scan
  import opened BraceExpand
  import opened EnvList
  import opened Factors

  // "py{26, 27}": one group at 2..10 whose comma is followed by a blank.

  lemma CurlySampleGroups(s: string)
    requires Spells(s, "py{26, 27}")
    ensures FlatGroup(s, 2, 10) && FindGroups(s, 0) == [Span(2, 10)]
  {
    FindGroupsSkip(s, 0, 2);
    FlatGroupAt(s, 2, 10);
    assert FindGroups(s, 10) == [];
  }

  lemma CurlySampleInside(s: string)
    requires Spells(s, "py{26, 27}")
    ensures s[3..9] == "26" + [','] + " 27"
  {
    SliceIs(s, 3, "26" + [','] + " 27");
  }

  lemma CurlySampleAlternatives(s: string)
    requires Spells(s, "py{26, 27}")
    ensures FlatGroup(s, 2, 10) && Alternatives(s, Span(2, 10)) == ["26", "27"]
  {
    FlatGroupAt(s, 2, 10);
    CurlySampleInside(s);
    GroupFields(s, Span(2, 10), "26", " 27");
    RStripKeeps("26");
    LStripOneBlank(" 27");
  }

  // The names glued from the pieces, kept apart so that the proofs that use
  // them do not reason about the literals themselves.
  lemma PyNames()
    ensures "py" + "26" + "" == "py26" && "py" + "27" + "" == "py27"
  {
  }

  /** `expand_curlys("py{26, 27}")` is `["py26", "py27"]`: the whitespace
      after the comma is dropped. */
  lemma ExpandCurlySample(s: string)
    requires Spells(s, "py{26, 27}")
    ensures ExpandCurlys(s) == ["py26", "py27"]
  {
    CurlySampleGroups(s);
    CurlySampleAlternatives(s);
    ExpandOnePair(s, Span(2, 10), "26", "27");
    SliceIs(s, 0, "py");
    assert s[10..] == "";
    PyNames();
  }


  /** A stretch of ordinary characters holds no match. */
  lemma {:induction false} HitsPlain(s: string, p: nat, q: nat)
    requires p <= q <= |s|
    requires forall r :: p <= r < q ==> !IsSpace(s[r]) && s[r] != ',' && s[r] != '{'
    ensures Hits(s, p) == Hits(s, q)
    decreases q - p
  {
    if p < q {
      assert SkipSpaces(s, p) == p;
      HitsPlain(s, p + 1, q);
    }
  }

  lemma SegmentsOf(s: string, hits: seq<Hit>)
    requires Hits(s, 0) == hits
    ensures Ordered(s, hits, 0)
    ensures Segments(s) == SegmentsFrom(s, hits, 0)
  {
  }

  /** Up to the only separator, the groups are skipped over. */
  lemma {:induction false} SegmentsOneSep(s: string, hits: seq<Hit>, k: nat)
    requires Ordered(s, hits, 0)
    requires k < |hits| && hits[k].SepHit?
    requires forall i :: 0 <= i < |hits| && i != k ==> hits[i].GroupHit?
    ensures SegmentsFrom(s, hits, 0) == Keep(s[..hits[k].start]) + SegmentsFrom(s, hits[k + 1..], hits[k].end)
    decreases k
  {
    if k > 0 {
      SegmentsOneSep(s, hits[1..], k - 1);
      assert hits[1..][k - 1 + 1..] == hits[k + 1..];
    }
  }

  /** Two pieces expand one after the other. */
  lemma BashExpandTwo(s: string, a: string, b: string)
    requires Segments(s) == [a, b]
    ensures BashExpand(s) == ExpandCurlys(a) + ExpandCurlys(b)
  {
    var parts := Segments(s);
    var xss := seq(|parts|, i requires 0 <= i < |parts| => ExpandCurlys(parts[i]));
    assert xss == [ExpandCurlys(a), ExpandCurlys(b)];
    assert xss[1..] == [ExpandCurlys(b)];
  }

  // "{py26,py27}-django{15,16}, py32": groups at 0..11 and 18..25, the
  // separator ", " at 25..27.

  lemma EnvlistTail(s: string)
    requires Spells(s, "{py26,py27}-django{15,16}, py32")
    ensures Hits(s, 25) == [SepHit(25, 27)]
  {
    HitsPlain(s, 27, 31);
    assert SkipSpaces(s, 26) == 27;
  }

  lemma EnvlistDjango(s: string)
    requires Spells(s, "{py26,py27}-django{15,16}, py32")
    ensures Hits(s, 11) == Hits(s, 18)
  {
    HitsPlain(s, 11, 18);
  }

  lemma EnvlistSecondGroup(s: string)
    requires Spells(s, "{py26,py27}-django{15,16}, py32")
    ensures Hits(s, 18) == [GroupHit(18, 25)] + Hits(s, 25)
  {
    FlatGroupAt(s, 18, 25);
  }

  lemma EnvlistMiddle(s: string)
    requires Spells(s, "{py26,py27}-django{15,16}, py32")
    ensures Hits(s, 11) == [GroupHit(18, 25), SepHit(25, 27)]
  {
    EnvlistTail(s);
    EnvlistDjango(s);
    EnvlistSecondGroup(s);
  }

  lemma EnvlistHits(s: string)
    requires Spells(s, "{py26,py27}-django{15,16}, py32")
    ensures Hits(s, 0) == [GroupHit(0, 11), GroupHit(18, 25), SepHit(25, 27)]
  {
    EnvlistMiddle(s);
    FlatGroupAt(s, 0, 11);
  }

  /** The comma inside `{py26,py27}` does not split; the one after the
      second group does, and the blank after it is dropped. */
  lemma EnvlistSegments(s: string)
    requires Spells(s, "{py26,py27}-django{15,16}, py32")
    ensures |s| == 31 && Segments(s) == [s[..25], s[27..]]
    ensures Spells(s[..25], "{py26,py27}-django{15,16}") && Spells(s[27..], "py32")
  {
    EnvlistHits(s);
    var hits := [GroupHit(0, 11), GroupHit(18, 25), SepHit(25, 27)];
    SegmentsOf(s, hits);
    SegmentsOneSep(s, hits, 2);
    assert hits[3..] == [];
  }

  lemma FactorGroups(s: string)
    requires Spells(s, "{py26,py27}-django{15,16}")
    ensures FindGroups(s, 0) == [Span(0, 11), Span(18, 25)]
  {
    FindGroupsSkip(s, 11, 18);
    FlatGroupAt(s, 18, 25);
    assert FindGroups(s, 25) == [];
    FlatGroupAt(s, 0, 11);
  }

  lemma FactorLeft(s: string)
    requires Spells(s, "{py26,py27}-django{15,16}")
    ensures FlatGroup(s, 0, 11) && Alternatives(s, Span(0, 11)) == ["py26", "py27"]
  {
    SliceIs(s, 1, "py26" + [','] + "py27");
    GroupPair(s, Span(0, 11), "py26", "py27");
  }

  lemma FactorRight(s: string)
    requires Spells(s, "{py26,py27}-django{15,16}")
    ensures FlatGroup(s, 18, 25) && Alternatives(s, Span(18, 25)) == ["15", "16"]
  {
    SliceIs(s, 19, "15" + [','] + "16");
    GroupPair(s, Span(18, 25), "15", "16");
  }

  lemma FactorMiddle(s: string)
    requires Spells(s, "{py26,py27}-django{15,16}")
    ensures s[11..18] == "-django"
  {
    SliceIs(s, 11, "-django");
  }

  // The names glued from the pieces, kept apart as `PyNames` is.
  lemma DjangoNames()
    ensures "py26" + "-django" + "15" == "py26-django15" && "py26" + "-django" + "16" == "py26-django16"
    ensures "py27" + "-django" + "15" == "py27-django15" && "py27" + "-django" + "16" == "py27-django16"
  {
  }

  /** The two groups multiply out with the rightmost varying fastest. */
  lemma FactorExpand(s: string)
    requires Spells(s, "{py26,py27}-django{15,16}")
    ensures ExpandCurlys(s) == ["py26-django15", "py26-django16", "py27-django15", "py27-django16"]
  {
    FactorGroups(s);
    FactorLeft(s);
    FactorRight(s);
    FactorMiddle(s);
    ExpandTwoPairs(s, Span(0, 11), Span(18, 25), "py26", "py27", "15", "16", "-django");
    DjangoNames();
  }

  lemma PlainExpand(s: string)
    requires Spells(s, "py32")
    ensures ExpandCurlys(s) == ["py32"]
  {
    SpellsIff(s, "py32");
    ExpandPlain(s);
  }

  /** `parse_envlist("{py26,py27}-django{15,16}, py32")` is
      `["py26-django15", "py26-django16", "py27-django15", "py27-django16", "py32"]`. */
  lemma ParseEnvlistSample(s: string)
    requires Spells(s, "{py26,py27}-django{15,16}, py32")
    ensures ParseEnvlist(s) == ["py26-django15", "py26-django16", "py27-django15", "py27-django16", "py32"]
  {
    EnvlistSegments(s);
    BashExpandTwo(s, s[..25], s[27..]);
    FactorExpand(s[..25]);
    PlainExpand(s[27..]);
  }

  /** The empty envlist expands to nothing. */
  lemma ParseEnvlistEmpty()
    ensures ParseEnvlist("") == []
  {
    assert Segments("") == [];
  }

  // "py{33,34}: docformatter": the labels "py{33,34}" (a group at 2..9),
  // the colon at 9 and the value from 11 on.

  lemma LabelGroups(s: string)
    requires Spells(s, "py{33,34}")
    ensures FlatGroup(s, 2, 9) && FindGroups(s, 0) == [Span(2, 9)]
  {
    FindGroupsSkip(s, 0, 2);
    FlatGroupAt(s, 2, 9);
    assert FindGroups(s, 9) == [];
  }

  lemma LabelSegments(s: string)
    requires Spells(s, "py{33,34}")
    ensures Segments(s) == [s]
  {
    LabelGroups(s);
    assert forall c :: 0 <= c < |s| && s[c] == ',' ==> c == 5;
    assert Span(2, 9) in FindGroups(s, 0);
    SegmentsWhole(s);
  }

  // The labels glued from the pieces, kept apart as `PyNames` is.
  lemma LabelNames()
    ensures "py" + "33" + "" == "py33" && "py" + "34" + "" == "py34"
  {
  }

  lemma LabelExpand(s: string)
    requires Spells(s, "py{33,34}")
    ensures BashExpand(s) == ["py33", "py34"]
  {
    LabelGroups(s);
    SliceIs(s, 3, "33" + [','] + "34");
    GroupPair(s, Span(2, 9), "33", "34");
    ExpandOnePair(s, Span(2, 9), "33", "34");
    SliceIs(s, 0, "py");
    assert s[9..] == "";
    LabelNames();
    LabelSegments(s);
    BashExpandOne(s);
  }

  lemma DocformatterColon(s: string)
    requires Spells(s, "py{33,34}: docformatter")
    ensures IndexOf(s, ':', 0) == 9 && OneColon(s)
  {
    assert forall k :: 0 <= k < 9 ==> s[k] != ':';
    assert s[9] == ':';
    assert forall k :: 10 <= k < |s| ==> s[k] != ':';
  }

  lemma DocformatterLabels(s: string)
    requires Spells(s, "py{33,34}: docformatter")
    ensures RStrip(s[..9]) == s[..9] && Spells(s[..9], "py{33,34}")
  {
    assert s[8] == '}';
    RStripKeeps(s[..9]);
  }

  lemma DocformatterValue(s: string)
    requires Spells(s, "py{33,34}: docformatter")
    ensures LStrip(s[10..]) == s[11..] && Spells(s[11..], "docformatter")
  {
    LStripOneBlank(s[10..]);
  }

  /** A name without `-` is a single factor. */
  lemma SingleFactor(name: string)
    requires '-' !in name
    ensures SplitChar(name, '-') == [name]
  {
  }

  lemma LabelsMatch(l: string)
    requires Spells(l, "py{33,34}")
    ensures Matches(l, "py34") && !Matches(l, "py26")
  {
    LabelExpand(l);
    SingleFactor("py34");
    SingleFactor("py26");
    assert "py34" in BashExpand(l) && "py34" in SplitChar("py34", '-');
  }

  /** `expand_factor_conditions('py{33,34}: docformatter', env)` is
      `"docformatter"` for the environment `py34` and `""` for `py26`. */
  lemma FactorConditionsSample(s: string)
    requires Spells(s, "py{33,34}: docformatter")
    ensures ExpandFactorConditions(s, "py34") == "docformatter"
    ensures ExpandFactorConditions(s, "py26") == ""
  {
    DocformatterColon(s);
    DocformatterLabels(s);
    DocformatterValue(s);
    var l := s[..9];
    assert |l| == 9 && l != "env";
    LabelsMatch(l);
    SpellsIff(s[11..], "docformatter");
    FactorConditions(s, "py34");
    FactorConditions(s, "py26");
  }
}
