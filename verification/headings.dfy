/** Heading structure: a page without any `h1`, and the first level skipped
    among the distinct heading levels present. */
module Headings {
  import opened Wrappers
  import opened Dom
  import opened Schemas
  import opened RuleEngine

  const MissingH1Id := "custom-missing-h1"
  const SkippedIdPrefix := "custom-skipped-heading-level-h"

  predicate IsHeading(e: Element) {
    e.name in {"h1", "h2", "h3", "h4", "h5", "h6"}
  }

  /** `int(name[1])` for a heading's tag name. */
  function LevelOf(e: Element): (l: int)
    requires IsHeading(e)
    ensures 1 <= l <= 6
    ensures e.name == "h1" <==> l == 1
  {
    e.name[1] as int - '0' as int
  }

  /** The set of heading levels present anywhere in the document. */
  function Levels(es: seq<Element>): (r: set<int>)
    ensures forall l :: l in r ==> 1 <= l <= 6
  {
    set e | e in es && IsHeading(e) :: LevelOf(e)
  }

  /** A level is present exactly when some element has that heading tag. */
  lemma H1PresentIff(es: seq<Element>)
    ensures 1 in Levels(es) <==> exists k :: 0 <= k < |es| && es[k].name == "h1"
  {
    if exists k :: 0 <= k < |es| && es[k].name == "h1" {
      var k :| 0 <= k < |es| && es[k].name == "h1";
      assert LevelOf(es[k]) == 1;
    }
  }

  /** The levels of `L` from `lo` upwards in ascending order. */
  function SortedFrom(L: set<int>, lo: int): seq<int>
    decreases 7 - lo
  {
    if lo > 6 then [] else (if lo in L then [lo] else []) + SortedFrom(L, lo + 1)
  }

  /** The list from `lo` holds exactly the levels of `L` between `lo` and 6,
      strictly increasing. */
  lemma {:induction false} SortedFromSpec(L: set<int>, lo: int)
    requires lo >= 1
    ensures var r := SortedFrom(L, lo);
            (forall k :: 0 <= k < |r| ==> r[k] in L && lo <= r[k] <= 6)
            && (forall l :: lo <= l <= 6 && l in L ==> l in r)
            && (forall i, j :: 0 <= i < j < |r| ==> r[i] < r[j])
    decreases 7 - lo
  {
    if lo <= 6 {
      SortedFromSpec(L, lo + 1);
      var t := SortedFrom(L, lo + 1);
      var h := if lo in L then [lo] else [];
      assert SortedFrom(L, lo) == h + t;
      forall l | lo <= l <= 6 && l in L
        ensures l in h + t
      {
        if l == lo {
          assert (h + t)[0] == l;
        } else {
          assert l in t;
        }
      }
    }
  }

  /** `sorted(list(found_levels))`: the distinct levels present, ascending. */
  function SortedLevels(es: seq<Element>): (r: seq<int>)
    ensures ListsLevels(r, Levels(es))
  {
    SortedContents(Levels(es));
    SortedFrom(Levels(es), 1)
  }

  /** The scan over consecutive pairs from position `i`, stopping at the first
      pair that differs by more than one. */
  function FirstGap(s: seq<int>, i: nat): (r: Option<nat>)
    ensures r.Some? ==> i <= r.value && r.value + 1 < |s| && s[r.value + 1] - s[r.value] > 1
    ensures r.Some? ==> forall j :: i <= j < r.value ==> s[j + 1] - s[j] <= 1
    ensures r.None? ==> forall j :: i <= j && j + 1 < |s| ==> s[j + 1] - s[j] <= 1
    decreases |s| - i
  {
    if i + 1 >= |s| then None
    else if s[i + 1] - s[i] > 1 then Some(i)
    else FirstGap(s, i + 1)
  }

  function Digit(n: int): string
    requires 0 <= n <= 9
  {
    [('0' as int + n) as char]
  }

  /** `str(soup.find(name))`: the first such element's markup, or "None". */
  function MarkupOfFirst(es: seq<Element>, name: string): string {
    match FirstNamed(es, name)
    case Some(e) => e.markup
    case None => "None"
  }

  const MissingH1Issue := NewIssue(MissingH1Id, Prose(MissingH1Id, "description"), Prose(MissingH1Id, "help"),
                                   Critical, [NewNode(["html"], Some("<html>...</html>"))],
                                   Some(RuleAdvice(MissingH1Id, "")))

  function SkippedIssue(es: seq<Element>, current: int, next: int): Issue
    requires 1 <= current < next <= 6
  {
    var id := SkippedIdPrefix + Digit(current + 1);
    var currentTag, nextTag := "h" + Digit(current), "h" + Digit(next);
    NewIssue(id, Prose(id, "description"), Prose(id, "help"), Moderate,
             [NewNode([currentTag], Some(MarkupOfFirst(es, currentTag))),
              NewNode([nextTag], Some(MarkupOfFirst(es, nextTag)))],
             Some(RuleAdvice(id, "")))
  }

  /** The finding for a page without any `h1`. */
  function MissingPart(es: seq<Element>): seq<Issue> {
    if FirstNamed(es, "h1").None? then [MissingH1Issue] else []
  }

  /** The finding for the first skipped level along the sorted levels `s`. */
  function SkippedPart(es: seq<Element>, s: seq<int>): (r: seq<Issue>)
    requires forall k :: 0 <= k < |s| ==> 1 <= s[k] <= 6
    ensures |r| <= 1 && (r == [] <==> FirstGap(s, 0).None?)
    ensures forall k :: 0 <= k < |r| ==> r[k].severity == Moderate && r[k].id != MissingH1Id
    ensures FirstGap(s, 0).Some? ==> r[0].id == SkippedIdPrefix + Digit(s[FirstGap(s, 0).value] + 1)
    ensures FirstGap(s, 0).Some? ==>
              var g := FirstGap(s, 0).value;
              r[0].nodes == [NewNode(["h" + Digit(s[g])], Some(MarkupOfFirst(es, "h" + Digit(s[g])))),
                             NewNode(["h" + Digit(s[g + 1])], Some(MarkupOfFirst(es, "h" + Digit(s[g + 1]))))]
  {
    match FirstGap(s, 0)
    case None => []
    case Some(g) =>
      var r := [SkippedIssue(es, s[g], s[g + 1])];
      assert r[0].id[7] == 's';
      r
  }

  /** The rule: at most two findings, the missing-h1 finding first, then the
      moderate skipped-level one. */
  function CheckHeadingStructure(doc: Document): (r: seq<Issue>)
    ensures |r| <= 2
    ensures forall k :: 0 <= k < |r| && r[k].id == MissingH1Id ==> k == 0
    ensures |r| == 2 ==> r[0].id == MissingH1Id && r[1].severity == Moderate
  {
    var es := doc.elements;
    ShapeOfParts(MissingPart(es), SkippedPart(es, SortedLevels(es)));
    MissingPart(es) + SkippedPart(es, SortedLevels(es))
  }

  /** `m` is a hole in the levels: the level below it is present, `m` itself is
      not, and some deeper level is. */
  predicate IsHole(L: set<int>, m: int) {
    m - 1 in L && m !in L && exists h :: h in L && h > m
  }

  /** `s` lists exactly the levels of `L`, each between 1 and 6, strictly increasing. */
  ghost predicate ListsLevels(s: seq<int>, L: set<int>) {
    (forall l :: l in s <==> l in L)
    && (forall k :: 0 <= k < |s| ==> 1 <= s[k] <= 6)
    && (forall i, j :: 0 <= i < j < |s| ==> s[i] < s[j])
  }

  /** The sorted distinct levels hold exactly the levels present, strictly increasing. */
  lemma SortedContents(L: set<int>)
    requires forall l :: l in L ==> 1 <= l <= 6
    ensures ListsLevels(SortedFrom(L, 1), L)
  {
    SortedFromSpec(L, 1);
  }

  /** A hole in the levels shows up as a gap after some position of the sorted
      list, and the first gap of the scan lies no later than it. */
  lemma HoleGivesGap(s: seq<int>, L: set<int>, m: int) returns (j: nat)
    requires ListsLevels(s, L)
    requires IsHole(L, m)
    ensures j + 1 < |s| && s[j] == m - 1 && s[j + 1] - s[j] > 1
  {
    assert m - 1 in s;
    var j0 :| 0 <= j0 < |s| && s[j0] == m - 1;
    var h :| h in L && h > m;
    assert h in s;
    var i :| 0 <= i < |s| && s[i] == h;
    assert j0 < i;
    assert s[j0 + 1] in L;
    assert s[j0 + 1] != m;
    j := j0;
  }

  /** The scan's first gap over `s` names the smallest hole of `L`, and the scan
      finds no gap when `L` has no hole. */
  ghost predicate GapNamesSmallestHole(s: seq<int>, L: set<int>) {
    match FirstGap(s, 0)
    case Some(g) => IsHole(L, s[g] + 1) && forall m :: IsHole(L, m) ==> s[g] + 1 <= m
    case None => forall m :: !IsHole(L, m)
  }

  /** On any strictly increasing list holding exactly the levels present, the
      scan's first gap names the smallest hole; no gap means no hole. */
  lemma GapIsSmallestHole(s: seq<int>, L: set<int>)
    requires ListsLevels(s, L)
    ensures GapNamesSmallestHole(s, L)
  {
    match FirstGap(s, 0)
    case Some(g) =>
      assert s[g + 1] in L;
      forall i | 0 <= i < |s|
        ensures s[i] != s[g] + 1
      {
        if i > g + 1 {
          assert s[g + 1] < s[i];
        } else if i < g {
          assert s[i] < s[g];
        }
      }
      assert IsHole(L, s[g] + 1);
      forall m | IsHole(L, m)
        ensures s[g] + 1 <= m
      {
        var j := HoleGivesGap(s, L, m);
        assert g <= j;
        if g < j {
          assert s[g] < s[j];
        }
      }
    case None =>
      forall m | IsHole(L, m)
        ensures false
      {
        var j := HoleGivesGap(s, L, m);
      }
  }

  /** The heading scan's first gap names the smallest hole in the levels present. */
  lemma FirstGapIsSmallestHole(L: set<int>)
    requires forall l :: l in L ==> 1 <= l <= 6
    ensures GapNamesSmallestHole(SortedFrom(L, 1), L)
  {
    SortedContents(L);
    GapIsSmallestHole(SortedFrom(L, 1), L);
  }

  lemma ShapeOfParts(m: seq<Issue>, k: seq<Issue>)
    requires |m| <= 1 && forall i :: 0 <= i < |m| ==> m[i].id == MissingH1Id
    requires |k| <= 1 && forall i :: 0 <= i < |k| ==> k[i].severity == Moderate && k[i].id != MissingH1Id
    ensures var r := m + k;
            |r| <= 2
            && (forall i :: 0 <= i < |r| && r[i].id == MissingH1Id ==> i == 0)
            && (|r| == 2 ==> r[0].id == MissingH1Id && r[1].severity == Moderate)
  {
    var r := m + k;
    assert forall i :: |m| <= i < |r| ==> r[i] == k[i - |m|];
  }

  /** The page is reported for a missing `h1` exactly when it has no `h1`
      element; that finding is critical, first, and targets `html`. */
  lemma MissingH1Iff(doc: Document)
    ensures var r := CheckHeadingStructure(doc);
            (|r| > 0 && r[0] == MissingH1Issue)
            <==> forall k :: 0 <= k < |doc.elements| ==> doc.elements[k].name != "h1"
    ensures MissingH1Issue.severity == Critical && MissingH1Issue.nodes[0].target == ["html"]
  {
    var r := CheckHeadingStructure(doc);
    if FirstNamed(doc.elements, "h1").Some? && |r| > 0 {
      assert r[0].severity == Moderate;
    }
  }

  /** The moderate findings of `r` are there exactly when the levels `L` have a
      hole, and each names the smallest hole. */
  ghost predicate ModerateNamesSmallestHole(r: seq<Issue>, L: set<int>) {
    ((exists k :: 0 <= k < |r| && r[k].severity == Moderate) <==> exists m :: IsHole(L, m))
    && forall k :: 0 <= k < |r| && r[k].severity == Moderate ==>
         exists m :: 2 <= m <= 6 && IsHole(L, m) && r[k].id == SkippedIdPrefix + Digit(m)
                     && forall m' :: IsHole(L, m') ==> m <= m'
  }

  /** A skipped-level finding appears exactly when the levels present have a
      hole, and it names the smallest one: for h1 followed by h4 only h2. */
  lemma SkippedIffHole(doc: Document)
    ensures ModerateNamesSmallestHole(CheckHeadingStructure(doc), Levels(doc.elements))
  {
    var es := doc.elements;
    var L, s := Levels(es), SortedLevels(es);
    GapIsSmallestHole(s, L);
    SkippedPartNamesHole(MissingPart(es), es, s, L);
  }

  lemma SkippedPartNamesHole(m: seq<Issue>, es: seq<Element>, s: seq<int>, L: set<int>)
    requires forall i :: 0 <= i < |m| ==> m[i] == MissingH1Issue
    requires ListsLevels(s, L) && GapNamesSmallestHole(s, L)
    ensures ModerateNamesSmallestHole(m + SkippedPart(es, s), L)
  {
    var k := SkippedPart(es, s);
    var r := m + k;
    ModerateOfParts(m, k);
    match FirstGap(s, 0)
    case Some(g) =>
      var hole := s[g] + 1;
      assert IsHole(L, hole) && 2 <= hole <= 6;
      assert r[|m|] == k[0] && r[|m|].severity == Moderate;
      forall i | 0 <= i < |r| && r[i].severity == Moderate
        ensures r[i].id == SkippedIdPrefix + Digit(hole)
      {
        assert r[i] == k[0];
      }
    case None =>
      assert k == [];
  }

  /** A heading's tag is `h` followed by the digit of its level. */
  lemma HeadingNameOfLevel(e: Element)
    requires IsHeading(e)
    ensures e.name == "h" + Digit(LevelOf(e))
  {
    assert |e.name| == 2 && e.name[0] == 'h';
    assert Digit(LevelOf(e))[0] == e.name[1];
  }

  /** `str(soup.find('h<l>'))` is the markup of the first heading of level `l`. */
  ghost predicate QuotesFirst(es: seq<Element>, l: int)
    requires 1 <= l <= 6
  {
    exists k :: 0 <= k < |es| && es[k].name == "h" + Digit(l)
                && (forall j :: 0 <= j < k ==> es[j].name != "h" + Digit(l))
                && MarkupOfFirst(es, "h" + Digit(l)) == es[k].markup
  }

  /** For a level present on the page, the quoted markup is that of its first
      heading, so it is never the text "None". */
  lemma PresentLevelQuoted(es: seq<Element>, l: int)
    requires l in Levels(es)
    ensures 1 <= l <= 6 && QuotesFirst(es, l)
  {
    var e :| e in es && IsHeading(e) && LevelOf(e) == l;
    HeadingNameOfLevel(e);
    var tag := "h" + Digit(l);
    FirstNamedIsFirst(es, tag);
    assert FirstNamed(es, tag).Some?;
  }

  /** `a` and `b` are consecutive levels present with a hole between them;
      the finding names the level after `a` and quotes, under their tags, the
      first heading of each. */
  ghost predicate QuotesAroundHole(es: seq<Element>, f: Issue, a: int, b: int) {
    1 <= a && a + 1 < b <= 6 && a in Levels(es) && b in Levels(es)
    && (forall l :: a < l < b ==> l !in Levels(es))
    && f.id == SkippedIdPrefix + Digit(a + 1)
    && f.nodes == [NewNode(["h" + Digit(a)], Some(MarkupOfFirst(es, "h" + Digit(a)))),
                   NewNode(["h" + Digit(b)], Some(MarkupOfFirst(es, "h" + Digit(b))))]
    && QuotesFirst(es, a) && QuotesFirst(es, b)
  }

  /** The skipped-level finding quotes, under their tags, the first heading of
      each of the two consecutive levels present around the hole it names. */
  lemma SkippedNodesQuoteHeadings(doc: Document)
    ensures forall k :: 0 <= k < |CheckHeadingStructure(doc)| && CheckHeadingStructure(doc)[k].severity == Moderate ==>
              exists a, b :: QuotesAroundHole(doc.elements, CheckHeadingStructure(doc)[k], a, b)
  {
    var es := doc.elements;
    PartsQuoteAroundHole(MissingPart(es), es, SortedLevels(es));
  }

  lemma PartsQuoteAroundHole(m: seq<Issue>, es: seq<Element>, s: seq<int>)
    requires forall i :: 0 <= i < |m| ==> m[i] == MissingH1Issue
    requires ListsLevels(s, Levels(es))
    ensures var r := m + SkippedPart(es, s);
            forall k :: 0 <= k < |r| && r[k].severity == Moderate ==> exists a, b :: QuotesAroundHole(es, r[k], a, b)
  {
    var p := SkippedPart(es, s);
    var r := m + p;
    ModerateOfParts(m, p);
    if FirstGap(s, 0).Some? {
      var g := FirstGap(s, 0).value;
      SkippedPartQuotes(es, s);
      forall k | 0 <= k < |r| && r[k].severity == Moderate
        ensures QuotesAroundHole(es, r[k], s[g], s[g + 1])
      {
        assert r[k] == p[0];
      }
    }
  }

  /** The skipped-level part, over the sorted levels of the page, quotes the
      first headings of the two levels around its hole. */
  lemma SkippedPartQuotes(es: seq<Element>, s: seq<int>)
    requires ListsLevels(s, Levels(es))
    requires FirstGap(s, 0).Some?
    ensures var g := FirstGap(s, 0).value;
            QuotesAroundHole(es, SkippedPart(es, s)[0], s[g], s[g + 1])
  {
    var g := FirstGap(s, 0).value;
    ConsecutiveLevels(s, Levels(es), g);
    PresentLevelQuoted(es, s[g]);
    PresentLevelQuoted(es, s[g + 1]);
  }

  /** No level lies strictly between two neighbours of the sorted list. */
  lemma ConsecutiveLevels(s: seq<int>, L: set<int>, g: nat)
    requires ListsLevels(s, L) && g + 1 < |s|
    ensures s[g] in L && s[g + 1] in L
    ensures forall l :: s[g] < l < s[g + 1] ==> l !in L
  {
    forall l | s[g] < l < s[g + 1]
      ensures l !in s
    {
      forall i | 0 <= i < |s|
        ensures s[i] != l
      {
        if i < g {
          assert s[i] < s[g];
        } else if i > g + 1 {
          assert s[g + 1] < s[i];
        }
      }
    }
  }

  /** The moderate findings of the concatenation are those of its second part. */
  lemma ModerateOfParts(m: seq<Issue>, k: seq<Issue>)
    requires forall i :: 0 <= i < |m| ==> m[i] == MissingH1Issue
    ensures forall i :: 0 <= i < |m + k| && (m + k)[i].severity == Moderate ==> i >= |m| && (m + k)[i] == k[i - |m|]
    ensures forall i :: 0 <= i < |k| ==> (m + k)[|m| + i] == k[i]
  {
  }

  lemma MissingPartByLevels(es: seq<Element>)
    ensures MissingPart(es) == if 1 in Levels(es) then [] else [MissingH1Issue]
  {
    H1PresentIff(es);
  }

  /** Which findings appear, with their ids and severities, depends only on the
      set of heading levels present. */
  lemma DecisionDependsOnLevels(d1: Document, d2: Document)
    requires Levels(d1.elements) == Levels(d2.elements)
    ensures Ids(CheckHeadingStructure(d1)) == Ids(CheckHeadingStructure(d2))
  {
    var e1, e2 := d1.elements, d2.elements;
    MissingPartByLevels(e1);
    MissingPartByLevels(e2);
    var s := SortedLevels(e1);
    assert s == SortedLevels(e2);
    var k1, k2 := SkippedPart(e1, s), SkippedPart(e2, s);
    assert CheckHeadingStructure(d1) == MissingPart(e1) + k1;
    assert CheckHeadingStructure(d2) == MissingPart(e2) + k2;
    SkippedIdsIgnoreElements(e1, e2, s);
    IdsAppend(MissingPart(e1), k1);
    IdsAppend(MissingPart(e2), k2);
  }

  lemma SkippedIdsIgnoreElements(e1: seq<Element>, e2: seq<Element>, s: seq<int>)
    requires forall k :: 0 <= k < |s| ==> 1 <= s[k] <= 6
    ensures Ids(SkippedPart(e1, s)) == Ids(SkippedPart(e2, s))
  {
  }

  /** The ascending list of a set of levels, worked out level by level from 6 down. */
  lemma {:induction false} SortedFromUpper(L: set<int>, lo: int)
    requires 1 <= lo <= 7
    requires forall l :: l in L ==> l < lo
    ensures SortedFrom(L, lo) == []
    decreases 7 - lo
  {
    if lo <= 6 {
      assert lo !in L;
      SortedFromUpper(L, lo + 1);
    }
  }

  /** Levels 1 and 4 only: exactly one finding, naming the missing h2. */
  lemma H1ThenH4NamesH2(doc: Document)
    requires Levels(doc.elements) == {1, 4}
    ensures var r := CheckHeadingStructure(doc);
            |r| == 1 && r[0].id == "custom-skipped-heading-level-h2" && r[0].severity == Moderate
  {
    var es := doc.elements;
    assert MissingPart(es) == [] by {
      MissingPartByLevels(es);
    }
    assert SortedLevels(es) == [1, 4] by {
      LevelsOneFour(Levels(es));
    }
    var k := SkippedPart(es, [1, 4]);
    assert |k| == 1 && k[0].severity == Moderate && k[0].id == SkippedIdPrefix + Digit(2) by {
      assert FirstGap([1, 4], 0) == Some(0);
    }
    assert SkippedIdPrefix + Digit(2) == "custom-skipped-heading-level-h2";
    assert CheckHeadingStructure(doc) == [] + k;
  }

  lemma LevelsOneFour(L: set<int>)
    requires L == {1, 4}
    ensures SortedFrom(L, 1) == [1, 4]
  {
    SortedFromUpper(L, 5);
    assert SortedFrom(L, 4) == [4];
    assert SortedFrom(L, 2) == [4] by {
      assert SortedFrom(L, 3) == [4];
    }
  }

  /** Levels 2 and 3 without an h1: only the missing-h1 finding. */
  lemma H2H3OnlyMissingH1(doc: Document)
    requires Levels(doc.elements) == {2, 3}
    ensures CheckHeadingStructure(doc) == [MissingH1Issue]
  {
    var es := doc.elements;
    MissingPartByLevels(es);
    LevelsTwoThree(Levels(es));
    assert FirstGap([2, 3], 0) == None;
  }

  lemma LevelsTwoThree(L: set<int>)
    requires L == {2, 3}
    ensures SortedFrom(L, 1) == [2, 3]
  {
    SortedFromUpper(L, 4);
    assert SortedFrom(L, 3) == [3];
    assert SortedFrom(L, 2) == [2, 3];
  }

  /** Levels 1, 2 and 3 (for instance h1, h2, h3, h2): no finding. */
  lemma WellNestedIsClean(doc: Document)
    requires Levels(doc.elements) == {1, 2, 3}
    ensures CheckHeadingStructure(doc) == []
  {
    var es := doc.elements;
    MissingPartByLevels(es);
    LevelsOneTwoThree(Levels(es));
    assert FirstGap([1, 2, 3], 0) == None;
  }

  lemma LevelsOneTwoThree(L: set<int>)
    requires L == {1, 2, 3}
    ensures SortedFrom(L, 1) == [1, 2, 3]
  {
    SortedFromUpper(L, 4);
    assert SortedFrom(L, 3) == [3];
    assert SortedFrom(L, 2) == [2, 3];
  }
}
