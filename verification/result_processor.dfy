/** The scoring reducer: bucket the issues by severity, weigh the buckets and
    floor the score at zero; and the assembly of the stored report. */
module ResultProcessor {
  import opened Wrappers
  import opened Schemas

  datatype Bucket = CriticalBucket | ModerateBucket | MinorBucket | NoBucket

  /** The severity ladder of the scoring loop: "serious" joins "moderate", "low"
      joins "minor", and any other string lands in no bucket. */
  function BucketOf(severity: string): Bucket {
    if severity == Critical then CriticalBucket
    else if severity == Serious || severity == Moderate then ModerateBucket
    else if severity == Minor then MinorBucket
    else if severity == Low then MinorBucket
    else NoBucket
  }

  const CriticalWeight := 5
  const ModerateWeight := 2
  const MinorWeight := 1

  /** How many of the issues fall in bucket `b`. */
  function Count(issues: seq<Issue>, b: Bucket): nat
    decreases |issues|
  {
    if issues == [] then 0
    else Count(issues[..|issues| - 1], b) + (if BucketOf(issues[|issues| - 1].severity) == b then 1 else 0)
  }

  /** 100 minus the weighted deduction, floored at 0 (Python's `max(0, x)`). */
  function ScoreOf(critical: int, moderate: int, minor: int): int {
    var calculated := 100 - (CriticalWeight * critical + ModerateWeight * moderate + MinorWeight * minor);
    if calculated > 0 then calculated else 0
  }

  /** The summary the scoring loop produces, stated through the bucket counts. */
  function Summarize(issues: seq<Issue>): (s: AnalysisSummary)
    ensures ScoreInRange(s)
  {
    var c := Count(issues, CriticalBucket);
    var m := Count(issues, ModerateBucket);
    var n := Count(issues, MinorBucket);
    AnalysisSummary(|issues|, c, m, n, Some(ScoreOf(c, m, n)))
  }

  /** The scoring loop as written: counters and deductions grow issue by issue. */
  method CalculateAccessibilityScore(issues: seq<Issue>) returns (summary: AnalysisSummary)
    ensures summary.totalIssues == |issues|
    ensures summary.criticalIssues == Count(issues, CriticalBucket)
    ensures summary.moderateIssues == Count(issues, ModerateBucket)
    ensures summary.minorIssues == Count(issues, MinorBucket)
    ensures summary.score == Some(var d := 5 * summary.criticalIssues + 2 * summary.moderateIssues + summary.minorIssues;
                                  if 100 - d < 0 then 0 else 100 - d)
    ensures ScoreInRange(summary)
    ensures summary == Summarize(issues)
  {
    summary := AnalysisSummary(|issues|, 0, 0, 0, Some(100));
    var criticalDeduction, moderateDeduction, minorDeduction := 0, 0, 0;
    var i := 0;
    while i < |issues|
      invariant 0 <= i <= |issues|
      invariant summary.totalIssues == |issues| && summary.score == Some(100)
      invariant summary.criticalIssues == Count(issues[..i], CriticalBucket)
      invariant summary.moderateIssues == Count(issues[..i], ModerateBucket)
      invariant summary.minorIssues == Count(issues[..i], MinorBucket)
      invariant criticalDeduction == CriticalWeight * summary.criticalIssues
      invariant moderateDeduction == ModerateWeight * summary.moderateIssues
      invariant minorDeduction == MinorWeight * summary.minorIssues
    {
      var severity := issues[i].severity;
      if severity == Critical {
        summary := summary.(criticalIssues := summary.criticalIssues + 1);
        criticalDeduction := criticalDeduction + CriticalWeight;
      } else if severity == Serious || severity == Moderate {
        summary := summary.(moderateIssues := summary.moderateIssues + 1);
        moderateDeduction := moderateDeduction + ModerateWeight;
      } else if severity == Minor {
        summary := summary.(minorIssues := summary.minorIssues + 1);
        minorDeduction := minorDeduction + MinorWeight;
      } else if severity == Low {
        summary := summary.(minorIssues := summary.minorIssues + 1);
        minorDeduction := minorDeduction + MinorWeight;
      }
      assert issues[..i + 1][..i] == issues[..i];
      i := i + 1;
    }
    assert issues[..|issues|] == issues;
    var calculatedScore := 100 - (criticalDeduction + moderateDeduction + minorDeduction);
    summary := summary.(score := Some(if calculatedScore > 0 then calculatedScore else 0));
  }

  /** Counting splits over concatenation. */
  lemma {:induction false} CountAppend(a: seq<Issue>, b: seq<Issue>, k: Bucket)
    ensures Count(a + b, k) == Count(a, k) + Count(b, k)
    decreases |b|
  {
    if b == [] {
      assert a + b == a;
    } else {
      assert (a + b)[..|a + b| - 1] == a + b[..|b| - 1];
      assert (a + b)[|a + b| - 1] == b[|b| - 1];
      CountAppend(a, b[..|b| - 1], k);
    }
  }

  /** Every issue lands in exactly one of the four buckets. */
  lemma {:induction false} CountPartition(issues: seq<Issue>)
    ensures Count(issues, CriticalBucket) + Count(issues, ModerateBucket) + Count(issues, MinorBucket)
            + Count(issues, NoBucket) == |issues|
    decreases |issues|
  {
    if issues != [] {
      CountPartition(issues[..|issues| - 1]);
    }
  }

  /** A bucket is empty exactly when no issue's severity maps to it. */
  lemma {:induction false} CountZeroIff(issues: seq<Issue>, b: Bucket)
    ensures Count(issues, b) == 0 <==> forall k :: 0 <= k < |issues| ==> BucketOf(issues[k].severity) != b
    decreases |issues|
  {
    if issues != [] {
      var init := issues[..|issues| - 1];
      CountZeroIff(init, b);
      assert forall k :: 0 <= k < |init| ==> init[k] == issues[k];
    }
  }

  /** The five severity strings the reducer recognises. */
  predicate Recognised(severity: string) {
    severity in {Critical, Serious, Moderate, Minor, Low}
  }

  /** The three counts never exceed the total, and reach it exactly when every
      severity is one of the five recognised strings. */
  lemma CountsAgainstTotal(issues: seq<Issue>)
    ensures var s := Summarize(issues);
            s.criticalIssues + s.moderateIssues + s.minorIssues <= s.totalIssues
    ensures var s := Summarize(issues);
            s.criticalIssues + s.moderateIssues + s.minorIssues == s.totalIssues
            <==> forall k :: 0 <= k < |issues| ==> Recognised(issues[k].severity)
  {
    CountPartition(issues);
    CountZeroIff(issues, NoBucket);
  }

  /** Adding one issue changes the summary according to its severity family:
      "serious" and "moderate" raise the moderate count, "minor" and "low" the
      minor count, and an unrecognised severity only the total. */
  lemma SeverityFamilies(issues: seq<Issue>, i: Issue)
    ensures var s, t := Summarize(issues), Summarize(issues + [i]);
            t.totalIssues == s.totalIssues + 1
    ensures var s, t := Summarize(issues), Summarize(issues + [i]);
            i.severity == Critical ==>
              t.criticalIssues == s.criticalIssues + 1 && t.moderateIssues == s.moderateIssues && t.minorIssues == s.minorIssues
    ensures var s, t := Summarize(issues), Summarize(issues + [i]);
            (i.severity == Serious || i.severity == Moderate) ==>
              t.criticalIssues == s.criticalIssues && t.moderateIssues == s.moderateIssues + 1 && t.minorIssues == s.minorIssues
    ensures var s, t := Summarize(issues), Summarize(issues + [i]);
            (i.severity == Minor || i.severity == Low) ==>
              t.criticalIssues == s.criticalIssues && t.moderateIssues == s.moderateIssues && t.minorIssues == s.minorIssues + 1
    ensures var s, t := Summarize(issues), Summarize(issues + [i]);
            !Recognised(i.severity) ==>
              t.criticalIssues == s.criticalIssues && t.moderateIssues == s.moderateIssues
              && t.minorIssues == s.minorIssues && t.score == s.score
  {
    assert (issues + [i])[..|issues|] == issues;
  }

  /** Removing the issue at `j` removes exactly its own contribution. */
  lemma CountRemove(b: seq<Issue>, j: nat, k: Bucket)
    requires j < |b|
    ensures Count(b, k) == Count(b[..j] + b[j + 1..], k) + (if BucketOf(b[j].severity) == k then 1 else 0)
  {
    assert b == (b[..j] + [b[j]]) + b[j + 1..];
    CountAppend(b[..j] + [b[j]], b[j + 1..], k);
    CountAppend(b[..j], [b[j]], k);
    CountAppend(b[..j], b[j + 1..], k);
    assert [b[j]][..0] == [];
  }

  lemma MultisetRemove(b: seq<Issue>, j: nat)
    requires j < |b|
    ensures multiset(b[..j] + b[j + 1..]) == multiset(b) - multiset{b[j]}
  {
    assert b == b[..j] + [b[j]] + b[j + 1..];
  }

  /** Counting ignores the order of the issues. */
  lemma {:induction false} CountPermutation(a: seq<Issue>, b: seq<Issue>, k: Bucket)
    requires multiset(a) == multiset(b)
    ensures Count(a, k) == Count(b, k)
    decreases |a|
  {
    if a == [] {
      assert |multiset(b)| == 0;
    } else {
      var x := a[|a| - 1];
      var init := a[..|a| - 1];
      assert a == init + [x];
      assert x in multiset(b);
      var j :| 0 <= j < |b| && b[j] == x;
      MultisetRemove(b, j);
      assert multiset(init) == multiset(a) - multiset{x};
      CountPermutation(init, b[..j] + b[j + 1..], k);
      CountRemove(b, j, k);
    }
  }

  /** The summary is unchanged by any reordering of the issue list. */
  lemma SummaryPermutationInvariant(a: seq<Issue>, b: seq<Issue>)
    requires multiset(a) == multiset(b)
    ensures Summarize(a) == Summarize(b)
  {
    CountPermutation(a, b, CriticalBucket);
    CountPermutation(a, b, ModerateBucket);
    CountPermutation(a, b, MinorBucket);
    assert |a| == |multiset(a)| == |multiset(b)| == |b|;
  }

  /** More issues never raise the score. */
  lemma ScoreNonIncreasing(issues: seq<Issue>, more: seq<Issue>)
    ensures Summarize(issues + more).score.value <= Summarize(issues).score.value
  {
    CountAppend(issues, more, CriticalBucket);
    CountAppend(issues, more, ModerateBucket);
    CountAppend(issues, more, MinorBucket);
  }

  /** Twenty critical issues already exhaust the score. */
  lemma TwentyCriticalScoreZero(issues: seq<Issue>)
    requires Count(issues, CriticalBucket) >= 20
    ensures Summarize(issues).score == Some(0)
  {
  }

  /** When every issue is critical, each of them is counted as critical. */
  lemma {:induction false} AllCriticalCounted(issues: seq<Issue>)
    requires forall k :: 0 <= k < |issues| ==> issues[k].severity == Critical
    ensures Count(issues, CriticalBucket) == |issues|
    decreases |issues|
  {
    if issues != [] {
      AllCriticalCounted(issues[..|issues| - 1]);
    }
  }

  /** A list of at least twenty critical issues scores 0. */
  lemma ManyCriticalScoreZero(issues: seq<Issue>)
    requires |issues| >= 20
    requires forall k :: 0 <= k < |issues| ==> issues[k].severity == Critical
    ensures Summarize(issues).score == Some(0)
  {
    AllCriticalCounted(issues);
  }

  /** Assembling the stored report: the issue list is kept as given and the
      summary is the score calculation over that same list. */
  method ProcessAnalysisData(url: string, userId: string, issues: seq<Issue>,
                             pageHtmlContent: string, pageTitle: string) returns (r: AnalysisResult)
    ensures r.issues == issues
    ensures r.summary == Summarize(issues) && ScoreInRange(r.summary)
    ensures r.summary.totalIssues == |issues|
    ensures r.url == url && r.userId == userId && r.pageTitle == Some(pageTitle)
  {
    var summary := CalculateAccessibilityScore(issues);
    r := AnalysisResult(userId, url, summary, issues, Some(pageTitle));
  }
}
