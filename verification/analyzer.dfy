/** The analysis pipeline: turn the scanner's formatted violations into issues,
    append the static rules' issues in a fixed order, ask the advisory service
    once per issue, attach each answer to its own issue, and report the page
    title. The browser, the scanner run and the advisory service are
    parameters. */
module Analyzer {
  import opened Wrappers
  import opened Text
  import opened Dom
  import opened Schemas
  import opened ResultProcessor
  import opened AxeRunner
  import opened AltText
  import opened Headings
  import opened Labels
  import opened Contrast
  import opened EmptyInteractive
  import opened DocumentLanguage
  import opened DescriptiveLinkText
  import opened MediaCaptions

  const UnknownIssueId := "unknown-id"
  const NoHelpProvided := "No help provided"
  const UntitledPage := "N/A"

  /** An evidence node built from a node dictionary; a missing selector path is empty. */
  function NodeOf(n: NodeDict): (node: IssueNode)
    ensures node.html == n.html && node.target == n.target.GetOr([])
    ensures node.snippet == n.snippet && node.failureSummary == n.failureSummary && node.xpath == n.xpath
  {
    IssueNode(n.html, n.target.GetOr([]), n.snippet, n.failureSummary, n.xpath)
  }

  /** The normalisation of one formatted violation as written: the severity is
      read from `impact`, defaulting to "minor". */
  function NormalizeAsWritten(v: ViolationDict): (i: Issue)
    ensures i.id == v.id.GetOr(UnknownIssueId)
    ensures i.description == v.description.GetOr(NoDescription)
    ensures i.help == v.help.GetOr(NoHelpProvided)
    ensures i.helpUrl == v.helpUrl && i.tags == v.tags.GetOr([])
    ensures i.severity == v.impact.GetOr(Minor)
    ensures |i.nodes| == |v.nodes.GetOr([])|
    ensures forall k :: 0 <= k < |i.nodes| ==> i.nodes[k] == NodeOf(v.nodes.GetOr([])[k])
    ensures i.aiSuggestions.None?
  {
    var ns := v.nodes.GetOr([]);
    Issue(v.id.GetOr(UnknownIssueId), v.description.GetOr(NoDescription), v.help.GetOr(NoHelpProvided),
          v.helpUrl, v.impact.GetOr(Minor), v.tags.GetOr([]),
          seq(|ns|, k requires 0 <= k < |ns| => NodeOf(ns[k])), None)
  }

  /** The normalisation the pipeline uses: as written, except that the
      severity is read from `severity`, the key the formatter stores the
      scanner's impact under. */
  function Normalize(v: ViolationDict): (i: Issue)
    ensures i.severity == v.severity.GetOr(Minor)
    ensures i == NormalizeAsWritten(v).(severity := i.severity)
  {
    NormalizeAsWritten(v).(severity := v.severity.GetOr(Minor))
  }

  /** As written, every scanner issue is minor, whatever impact the scanner gave. */
  lemma ScannerSeverityAlwaysMinorAsWritten(v: ViolationDict)
    ensures NormalizeAsWritten(FormatViolation(v)).severity == Minor
  {
  }

  /** A critical violation from the scanner is stored as minor by the
      normalisation as written. */
  lemma CriticalReportedAsMinor()
    ensures var v := ViolationDict(Some("image-alt"), None, None, None, Some(Critical), None, None, None);
            NormalizeAsWritten(FormatViolation(v)).severity == Minor
            && v.impact == Some(Critical) && Critical != Minor
  {
  }

  /** With the corrected reading, a scanner issue is the violation with the
      formatter's and the normalisation's defaults: its severity is the
      scanner's impact, its nodes carry the markup and selector path and no
      other text, and it has no help URL, tags or advisory. */
  lemma ScannerIssueFaithful(v: ViolationDict)
    ensures var i := Normalize(FormatViolation(v));
            var ns := v.nodes.GetOr([]);
            i.id == v.id.GetOr(AxeRunner.UnknownId)
            && i.description == v.description.GetOr(NoDescription)
            && i.help == v.help.GetOr(NoHelpMessage)
            && i.severity == v.impact.GetOr(Minor)
            && i.helpUrl.None? && i.tags == [] && i.aiSuggestions.None?
            && |i.nodes| == |ns|
            && forall k :: 0 <= k < |ns| ==> i.nodes[k] == NewNode(ns[k].target.GetOr([]), ns[k].html)
  {
    var f := FormatViolation(v);
    var i := Normalize(f);
    var ns := v.nodes.GetOr([]);
    forall k | 0 <= k < |ns|
      ensures i.nodes[k] == NewNode(ns[k].target.GetOr([]), ns[k].html)
    {
      assert f.nodes.value[k] == FormatNode(ns[k]);
    }
  }

  /** The scanner's issues, one per violation in the scanner's order. */
  function AxeIssues(results: ScanResults): (r: seq<Issue>)
    ensures |r| == |results.violations.GetOr([])|
    ensures forall k :: 0 <= k < |r| ==> r[k] == Normalize(FormatViolation(results.violations.GetOr([])[k]))
  {
    var fs := FormatViolations(results);
    seq(|fs|, k requires 0 <= k < |fs| => Normalize(fs[k]))
  }

  /** The scanner issues keep the scanner's impacts, so the scanner's critical
      violations are counted as critical by the scoring. */
  lemma AxeCriticalCounted(results: ScanResults)
    ensures forall k :: 0 <= k < |AxeIssues(results)| ==>
              (BucketOf(AxeIssues(results)[k].severity) == CriticalBucket
               <==> results.violations.GetOr([])[k].impact == Some(Critical))
  {
    forall k | 0 <= k < |AxeIssues(results)|
      ensures BucketOf(AxeIssues(results)[k].severity) == CriticalBucket
              <==> results.violations.GetOr([])[k].impact == Some(Critical)
    {
      ScannerIssueFaithful(results.violations.GetOr([])[k]);
    }
  }

  /** The scanner's issues as the code builds them: the corrected issues with
      every severity reset to minor, since the formatted dictionaries carry no
      `impact` key. */
  function AxeIssuesAsWritten(results: ScanResults): (r: seq<Issue>)
    ensures |r| == |AxeIssues(results)|
    ensures forall k :: 0 <= k < |r| ==> r[k].severity == Minor && r[k] == AxeIssues(results)[k].(severity := Minor)
  {
    var fs := FormatViolations(results);
    seq(|fs|, k requires 0 <= k < |fs| => NormalizeAsWritten(fs[k]))
  }

  /** The static rules' issues, in the fixed rule order; raises when the media
      rule raises. */
  function CustomIssues(doc: Document, lum: Luminance): (r: Result<seq<Issue>, MediaError>)
    ensures r.Failure? <==> CheckMediaCaptions(doc).Failure?
  {
    var media :- CheckMediaCaptions(doc);
    Success(CheckAltText(doc) + CheckHeadingStructure(doc) + CheckFormLabels(doc)
            + CheckColorContrast(doc, lum) + CheckEmptyInteractiveElements(doc)
            + CheckDocumentLanguage(doc) + CheckDescriptiveLinkText(doc) + media)
  }

  /** The merged list: the scanner's issues first, then the rules' issues. */
  function MergedIssues(doc: Document, lum: Luminance, results: ScanResults): (r: Result<seq<Issue>, MediaError>)
    ensures r.Failure? <==> CheckMediaCaptions(doc).Failure?
    ensures r.Success? ==> |r.value| >= |results.violations.GetOr([])|
  {
    var custom :- CustomIssues(doc, lum);
    Success(AxeIssues(results) + custom)
  }

  /** The merged list as written: the same as `MergedIssues`, except that the
      scanner's issues, which come first, are all minor. */
  function MergedIssuesAsWritten(doc: Document, lum: Luminance, results: ScanResults): (r: Result<seq<Issue>, MediaError>)
    ensures r.Failure? <==> CheckMediaCaptions(doc).Failure?
    ensures r.Success? ==>
              var m := MergedIssues(doc, lum, results).value;
              |r.value| == |m|
              && forall k :: 0 <= k < |m| ==>
                   r.value[k] == if k < |results.violations.GetOr([])| then m[k].(severity := Minor) else m[k]
  {
    var custom :- CustomIssues(doc, lum);
    PrefixReset(AxeIssues(results), AxeIssuesAsWritten(results), custom);
    Success(AxeIssuesAsWritten(results) + custom)
  }

  /** Resetting the severities of a prefix resets them in the concatenation. */
  lemma PrefixReset(x: seq<Issue>, w: seq<Issue>, rest: seq<Issue>)
    requires |w| == |x| && forall k :: 0 <= k < |x| ==> w[k] == x[k].(severity := Minor)
    ensures |w + rest| == |x + rest|
    ensures forall k :: 0 <= k < |x + rest| ==>
              (w + rest)[k] == if k < |x| then (x + rest)[k].(severity := Minor) else (x + rest)[k]
  {
  }

  /** `r` is made of nine consecutive runs, exactly `x`, `a`, `h`, `l`, `c`,
      `e`, `g`, `t` and `m` in that order. */
  ghost predicate NineRunsOf(r: seq<Issue>, x: seq<Issue>, a: seq<Issue>, h: seq<Issue>, l: seq<Issue>,
                             c: seq<Issue>, e: seq<Issue>, g: seq<Issue>, t: seq<Issue>, m: seq<Issue>) {
    var o1 := |x|; var o2 := o1 + |a|; var o3 := o2 + |h|; var o4 := o3 + |l|;
    var o5 := o4 + |c|; var o6 := o5 + |e|; var o7 := o6 + |g|; var o8 := o7 + |t|;
    |r| == o8 + |m|
    && r[..o1] == x && r[o1..o2] == a && r[o2..o3] == h && r[o3..o4] == l
    && r[o4..o5] == c && r[o5..o6] == e && r[o6..o7] == g && r[o7..o8] == t && r[o8..] == m
  }

  /** The merged list is the scanner's issues, then the issues of the alt
      text, headings, labels, contrast, empty control, language, link text and
      media rules, each run exactly that rule's output. */
  lemma MergedOrder(doc: Document, lum: Luminance, results: ScanResults)
    requires CheckMediaCaptions(doc).Success?
    ensures NineRunsOf(MergedIssues(doc, lum, results).value, AxeIssues(results), CheckAltText(doc),
                       CheckHeadingStructure(doc), CheckFormLabels(doc), CheckColorContrast(doc, lum),
                       CheckEmptyInteractiveElements(doc), CheckDocumentLanguage(doc),
                       CheckDescriptiveLinkText(doc), CheckMediaCaptions(doc).value)
  {
    NineRuns(AxeIssues(results), CheckAltText(doc), CheckHeadingStructure(doc), CheckFormLabels(doc),
             CheckColorContrast(doc, lum), CheckEmptyInteractiveElements(doc), CheckDocumentLanguage(doc),
             CheckDescriptiveLinkText(doc), CheckMediaCaptions(doc).value);
  }

  /** Where each part of a nine-part concatenation sits. */
  lemma NineRuns(x: seq<Issue>, a: seq<Issue>, h: seq<Issue>, l: seq<Issue>, c: seq<Issue>,
                 e: seq<Issue>, g: seq<Issue>, t: seq<Issue>, m: seq<Issue>)
    ensures NineRunsOf(x + (a + h + l + c + e + g + t + m), x, a, h, l, c, e, g, t, m)
  {
    var r := x + (a + h + l + c + e + g + t + m);
    assert r == x + a + h + l + c + e + g + t + m;
    SliceOfConcat(x + a + h + l + c + e + g + t, m);
    SliceOfConcat(x + a + h + l + c + e + g, t);
    SliceOfConcat(x + a + h + l + c + e, g);
    SliceOfConcat(x + a + h + l + c, e);
    SliceOfConcat(x + a + h + l, c);
    SliceOfConcat(x + a + h, l);
    SliceOfConcat(x + a, h);
    SliceOfConcat(x, a);
  }

  lemma SliceOfConcat(p: seq<Issue>, q: seq<Issue>)
    ensures (p + q)[..|p|] == p && (p + q)[|p|..] == q
  {
  }

  /** The arguments of one advisory request. */
  datatype EnrichRequest = EnrichRequest(description: string, help: string, html: string)

  /** The request for one issue: its description and help, and the markup of
      its first node; the markup is empty exactly when there is no node, the
      first node has no markup, or its markup is empty. */
  function RequestFor(i: Issue): (q: EnrichRequest)
    ensures q.description == i.description && q.help == i.help
    ensures q.html != "" ==> |i.nodes| > 0 && i.nodes[0].html == Some(q.html)
    ensures q.html == "" <==> |i.nodes| == 0 || i.nodes[0].html.None? || i.nodes[0].html == Some("")
  {
    var html := if |i.nodes| > 0 && i.nodes[0].html.Some? && i.nodes[0].html.value != "" then i.nodes[0].html.value else "";
    EnrichRequest(i.description, i.help, html)
  }

  /** One request per issue, in the issues' order. */
  function EnrichmentRequests(issues: seq<Issue>): (qs: seq<EnrichRequest>)
    ensures |qs| == |issues|
    ensures forall k :: 0 <= k < |qs| ==> qs[k] == RequestFor(issues[k])
  {
    seq(|issues|, k requires 0 <= k < |issues| => RequestFor(issues[k]))
  }

  /** No issue, no request; and at least one request otherwise. */
  lemma NoIssuesNoRequests(issues: seq<Issue>)
    ensures EnrichmentRequests(issues) == [] <==> issues == []
  {
    if issues != [] {
      assert |EnrichmentRequests(issues)| > 0;
    }
  }

  /** What the concurrent gathering returned for one request: an exception,
      or a dictionary offered to the advisory schema. */
  datatype Outcome = Raised | Returned(data: SuggestionData)

  /** The advisory an outcome yields: none for an exception or a dictionary
      the schema rejects. */
  function SuggestionOf(o: Outcome): (s: Option<AiSuggestion>)
    ensures s.Some? <==> o.Returned? && o.data.shortFix.Some? && o.data.detailedFix.Some?
    ensures s.Some? ==> s.value == AiSuggestion(o.data.shortFix.value, o.data.detailedFix.value)
  {
    match o
    case Raised => None
    case Returned(d) => ParseSuggestion(d)
  }

  /** Attaching the outcomes by position: issue `k` gets the advisory of
      outcome `k` (or none) in place of whatever it carried, and nothing else
      about any issue changes. */
  function Attach(issues: seq<Issue>, outcomes: seq<Outcome>): (r: seq<Issue>)
    requires |outcomes| == |issues|
    ensures |r| == |issues|
    ensures forall k :: 0 <= k < |r| ==>
              r[k].aiSuggestions == SuggestionOf(outcomes[k])
              && r[k].(aiSuggestions := None) == issues[k].(aiSuggestions := None)
  {
    seq(|issues|, k requires 0 <= k < |issues| => issues[k].(aiSuggestions := SuggestionOf(outcomes[k])))
  }

  /** Outcome `j` affects issue `j` only: replacing it leaves every other
      attached issue as it was. */
  lemma AttachIsolated(issues: seq<Issue>, outcomes: seq<Outcome>, j: nat, o: Outcome)
    requires |outcomes| == |issues| && j < |issues|
    ensures var r, r' := Attach(issues, outcomes), Attach(issues, outcomes[j := o]);
            forall k :: 0 <= k < |r| && k != j ==> r'[k] == r[k]
  {
    var r, r' := Attach(issues, outcomes), Attach(issues, outcomes[j := o]);
    forall k | 0 <= k < |r| && k != j
      ensures r'[k] == r[k]
    {
      assert r'[k].(aiSuggestions := None) == r[k].(aiSuggestions := None);
    }
  }

  /** A failed outcome or a rejected dictionary clears that issue's advisory,
      even one a rule attached itself. */
  lemma FailedOutcomeClears(issues: seq<Issue>, outcomes: seq<Outcome>, j: nat)
    requires |outcomes| == |issues| && j < |issues|
    requires outcomes[j].Raised? || outcomes[j].data.shortFix.None? || outcomes[j].data.detailedFix.None?
    ensures Attach(issues, outcomes)[j].aiSuggestions.None?
  {
  }

  /** Every advisory the rules attached is overwritten: two issue lists that
      differ only in their advisories come out identical. */
  lemma AttachOverwrites(issues: seq<Issue>, issues': seq<Issue>, outcomes: seq<Outcome>)
    requires |issues| == |issues'| == |outcomes|
    requires forall k :: 0 <= k < |issues| ==> issues[k].(aiSuggestions := None) == issues'[k].(aiSuggestions := None)
    ensures Attach(issues, outcomes) == Attach(issues', outcomes)
  {
    var r, r' := Attach(issues, outcomes), Attach(issues', outcomes);
    forall k | 0 <= k < |r|
      ensures r[k] == r'[k]
    {
      assert r[k].(aiSuggestions := None) == r'[k].(aiSuggestions := None);
    }
  }

  /** Attaching advisories leaves the summary and the score unchanged. */
  lemma AttachKeepsSummary(issues: seq<Issue>, outcomes: seq<Outcome>)
    requires |outcomes| == |issues|
    ensures Summarize(Attach(issues, outcomes)) == Summarize(issues)
  {
    var r := Attach(issues, outcomes);
    assert forall k :: 0 <= k < |r| ==> r[k].severity == r[k].(aiSuggestions := None).severity;
    SameSeveritiesSameCount(r, issues, CriticalBucket);
    SameSeveritiesSameCount(r, issues, ModerateBucket);
    SameSeveritiesSameCount(r, issues, MinorBucket);
  }

  /** The bucket counts depend on the severities alone. */
  lemma {:induction false} SameSeveritiesSameCount(a: seq<Issue>, b: seq<Issue>, bucket: Bucket)
    requires |a| == |b| && forall k :: 0 <= k < |a| ==> a[k].severity == b[k].severity
    ensures Count(a, bucket) == Count(b, bucket)
    decreases |a|
  {
    if a != [] {
      SameSeveritiesSameCount(a[..|a| - 1], b[..|b| - 1], bucket);
    }
  }

  datatype AnalysisError = MediaRuleError(cause: MediaError) | NameError

  /** The attaching loop as written: an exception outcome or a rejected
      dictionary reaches a handler that logs through a module that was never
      imported, so the whole analysis raises at the first such position. */
  function AttachAsWritten(issues: seq<Issue>, outcomes: seq<Outcome>, i: nat): (r: Result<seq<Issue>, AnalysisError>)
    requires |outcomes| == |issues| && i <= |issues|
    ensures r.Success? ==> |r.value| == |issues|
    decreases |issues| - i
  {
    if i == |issues| then Success(issues)
    else if SuggestionOf(outcomes[i]).None? then Failure(NameError)
    else AttachAsWritten(issues[i := issues[i].(aiSuggestions := SuggestionOf(outcomes[i]))], outcomes, i + 1)
  }

  /** As written, the attaching loop raises exactly when some outcome is an
      exception or a rejected dictionary, and otherwise agrees with `Attach`. */
  lemma AttachAsWrittenRaisesIff(issues: seq<Issue>, outcomes: seq<Outcome>)
    requires |outcomes| == |issues|
    ensures AttachAsWritten(issues, outcomes, 0).Failure?
            <==> exists k :: 0 <= k < |outcomes| && SuggestionOf(outcomes[k]).None?
    ensures AttachAsWritten(issues, outcomes, 0).Success? ==> AttachAsWritten(issues, outcomes, 0).value == Attach(issues, outcomes)
  {
    AttachFromIff(issues, outcomes, 0);
    var r := Attach(issues, outcomes);
    assert forall k :: 0 <= k < |issues| ==> r[k] == issues[k].(aiSuggestions := SuggestionOf(outcomes[k]));
  }

  lemma {:induction false} AttachFromIff(issues: seq<Issue>, outcomes: seq<Outcome>, i: nat)
    requires |outcomes| == |issues| && i <= |issues|
    ensures AttachAsWritten(issues, outcomes, i).Failure?
            <==> exists k :: i <= k < |outcomes| && SuggestionOf(outcomes[k]).None?
    ensures AttachAsWritten(issues, outcomes, i).Success? ==>
              var r := AttachAsWritten(issues, outcomes, i).value;
              |r| == |issues|
              && (forall k :: 0 <= k < i ==> r[k] == issues[k])
              && (forall k :: i <= k < |r| ==> r[k] == issues[k].(aiSuggestions := SuggestionOf(outcomes[k])))
    decreases |issues| - i
  {
    if i < |issues| && SuggestionOf(outcomes[i]).Some? {
      var next := issues[i := issues[i].(aiSuggestions := SuggestionOf(outcomes[i]))];
      AttachFromIff(next, outcomes, i + 1);
      if exists k :: i <= k < |outcomes| && SuggestionOf(outcomes[k]).None? {
        var k :| i <= k < |outcomes| && SuggestionOf(outcomes[k]).None?;
        assert i + 1 <= k;
      }
    }
  }

  /** One exception among the outcomes makes the analysis as written raise,
      where the corrected attach only clears that issue's advisory. */
  lemma OneFailedOutcomeRaisesAsWritten(i: Issue)
    ensures AttachAsWritten([i], [Raised], 0) == Failure(NameError)
    ensures Attach([i], [Raised]) == [i.(aiSuggestions := None)]
  {
  }

  /** The page title: the first `title` element's text, stripped, when it has
      a single non-empty text; "N/A" otherwise. */
  function PageTitle(doc: Document): (t: string)
    ensures FirstNamed(doc.elements, "title").None? ==> t == UntitledPage
  {
    match FirstNamed(doc.elements, "title")
    case Some(e) =>
      if e.soleString.Some? && e.soleString.value != "" then Strip(e.soleString.value) else UntitledPage
    case None => UntitledPage
  }

  /** A title differs from "N/A" only when the page's first `title` element
      has a single non-empty text, and then it is that text stripped; a
      title of spaces alone reads as the empty string. */
  lemma PageTitleIff(doc: Document)
    ensures PageTitle(doc) != UntitledPage ==>
              exists k :: 0 <= k < |doc.elements| && doc.elements[k].name == "title"
                          && (forall j :: 0 <= j < k ==> doc.elements[j].name != "title")
                          && doc.elements[k].soleString.Some?
                          && PageTitle(doc) == Strip(doc.elements[k].soleString.value)
    ensures forall k :: 0 <= k < |doc.elements| && doc.elements[k].name == "title"
                        && (forall j :: 0 <= j < k ==> doc.elements[j].name != "title")
                        && doc.elements[k].soleString.Some? && doc.elements[k].soleString.value != ""
                        ==> PageTitle(doc) == Strip(doc.elements[k].soleString.value)
  {
    FirstNamedIsFirst(doc.elements, "title");
  }

  /** What the analysis returns: the issues, the page markup and the title. */
  datatype AnalysisOutput = AnalysisOutput(issues: seq<Issue>, html: string, title: string)

  /** The concurrent gathering, as the advisory service applied to each
      request in order. */
  function Gather(requests: seq<EnrichRequest>, service: EnrichRequest -> Outcome): (os: seq<Outcome>)
    ensures |os| == |requests| && forall k :: 0 <= k < |os| ==> os[k] == service(requests[k])
  {
    seq(|requests|, k requires 0 <= k < |requests| => service(requests[k]))
  }

  /** The whole analysis of a loaded page `doc`, given the luminance function,
      the scanner's report and the advisory service. It raises exactly when
      the media rule raises, and returns the page markup unchanged. */
  function RunFullAnalysis(doc: Document, lum: Luminance, results: ScanResults,
                           service: EnrichRequest -> Outcome): (r: Result<AnalysisOutput, AnalysisError>)
    ensures r.Failure? <==> CheckMediaCaptions(doc).Failure?
    ensures r.Failure? ==> r.error == MediaRuleError(CheckMediaCaptions(doc).error)
    ensures r.Success? ==> r.value.html == doc.source && r.value.title == PageTitle(doc)
  {
    match MergedIssues(doc, lum, results)
    case Failure(e) => Failure(MediaRuleError(e))
    case Success(merged) =>
      Success(AnalysisOutput(Attach(merged, Gather(EnrichmentRequests(merged), service)), doc.source, PageTitle(doc)))
  }

  /** The issues of a successful analysis are the merged list, each issue
      carrying the advisory the service gave for that issue's own request. */
  lemma AnalysisIssues(doc: Document, lum: Luminance, results: ScanResults, service: EnrichRequest -> Outcome)
    requires CheckMediaCaptions(doc).Success?
    ensures var merged := MergedIssues(doc, lum, results).value;
            var out := RunFullAnalysis(doc, lum, results, service).value.issues;
            |out| == |merged|
            && forall k :: 0 <= k < |merged| ==>
                 out[k].aiSuggestions == SuggestionOf(service(RequestFor(merged[k])))
                 && out[k].(aiSuggestions := None) == merged[k].(aiSuggestions := None)
  {
  }

  /** The scored summary of an analysis equals that of the merged list before
      any advisory was attached. */
  lemma AnalysisSummaryIgnoresAdvice(doc: Document, lum: Luminance, results: ScanResults,
                                     service: EnrichRequest -> Outcome)
    requires CheckMediaCaptions(doc).Success?
    ensures Summarize(RunFullAnalysis(doc, lum, results, service).value.issues)
            == Summarize(MergedIssues(doc, lum, results).value)
  {
    var merged := MergedIssues(doc, lum, results).value;
    var outcomes := Gather(EnrichmentRequests(merged), service);
    AttachKeepsSummary(merged, outcomes);
  }

  /** The whole analysis as the code runs it: the scanner's issues are minor,
      and an exception outcome or a rejected dictionary makes the attaching
      loop raise. Any exception reaches the outer handler, whose own logging
      call names the module that was never imported, so every failure
      surfaces as a `NameError`. */
  function RunFullAnalysisAsWritten(doc: Document, lum: Luminance, results: ScanResults,
                                    service: EnrichRequest -> Outcome): (r: Result<AnalysisOutput, AnalysisError>)
    ensures r.Failure? ==> r.error == NameError
    ensures CheckMediaCaptions(doc).Failure? ==> r.Failure?
    ensures r.Success? ==> r.value.html == doc.source && r.value.title == PageTitle(doc)
  {
    match MergedIssuesAsWritten(doc, lum, results)
    case Failure(_) => Failure(NameError)
    case Success(merged) =>
      match AttachAsWritten(merged, Gather(EnrichmentRequests(merged), service), 0)
      case Failure(_) => Failure(NameError)
      case Success(attached) => Success(AnalysisOutput(attached, doc.source, PageTitle(doc)))
  }

  /** Resetting severities does not change the requests sent. */
  lemma RequestsIgnoreSeverity(a: seq<Issue>, b: seq<Issue>)
    requires |a| == |b|
    requires forall k :: 0 <= k < |a| ==> a[k] == b[k] || a[k] == b[k].(severity := Minor)
    ensures EnrichmentRequests(a) == EnrichmentRequests(b)
  {
    var qa, qb := EnrichmentRequests(a), EnrichmentRequests(b);
    forall k | 0 <= k < |a|
      ensures qa[k] == qb[k]
    {
      assert a[k].description == b[k].description && a[k].help == b[k].help && a[k].nodes == b[k].nodes;
    }
  }

  /** Attaching as written to `w`, the list `m` with the severities of its
      first `n` issues reset, uses the requests of `m`: it raises exactly when
      one of their outcomes yields no advisory, and otherwise returns the
      corrected attach to `m` with those severities reset. */
  lemma AttachToReset(m: seq<Issue>, w: seq<Issue>, n: int, service: EnrichRequest -> Outcome)
    requires |w| == |m|
    requires forall k :: 0 <= k < |m| ==> w[k] == if k < n then m[k].(severity := Minor) else m[k]
    ensures var os := Gather(EnrichmentRequests(w), service);
            var r := AttachAsWritten(w, os, 0);
            (r.Failure? <==> exists k :: 0 <= k < |m| && SuggestionOf(service(RequestFor(m[k]))).None?)
            && (r.Success? ==>
                  var c := Attach(m, Gather(EnrichmentRequests(m), service));
                  |r.value| == |c|
                  && forall k :: 0 <= k < |c| ==> r.value[k] == if k < n then c[k].(severity := Minor) else c[k])
  {
    RequestsIgnoreSeverity(w, m);
    var os := Gather(EnrichmentRequests(m), service);
    AttachAsWrittenRaisesIff(w, os);
    assert forall k :: 0 <= k < |m| ==> os[k] == service(RequestFor(m[k]));
  }

  /** For scanner dictionaries of the right types, which are all this model
      can express: when the media rule succeeds, the analysis as written
      raises exactly when the service fails, or returns a dictionary the
      schema rejects, for the request of some merged issue. */
  lemma RunFullAnalysisAsWrittenRaisesIff(doc: Document, lum: Luminance, results: ScanResults,
                                          service: EnrichRequest -> Outcome)
    requires CheckMediaCaptions(doc).Success?
    ensures var m := MergedIssues(doc, lum, results).value;
            RunFullAnalysisAsWritten(doc, lum, results, service).Failure?
            <==> exists k :: 0 <= k < |m| && SuggestionOf(service(RequestFor(m[k]))).None?
  {
    var m := MergedIssues(doc, lum, results).value;
    var w := MergedIssuesAsWritten(doc, lum, results).value;
    AttachToReset(m, w, |results.violations.GetOr([])|, service);
  }

  /** A successful analysis as written returns what the corrected analysis
      returns, except that the scanner's issues are all minor. */
  lemma AsWrittenIsCorrectedWithMinorScanner(doc: Document, lum: Luminance, results: ScanResults,
                                             service: EnrichRequest -> Outcome)
    requires RunFullAnalysisAsWritten(doc, lum, results, service).Success?
    ensures var w := RunFullAnalysisAsWritten(doc, lum, results, service).value;
            var c := RunFullAnalysis(doc, lum, results, service);
            c.Success? && w.html == c.value.html && w.title == c.value.title
            && |w.issues| == |c.value.issues|
            && forall k :: 0 <= k < |w.issues| ==>
                 w.issues[k] == if k < |results.violations.GetOr([])| then c.value.issues[k].(severity := Minor)
                                else c.value.issues[k]
  {
    var m := MergedIssues(doc, lum, results).value;
    var w := MergedIssuesAsWritten(doc, lum, results).value;
    AttachToReset(m, w, |results.violations.GetOr([])|, service);
  }
}
