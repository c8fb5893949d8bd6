/** The report's value types: advisory, evidence node, issue, summary and the
    full analysis result, with the defaults and validation the schema applies. */
module Schemas {
  import opened Wrappers

  /** Remediation advice; both texts are mandatory fields. */
  datatype AiSuggestion = AiSuggestion(shortFix: string, detailedFix: string)

  /** A dictionary offered to the advisory schema, reduced to the two keys it
      reads: `None` stands for a key that is missing or holds no string. */
  datatype SuggestionData = SuggestionData(shortFix: Option<string>, detailedFix: Option<string>)

  /** Validating a dictionary as an advisory: it succeeds only when both
      mandatory texts are present, and then carries exactly those texts. */
  function ParseSuggestion(d: SuggestionData): (r: Option<AiSuggestion>)
    ensures r.Some? <==> d.shortFix.Some? && d.detailedFix.Some?
    ensures r.Some? ==> r.value.shortFix == d.shortFix.value && r.value.detailedFix == d.detailedFix.value
  {
    if d.shortFix.Some? && d.detailedFix.Some? then
      Some(AiSuggestion(d.shortFix.value, d.detailedFix.value))
    else
      None
  }

  /** One implicated element: `target` is mandatory, the rest optional. */
  datatype IssueNode = IssueNode(
    html: Option<string>,
    target: seq<string>,
    snippet: Option<string>,
    failureSummary: Option<string>,
    xpath: Option<string>)

  /** An evidence node built from its mandatory target and, optionally, its
      markup; every other optional field takes the schema default. */
  function NewNode(target: seq<string>, html: Option<string> := None): (n: IssueNode)
    ensures n.target == target && n.html == html
    ensures n.snippet.None? && n.failureSummary.None? && n.xpath.None?
  {
    IssueNode(html, target, None, None, None)
  }

  datatype Issue = Issue(
    id: string,
    description: string,
    help: string,
    helpUrl: Option<string>,
    severity: string,
    tags: seq<string>,
    nodes: seq<IssueNode>,
    aiSuggestions: Option<AiSuggestion>)

  const Critical := "critical"
  const Serious := "serious"
  const Moderate := "moderate"
  const Minor := "minor"
  const Low := "low"

  /** An issue built from its four mandatory fields; `nodes` and the advisory
      may be given, `tags` and `helpUrl` take the schema defaults. */
  function NewIssue(id: string, description: string, help: string, severity: string,
                    nodes: seq<IssueNode> := [], aiSuggestions: Option<AiSuggestion> := None): (i: Issue)
    ensures i.id == id && i.description == description && i.help == help && i.severity == severity
    ensures i.nodes == nodes && i.aiSuggestions == aiSuggestions
    ensures i.tags == [] && i.helpUrl.None?
  {
    Issue(id, description, help, None, severity, [], nodes, aiSuggestions)
  }

  datatype AnalysisSummary = AnalysisSummary(
    totalIssues: int,
    criticalIssues: int,
    moderateIssues: int,
    minorIssues: int,
    score: Option<int>)

  /** The schema's bound on the score: when present it lies in 0..100. */
  predicate ScoreInRange(s: AnalysisSummary) {
    s.score.Some? ==> 0 <= s.score.value <= 100
  }

  /** The stored report, without its database id and timestamp. */
  datatype AnalysisResult = AnalysisResult(
    userId: string,
    url: string,
    summary: AnalysisSummary,
    issues: seq<Issue>,
    pageTitle: Option<string>)
}
