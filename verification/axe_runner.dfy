/** The reshaping of the scanner's report into issue-shaped dictionaries.
    Dictionaries are modelled with one optional field per key read anywhere
    downstream; `None` stands for a key that is absent. */
module AxeRunner {
  import opened Wrappers

  /** A node object: the markup, the selector path and three optional texts. */
  datatype NodeDict = NodeDict(
    html: Option<string>,
    target: Option<seq<string>>,
    snippet: Option<string>,
    failureSummary: Option<string>,
    xpath: Option<string>)

  /** A violation object, raw from the scanner or after formatting. */
  datatype ViolationDict = ViolationDict(
    id: Option<string>,
    description: Option<string>,
    help: Option<string>,
    helpUrl: Option<string>,
    impact: Option<string>,
    severity: Option<string>,
    tags: Option<seq<string>>,
    nodes: Option<seq<NodeDict>>)

  /** The scanner's report, reduced to its `violations` key. */
  datatype ScanResults = ScanResults(violations: Option<seq<ViolationDict>>)

  const UnknownId := "unknown"
  const NoDescription := "No description"
  const NoHelpMessage := "No help message"
  const DefaultImpact := "minor"

  /** A formatted node keeps the markup and the selector path (empty when the
      scanner gave none) and nothing else. */
  function FormatNode(n: NodeDict): (f: NodeDict)
    ensures f.html == n.html && f.target == Some(n.target.GetOr([]))
    ensures f.snippet.None? && f.failureSummary.None? && f.xpath.None?
  {
    NodeDict(n.html, Some(n.target.GetOr([])), None, None, None)
  }

  /** A formatted violation: id, description and help with their defaults, the
      scanner's impact stored under `severity`, the formatted nodes; no impact,
      help URL or tags are carried over. The advisory key, set to `None`, is
      read by nothing downstream and is not modelled. */
  function FormatViolation(v: ViolationDict): (f: ViolationDict)
    ensures f.id == Some(v.id.GetOr(UnknownId))
    ensures f.description == Some(v.description.GetOr(NoDescription))
    ensures f.help == Some(v.help.GetOr(NoHelpMessage))
    ensures f.severity == Some(v.impact.GetOr(DefaultImpact))
    ensures f.impact.None? && f.helpUrl.None? && f.tags.None?
    ensures f.nodes.Some? && |f.nodes.value| == |v.nodes.GetOr([])|
    ensures forall k :: 0 <= k < |f.nodes.value| ==> f.nodes.value[k] == FormatNode(v.nodes.GetOr([])[k])
  {
    var ns := v.nodes.GetOr([]);
    ViolationDict(Some(v.id.GetOr(UnknownId)), Some(v.description.GetOr(NoDescription)),
                  Some(v.help.GetOr(NoHelpMessage)), None, None, Some(v.impact.GetOr(DefaultImpact)), None,
                  Some(seq(|ns|, k requires 0 <= k < |ns| => FormatNode(ns[k]))))
  }

  /** The formatting loop: one formatted dictionary per violation, in the
      scanner's order; a report without `violations` gives none. */
  function FormatViolations(results: ScanResults): (r: seq<ViolationDict>)
    ensures |r| == |results.violations.GetOr([])|
    ensures forall k :: 0 <= k < |r| ==> r[k] == FormatViolation(results.violations.GetOr([])[k])
  {
    var vs := results.violations.GetOr([]);
    seq(|vs|, k requires 0 <= k < |vs| => FormatViolation(vs[k]))
  }

  /** The formatting loop written as a loop, building the list one violation at a time. */
  method RunAxeScan(results: ScanResults) returns (formatted: seq<ViolationDict>)
    ensures |formatted| == |results.violations.GetOr([])|
    ensures forall k :: 0 <= k < |formatted| ==>
              var v := results.violations.GetOr([])[k];
              formatted[k].id == Some(v.id.GetOr(UnknownId))
              && formatted[k].severity == Some(v.impact.GetOr(DefaultImpact))
              && formatted[k].nodes.Some? && |formatted[k].nodes.value| == |v.nodes.GetOr([])|
    ensures formatted == FormatViolations(results)
  {
    var violations := results.violations.GetOr([]);
    formatted := [];
    var i := 0;
    while i < |violations|
      invariant 0 <= i <= |violations|
      invariant formatted == FormatViolations(ScanResults(Some(violations[..i])))
    {
      assert violations[..i + 1] == violations[..i] + [violations[i]];
      formatted := formatted + [FormatViolation(violations[i])];
      i := i + 1;
    }
    assert violations[..i] == violations;
  }

  /** A report without a `violations` key formats to nothing, as does an empty one. */
  lemma MissingViolationsEmpty(results: ScanResults)
    requires results.violations.None? || results.violations == Some([])
    ensures FormatViolations(results) == []
  {
  }

  /** Formatting distributes over a split of the violations: order is kept and
      no violation is dropped, merged or reordered. */
  lemma FormatAppend(a: seq<ViolationDict>, b: seq<ViolationDict>)
    ensures FormatViolations(ScanResults(Some(a + b)))
            == FormatViolations(ScanResults(Some(a))) + FormatViolations(ScanResults(Some(b)))
  {
    var l, m, r := FormatViolations(ScanResults(Some(a + b))), FormatViolations(ScanResults(Some(a))),
                   FormatViolations(ScanResults(Some(b)));
    assert forall k :: 0 <= k < |l| ==> l[k] == (m + r)[k] by {
      forall k | 0 <= k < |l|
        ensures l[k] == (m + r)[k]
      {
        if k < |a| {
          assert (a + b)[k] == a[k];
        } else {
          assert (a + b)[k] == b[k - |a|];
        }
      }
    }
  }

  /** Formatting an already formatted dictionary loses its severity: the
      formatter reads `impact`, which its own output does not carry. */
  lemma ReformattingResetsSeverity(v: ViolationDict)
    ensures FormatViolation(FormatViolation(v)).severity == Some(DefaultImpact)
    ensures FormatViolation(FormatViolation(v)).id == FormatViolation(v).id
  {
  }
}
