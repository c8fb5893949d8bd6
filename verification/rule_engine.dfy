/** What the per-element rules share: walk the elements in document order and
    emit one issue for every element the rule's decision flags. */
module RuleEngine {
  import opened Seqs
  import opened Dom
  import opened Schemas

  /** Stand-in for a rule's human-readable text (description, help, short fix):
      the wording is not modelled, only which rule and which part it is. */
  function Prose(ruleId: string, part: string): string {
    ruleId + " " + part
  }

  /** The advice a rule attaches itself; its detailed text quotes the markup
      it names, which `mention` carries. */
  function RuleAdvice(ruleId: string, mention: string): AiSuggestion {
    AiSuggestion(Prose(ruleId, "short fix"), Prose(ruleId, "detailed fix") + mention)
  }

  /** The id and severity of each issue, in order: what a rule decided,
      without the markup it quotes. */
  function Ids(r: seq<Issue>): (d: seq<(string, string)>)
    ensures |d| == |r| && forall k :: 0 <= k < |r| ==> d[k] == (r[k].id, r[k].severity)
  {
    seq(|r|, k requires 0 <= k < |r| => (r[k].id, r[k].severity))
  }

  lemma IdsAppend(a: seq<Issue>, b: seq<Issue>)
    ensures Ids(a + b) == Ids(a) + Ids(b)
  {
  }

  /** One issue per flagged element, in document order. */
  function Collect(es: seq<Element>, flagged: Element -> bool, finding: Element -> Issue): (r: seq<Issue>)
    ensures |r| == |Filter(es, flagged)|
    ensures forall k :: 0 <= k < |r| ==> r[k] == finding(Filter(es, flagged)[k])
    decreases |es|
  {
    if es == [] then []
    else (if flagged(es[0]) then [finding(es[0])] else []) + Collect(es[1..], flagged, finding)
  }

  /** A rule run over two runs of elements yields the two outputs in order. */
  lemma {:induction false} CollectAppend(a: seq<Element>, b: seq<Element>,
                                         flagged: Element -> bool, finding: Element -> Issue)
    ensures Collect(a + b, flagged, finding) == Collect(a, flagged, finding) + Collect(b, flagged, finding)
    decreases |a|
  {
    if a == [] {
      assert a + b == b;
    } else {
      assert (a + b)[0] == a[0];
      assert (a + b)[1..] == a[1..] + b;
      CollectAppend(a[1..], b, flagged, finding);
    }
  }

  /** A rule only looks at the elements its decision can flag: removing every
      element outside a weaker condition beforehand changes nothing. */
  lemma CollectRestrict(es: seq<Element>, examined: Element -> bool,
                        flagged: Element -> bool, finding: Element -> Issue)
    requires forall e :: flagged(e) ==> examined(e)
    ensures Collect(Filter(es, examined), flagged, finding) == Collect(es, flagged, finding)
  {
    FilterOfFilter(es, flagged, examined);
  }

  /** A rule is silent exactly when it flags no element. */
  lemma CollectEmptyIff(es: seq<Element>, flagged: Element -> bool, finding: Element -> Issue)
    ensures Collect(es, flagged, finding) == [] <==> forall k :: 0 <= k < |es| ==> !flagged(es[k])
  {
    var f := Filter(es, flagged);
    if f != [] {
      assert f[0] in es;
    }
  }
}
