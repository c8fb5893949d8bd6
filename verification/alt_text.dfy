/** Images whose `alt` attribute is missing, empty or whitespace-only. */
module AltText {
  import opened Wrappers
  import opened Text
  import opened Seqs
  import opened Dom
  import opened Schemas
  import opened RuleEngine

  const AltId := "custom-image-alt-missing"

  predicate IsImage(e: Element) {
    e.name == "img"
  }

  /** The rule's decision for one element. */
  predicate MissingAlt(e: Element) {
    IsImage(e) && (Attr(e, "alt").None? || IsBlank(Attr(e, "alt").value))
  }

  function AltFinding(e: Element): Issue {
    NewIssue(AltId, Prose(AltId, "description"), Prose(AltId, "help"), Critical,
             [NewNode([e.name], Some(e.markup))], Some(RuleAdvice(AltId, e.markup)))
  }

  /** One critical finding per failing image, in document order, each naming
      that image's markup under the target `img`. */
  function CheckAltText(doc: Document): (r: seq<Issue>)
    ensures |r| == |Filter(doc.elements, MissingAlt)|
    ensures forall k :: 0 <= k < |r| ==>
              r[k].id == AltId && r[k].severity == Critical
              && r[k].nodes == [NewNode(["img"], Some(Filter(doc.elements, MissingAlt)[k].markup))]
  {
    Collect(doc.elements, MissingAlt, AltFinding)
  }

  /** A single element is reported exactly when it is an `img` whose `alt` is
      absent or made only of whitespace (the empty string included). */
  lemma AltDecision(source: string, e: Element)
    ensures |CheckAltText(Document(source, [e]))|
            == (if e.name == "img" && ("alt" !in e.attrs || AllSpace(e.attrs["alt"])) then 1 else 0)
  {
    if "alt" in e.attrs {
      BlankIffAllSpace(e.attrs["alt"]);
    }
  }

  /** Only `img` elements are examined. */
  lemma AltOnlyImages(doc: Document)
    ensures CheckAltText(doc) == CheckAltText(doc.(elements := Filter(doc.elements, IsImage)))
  {
    CollectRestrict(doc.elements, IsImage, MissingAlt, AltFinding);
  }

  /** Findings follow document order: a page split in two reports the first
      part's images before the second's. */
  lemma AltDocumentOrder(source: string, a: seq<Element>, b: seq<Element>)
    ensures CheckAltText(Document(source, a + b))
            == CheckAltText(Document(source, a)) + CheckAltText(Document(source, b))
  {
    CollectAppend(a, b, MissingAlt, AltFinding);
  }
}
