/** Links and buttons with no visible text and no ARIA name. */
module EmptyInteractive {
  import opened Wrappers
  import opened Text
  import opened Seqs
  import opened Dom
  import opened Schemas
  import opened RuleEngine

  const EmptyIdPrefix := "custom-empty-"

  predicate IsInteractive(e: Element) {
    e.name in {"a", "button"}
  }

  /** The rule's decision: an `a` or `button` whose stripped text is empty and
      that has no ARIA name. */
  predicate EmptyInteractiveElement(e: Element) {
    IsInteractive(e) && e.text == "" && !HasAriaName(e)
  }

  /** The finding names the element's own tag, in the id and as the target;
      the advice quotes its markup. */
  function EmptyFinding(e: Element): Issue {
    var id := EmptyIdPrefix + e.name;
    NewIssue(id, Prose(id, "description"), Prose(id, "help"), Critical,
             [NewNode([e.name], Some(e.markup))], Some(RuleAdvice(id, e.markup)))
  }

  /** One critical finding per empty link or button, in document order, with id
      `custom-empty-a` or `custom-empty-button` after its tag. */
  function CheckEmptyInteractiveElements(doc: Document): (r: seq<Issue>)
    ensures |r| == |Filter(doc.elements, EmptyInteractiveElement)|
    ensures forall k :: 0 <= k < |r| ==>
              var e := Filter(doc.elements, EmptyInteractiveElement)[k];
              r[k].severity == Critical && e.name in {"a", "button"}
              && r[k].id == EmptyIdPrefix + e.name
              && r[k].nodes == [NewNode([e.name], Some(e.markup))]
  {
    Collect(doc.elements, EmptyInteractiveElement, EmptyFinding)
  }

  /** The two possible ids tell links and buttons apart. */
  lemma EmptyIdNamesTag(e: Element)
    requires IsInteractive(e)
    ensures EmptyFinding(e).id == "custom-empty-a" <==> e.name == "a"
    ensures EmptyFinding(e).id == "custom-empty-button" <==> e.name == "button"
  {
    if e.name == "button" {
      assert |EmptyFinding(e).id| != |"custom-empty-a"|;
    } else {
      assert |EmptyFinding(e).id| != |"custom-empty-button"|;
    }
  }

  /** Only `a` and `button` elements are examined. */
  lemma EmptyOnlyInteractive(doc: Document)
    ensures CheckEmptyInteractiveElements(doc)
            == CheckEmptyInteractiveElements(doc.(elements := Filter(doc.elements, IsInteractive)))
  {
    CollectRestrict(doc.elements, IsInteractive, EmptyInteractiveElement, EmptyFinding);
  }

  /** A single element is reported exactly when it is an `a` or `button` with
      empty stripped text and neither a non-empty `aria-label` nor a non-empty
      `aria-labelledby`. */
  lemma EmptyDecision(source: string, e: Element)
    ensures |CheckEmptyInteractiveElements(Document(source, [e]))|
            == (if (e.name == "a" || e.name == "button") && e.text == ""
                   && !("aria-label" in e.attrs && e.attrs["aria-label"] != "")
                   && !("aria-labelledby" in e.attrs && e.attrs["aria-labelledby"] != "")
                then 1 else 0)
  {
    assert Filter([e], EmptyInteractiveElement) == if EmptyInteractiveElement(e) then [e] else [];
  }

  /** A link whose raw text is only whitespace is reported under
      `custom-empty-a`; an icon button named by `aria-label` is not reported. */
  lemma WhitespaceLinkAndIconButton(source: string, raw: string, link: Element, button: Element)
    requires AllSpace(raw)
    requires link.name == "a" && link.attrs == map["href" := "#"] && link.text == Strip(raw)
    requires button.name == "button" && button.attrs == map["aria-label" := "Close dialog"]
    ensures var r := CheckEmptyInteractiveElements(Document(source, [link, button]));
            |r| == 1 && r[0].id == "custom-empty-a"
  {
    WhitespaceLinkFlagged(raw, link);
    AriaLabelledButtonPasses(button);
    assert Filter([link, button], EmptyInteractiveElement) == [link] by {
      assert [link, button][1..] == [button];
      assert [button][1..] == [];
    }
  }

  lemma WhitespaceLinkFlagged(raw: string, link: Element)
    requires AllSpace(raw)
    requires link.name == "a" && link.attrs == map["href" := "#"] && link.text == Strip(raw)
    ensures EmptyInteractiveElement(link)
  {
    BlankIffAllSpace(raw);
    assert "aria-label" !in link.attrs && "aria-labelledby" !in link.attrs;
  }

  lemma AriaLabelledButtonPasses(button: Element)
    requires button.name == "button" && button.attrs == map["aria-label" := "Close dialog"]
    ensures !EmptyInteractiveElement(button)
  {
    assert Attr(button, "aria-label") == Some("Close dialog");
  }
}
