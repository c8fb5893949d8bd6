/** Form controls without an accessible name: no `<label for=…>` pointing at
    their id and no ARIA name. */
module Labels {
  import opened Wrappers
  import opened Text
  import opened Seqs
  import opened Dom
  import opened Schemas
  import opened RuleEngine

  const LabelId := "custom-missing-form-label"

  predicate IsFormControl(e: Element) {
    e.name in {"input", "textarea", "select"}
  }

  /** `element.get('type', '').lower()` */
  function TypeOf(e: Element): string {
    ToLower(Attr(e, "type").GetOr(""))
  }

  /** Controls whose type needs no visible label and is skipped. */
  predicate ExemptType(e: Element) {
    TypeOf(e) in {"hidden", "submit", "reset", "button", "image"}
  }

  /** Some `label` element of the page has a `for` attribute equal to the
      control's non-empty id. */
  predicate HasLabelFor(es: seq<Element>, e: Element) {
    Truthy(Attr(e, "id"))
    && exists k :: 0 <= k < |es| && es[k].name == "label" && Attr(es[k], "for") == Attr(e, "id")
  }

  /** The rule's decision for one element of the page `es`. */
  predicate Unlabelled(es: seq<Element>, e: Element) {
    IsFormControl(e) && !ExemptType(e) && !HasLabelFor(es, e) && !HasAriaName(e)
  }

  /** The decision as a closure over the page. */
  function UnlabelledIn(es: seq<Element>): Element -> bool {
    e => Unlabelled(es, e)
  }

  predicate HasPlaceholder(e: Element) {
    Truthy(Attr(e, "placeholder"))
  }

  /** The finding; its description and help depend on whether a placeholder is
      present, its detailed fix quotes the control's markup. */
  function LabelFinding(e: Element): Issue {
    var variant := if HasPlaceholder(e) then " (placeholder only)" else "";
    NewIssue(LabelId, Prose(LabelId, "description" + variant), Prose(LabelId, "help" + variant), Critical,
             [NewNode([e.name], Some(e.markup))], Some(RuleAdvice(LabelId, variant + e.markup)))
  }

  /** One critical finding per unlabelled control, in document order, each
      naming the control's markup under its own tag name. */
  function CheckFormLabels(doc: Document): (r: seq<Issue>)
    ensures |r| == |Filter(doc.elements, UnlabelledIn(doc.elements))|
    ensures forall k :: 0 <= k < |r| ==>
              var e := Filter(doc.elements, UnlabelledIn(doc.elements))[k];
              r[k].id == LabelId && r[k].severity == Critical
              && r[k].nodes == [NewNode([e.name], Some(e.markup))]
              && IsFormControl(e) && e in doc.elements
  {
    Collect(doc.elements, UnlabelledIn(doc.elements), LabelFinding)
  }

  /** Only `input`, `textarea` and `select` elements are examined. */
  lemma LabelsOnlyFormControls(doc: Document)
    ensures CheckFormLabels(doc)
            == Collect(Filter(doc.elements, IsFormControl), UnlabelledIn(doc.elements), LabelFinding)
  {
    CollectRestrict(doc.elements, IsFormControl, UnlabelledIn(doc.elements), LabelFinding);
  }

  /** A placeholder never stands in for a label: adding, changing or removing
      one changes the finding's wording but not whether the control is flagged. */
  lemma PlaceholderIsNoLabel(es: seq<Element>, e: Element, p: string)
    ensures Unlabelled(es, e) <==> Unlabelled(es, e.(attrs := e.attrs["placeholder" := p]))
    ensures Unlabelled(es, e) <==> Unlabelled(es, e.(attrs := e.attrs - {"placeholder"}))
  {
    var e1, e2 := e.(attrs := e.attrs["placeholder" := p]), e.(attrs := e.attrs - {"placeholder"});
    assert Attr(e1, "type") == Attr(e, "type") && Attr(e2, "type") == Attr(e, "type");
    assert Attr(e1, "id") == Attr(e, "id") && Attr(e2, "id") == Attr(e, "id");
    assert Attr(e1, "aria-label") == Attr(e, "aria-label") && Attr(e2, "aria-label") == Attr(e, "aria-label");
    assert Attr(e1, "aria-labelledby") == Attr(e, "aria-labelledby")
           && Attr(e2, "aria-labelledby") == Attr(e, "aria-labelledby");
  }

  /** A control is flagged exactly when it is an `input`, `textarea` or `select`
      whose lower-cased type is not one of the five exempt ones, that no label
      on the page points at through a non-empty id, and that has neither a
      non-empty `aria-label` nor a non-empty `aria-labelledby`. */
  lemma LabelDecision(es: seq<Element>, e: Element)
    ensures Unlabelled(es, e) <==>
            e.name in {"input", "textarea", "select"}
            && ToLower(if "type" in e.attrs then e.attrs["type"] else "") !in {"hidden", "submit", "reset", "button", "image"}
            && !("id" in e.attrs && e.attrs["id"] != ""
                 && exists l :: l in es && l.name == "label" && "for" in l.attrs && l.attrs["for"] == e.attrs["id"])
            && !("aria-label" in e.attrs && e.attrs["aria-label"] != "")
            && !("aria-labelledby" in e.attrs && e.attrs["aria-labelledby"] != "")
  {
    if "id" in e.attrs && e.attrs["id"] != "" {
      if exists l :: l in es && l.name == "label" && "for" in l.attrs && l.attrs["for"] == e.attrs["id"] {
        var l :| l in es && l.name == "label" && "for" in l.attrs && l.attrs["for"] == e.attrs["id"];
        var k :| 0 <= k < |es| && es[k] == l;
        assert Attr(es[k], "for") == Attr(e, "id");
      }
      if HasLabelFor(es, e) {
        var k :| 0 <= k < |es| && es[k].name == "label" && Attr(es[k], "for") == Attr(e, "id");
        assert es[k] in es;
      }
    }
  }

  /** The placeholder variant of the wording is used exactly when the control
      has a non-empty placeholder. */
  lemma PlaceholderWording(e: Element)
    ensures LabelFinding(e).description == Prose(LabelId, "description (placeholder only)")
            <==> HasPlaceholder(e)
  {
    if !HasPlaceholder(e) {
      var d := LabelFinding(e).description;
      assert |d| < |Prose(LabelId, "description (placeholder only)")|;
    }
  }

  /** A hidden input, in any letter case, is never reported. */
  lemma HiddenInputIgnored(es: seq<Element>, e: Element)
    requires e.name == "input" && Attr(e, "type") == Some("HIDDEN")
    ensures !Unlabelled(es, e)
  {
    assert TypeOf(e) == "hidden";
  }

  /** A text input with an id that a label on the same page points at is not
      reported; the same input alone on the page is. */
  lemma LabelForClearsInput(source: string, input: Element, lab: Element)
    requires input == Element("input", map["type" := "email", "id" := "email"], "", "<input>", None, [])
    requires lab == Element("label", map["for" := "email"], "Email:", "<label for=email>Email:</label>", Some("Email:"), [])
    ensures CheckFormLabels(Document(source, [lab, input])) == []
    ensures |CheckFormLabels(Document(source, [input]))| == 1
  {
    assert TypeOf(input) == "email";
    assert HasLabelFor([lab, input], input) by {
      assert [lab, input][0] == lab;
    }
    assert !Unlabelled([lab, input], lab);
    CollectEmptyIff([lab, input], UnlabelledIn([lab, input]), LabelFinding);
    assert Unlabelled([input], input);
  }
}
