/** The page's `html` element and its `lang` attribute. */
module DocumentLanguage {
  import opened Wrappers
  import opened Text
  import opened Dom
  import opened Schemas
  import opened RuleEngine

  const MissingHtmlId := "custom-missing-html-tag"
  const MissingLangId := "custom-missing-lang-attribute"

  /** `html_content[:100]` */
  function Head(source: string): (r: string)
    ensures |r| == if |source| < 100 then |source| else 100
    ensures r == source[..|r|]
  {
    if |source| <= 100 then source else source[..100]
  }

  function MissingHtmlIssue(source: string): Issue {
    NewIssue(MissingHtmlId, Prose(MissingHtmlId, "description"), Prose(MissingHtmlId, "help"), Critical,
             [NewNode(["document"], Some(Head(source)))], Some(RuleAdvice(MissingHtmlId, "")))
  }

  function MissingLangIssue(html: Element): Issue {
    NewIssue(MissingLangId, Prose(MissingLangId, "description"), Prose(MissingLangId, "help"), Critical,
             [NewNode(["html"], Some(html.markup))], Some(RuleAdvice(MissingLangId, "")))
  }

  /** A `lang` that is absent, empty or only whitespace. */
  predicate LangMissing(html: Element) {
    var lang := Attr(html, "lang");
    !Truthy(lang) || IsBlank(lang.value)
  }

  /** At most one finding: no `html` element at all, or one whose `lang` is
      missing; the first `html` element is the one examined. */
  function CheckDocumentLanguage(doc: Document): (r: seq<Issue>)
    ensures |r| <= 1
    ensures forall k :: 0 <= k < |r| ==> r[k].severity == Critical
    ensures FirstNamed(doc.elements, "html").None? ==> r == [MissingHtmlIssue(doc.source)]
    ensures FirstNamed(doc.elements, "html").Some? ==>
              r == if LangMissing(FirstNamed(doc.elements, "html").value)
                   then [MissingLangIssue(FirstNamed(doc.elements, "html").value)] else []
  {
    match FirstNamed(doc.elements, "html")
    case None => [MissingHtmlIssue(doc.source)]
    case Some(html) => if LangMissing(html) then [MissingLangIssue(html)] else []
  }

  /** A page without an `html` element gets the missing-html finding, whose
      node shows the first hundred characters of the page under the target
      `document`; `lang` is not looked at. */
  lemma NoHtmlElement(doc: Document)
    requires forall k :: 0 <= k < |doc.elements| ==> doc.elements[k].name != "html"
    ensures var r := CheckDocumentLanguage(doc);
            |r| == 1 && r[0].id == MissingHtmlId
            && r[0].nodes == [NewNode(["document"], Some(doc.source[..if |doc.source| < 100 then |doc.source| else 100]))]
  {
  }

  /** For the page's first `html` element, wherever it stands, the
      missing-lang finding appears exactly when its `lang` is absent or made
      only of whitespace (the empty value included). */
  lemma LangDecision(doc: Document, k: nat)
    requires k < |doc.elements| && doc.elements[k].name == "html"
    requires forall j :: 0 <= j < k ==> doc.elements[j].name != "html"
    ensures var html := doc.elements[k];
            var r := CheckDocumentLanguage(doc);
            (r != [] <==> ("lang" !in html.attrs || AllSpace(html.attrs["lang"])))
            && (r != [] ==> r[0].id == MissingLangId && r[0].nodes[0].target == ["html"])
  {
    var html := doc.elements[k];
    FirstNamedIsFirst(doc.elements, "html");
    assert FirstNamed(doc.elements, "html") == Some(html);
    if "lang" in html.attrs {
      BlankIffAllSpace(html.attrs["lang"]);
    }
  }

  /** `lang="en"` on the `html` element gives no finding. */
  lemma LangEnClean(source: string, html: Element)
    requires html.name == "html" && html.attrs == map["lang" := "en"]
    ensures CheckDocumentLanguage(Document(source, [html])) == []
  {
    var lang := html.attrs["lang"];
    assert lang[0] == 'e' && !IsSpace(lang[0]);
    LangDecision(Document(source, [html]), 0);
  }

  /** `lang="  "` on the `html` element gives one finding. */
  lemma LangBlankReported(source: string, html: Element)
    requires html.name == "html" && html.attrs == map["lang" := "  "]
    ensures |CheckDocumentLanguage(Document(source, [html]))| == 1
  {
    var lang := html.attrs["lang"];
    assert |lang| == 2 && lang[0] == ' ' && lang[1] == ' ';
    assert AllSpace(lang);
    LangDecision(Document(source, [html]), 0);
  }
}
