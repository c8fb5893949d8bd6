/** The document the rules read: the parser's output reduced to what the rules
    consult. Parsing itself is not modelled. */
module Dom {
  import opened Wrappers

  /** One element: tag name, attributes, its text with every piece stripped and
      joined (`get_text(strip=True)`), its serialised markup (`str(element)`), its
      single text child (`.string`) if it has exactly one, and every element
      nested inside it in document order. */
  datatype Element = Element(
    name: string,
    attrs: map<string, string>,
    text: string,
    markup: string,
    soleString: Option<string>,
    descendants: seq<Element>)

  /** The page source and all of its elements in document order. */
  datatype Document = Document(source: string, elements: seq<Element>)

  /** `element.get(key)` */
  function Attr(e: Element, key: string): Option<string> {
    if key in e.attrs then Some(e.attrs[key]) else None
  }

  /** Python truthiness of an optional string: present and non-empty. */
  predicate Truthy(v: Option<string>) {
    v.Some? && v.value != ""
  }

  /** A non-empty `aria-label` or `aria-labelledby` attribute. */
  predicate HasAriaName(e: Element) {
    Truthy(Attr(e, "aria-label")) || Truthy(Attr(e, "aria-labelledby"))
  }

  /** `soup.find(name)`: the first element with that tag name. */
  function FirstNamed(es: seq<Element>, name: string): (r: Option<Element>)
    ensures r.None? <==> forall k :: 0 <= k < |es| ==> es[k].name != name
    ensures r.Some? ==> r.value.name == name && r.value in es
  {
    if es == [] then None
    else if es[0].name == name then Some(es[0])
    else FirstNamed(es[1..], name)
  }

  /** The element `FirstNamed` finds is the one at the first position with that name. */
  lemma {:induction false} FirstNamedIsFirst(es: seq<Element>, name: string)
    ensures FirstNamed(es, name).Some? ==>
              exists k :: 0 <= k < |es| && es[k] == FirstNamed(es, name).value
                          && forall j :: 0 <= j < k ==> es[j].name != name
    ensures forall k :: 0 <= k < |es| && es[k].name == name && (forall j :: 0 <= j < k ==> es[j].name != name)
                        ==> FirstNamed(es, name) == Some(es[k])
    decreases |es|
  {
    if es != [] && es[0].name != name {
      FirstNamedIsFirst(es[1..], name);
      if FirstNamed(es, name).Some? {
        var k :| 0 <= k < |es[1..]| && es[1..][k] == FirstNamed(es, name).value
                 && forall j :: 0 <= j < k ==> es[1..][j].name != name;
        assert es[k + 1] == FirstNamed(es, name).value;
      }
      forall k | 0 <= k < |es| && es[k].name == name && (forall j :: 0 <= j < k ==> es[j].name != name)
        ensures FirstNamed(es, name) == Some(es[k])
      {
        assert k > 0;
        assert forall j :: 0 <= j < k - 1 ==> es[1..][j].name != name by {
          forall j | 0 <= j < k - 1 ensures es[1..][j].name != name {
            assert es[1..][j] == es[j + 1];
          }
        }
        assert es[1..][k - 1] == es[k];
      }
    }
  }
}
