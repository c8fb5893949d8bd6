/** Links whose lower-cased text is a generic phrase such as "click here" or
    "read more". */
module DescriptiveLinkText {
  import opened Wrappers
  import opened Text
  import opened Seqs
  import opened Dom
  import opened Schemas
  import opened RuleEngine

  const LinkId := "custom-non-descriptive-link-text"

  /** The phrases, in the order they are tried. Removing the literal `\b` and
      stripping leaves each of them unchanged, so they are compared as listed. */
  const Phrases: seq<string> := ["click here", "read more", "learn more", "find out more", "details", "here", "more"]

  /** `soup.find_all('a', href=True)`: links carrying an `href` attribute, whatever its value. */
  predicate IsLink(e: Element) {
    e.name == "a" && "href" in e.attrs
  }

  /** The test one phrase applies: equality, or containment for "more" and "here". */
  predicate PhraseMatches(text: string, phrase: string) {
    text == phrase
    || (phrase == "more" && Contains(text, "more"))
    || (phrase == "here" && Contains(text, "here"))
  }

  /** The loop over the phrases that stops at the first one that matches. */
  function ScanPhrases(text: string, phrases: seq<string>): (found: bool)
    decreases |phrases|
  {
    if phrases == [] then false
    else if PhraseMatches(text, phrases[0]) then true
    else ScanPhrases(text, phrases[1..])
  }

  /** The scan finds a match exactly when some phrase of the list matches. */
  lemma {:induction false} ScanFindsAnyMatch(text: string, phrases: seq<string>)
    ensures ScanPhrases(text, phrases) <==> exists i :: 0 <= i < |phrases| && PhraseMatches(text, phrases[i])
    decreases |phrases|
  {
    if phrases != [] {
      ScanFindsAnyMatch(text, phrases[1..]);
      if exists i :: 0 <= i < |phrases| && PhraseMatches(text, phrases[i]) {
        var i :| 0 <= i < |phrases| && PhraseMatches(text, phrases[i]);
        if i > 0 {
          assert phrases[1..][i - 1] == phrases[i];
        }
      }
      if ScanPhrases(text, phrases[1..]) {
        var j :| 0 <= j < |phrases[1..]| && PhraseMatches(text, phrases[1..][j]);
        assert PhraseMatches(text, phrases[j + 1]);
      }
    }
  }

  /** The text of a link as compared: stripped, then lower-cased. */
  function LinkText(e: Element): string {
    ToLower(e.text)
  }

  /** The rule's decision: a link with `href`, no ARIA name, and text one of the phrases. */
  predicate NonDescriptive(e: Element) {
    IsLink(e) && !HasAriaName(e) && ScanPhrases(LinkText(e), Phrases)
  }

  /** The finding names the link under the target `a`; the advice quotes the
      link's markup and its compared text. */
  function LinkFinding(e: Element): Issue {
    NewIssue(LinkId, Prose(LinkId, "description"), Prose(LinkId, "help"), Critical,
             [NewNode(["a"], Some(e.markup))], Some(RuleAdvice(LinkId, e.markup + LinkText(e))))
  }

  /** One critical finding per non-descriptive link, in document order. */
  function CheckDescriptiveLinkText(doc: Document): (r: seq<Issue>)
    ensures |r| == |Filter(doc.elements, NonDescriptive)|
    ensures forall k :: 0 <= k < |r| ==>
              var e := Filter(doc.elements, NonDescriptive)[k];
              r[k].id == LinkId && r[k].severity == Critical
              && r[k].nodes == [NewNode(["a"], Some(e.markup))]
              && e.name == "a" && "href" in e.attrs && !HasAriaName(e)
  {
    Collect(doc.elements, NonDescriptive, LinkFinding)
  }

  /** Trying the seven phrases in turn amounts to: the text is "details", or it
      contains "more", or it contains "here". */
  lemma PhrasesIff(text: string)
    ensures ScanPhrases(text, Phrases) <==> text == "details" || Contains(text, "more") || Contains(text, "here")
  {
    ScanFindsAnyMatch(text, Phrases);
    if exists i :: 0 <= i < |Phrases| && PhraseMatches(text, Phrases[i]) {
      var i :| 0 <= i < |Phrases| && PhraseMatches(text, Phrases[i]);
      MatchedPhraseCovered(text, Phrases[i]);
    }
    if text == "details" {
      assert PhraseMatches(text, Phrases[4]);
    }
    if Contains(text, "here") {
      assert PhraseMatches(text, Phrases[5]);
    }
    if Contains(text, "more") {
      assert PhraseMatches(text, Phrases[6]);
    }
  }

  /** Each phrase that can match equals "details", or contains "more" or "here". */
  lemma MatchedPhraseCovered(text: string, phrase: string)
    requires phrase in Phrases && PhraseMatches(text, phrase)
    ensures text == "details" || Contains(text, "more") || Contains(text, "here")
  {
    if phrase == "click here" {
      assert text == "click " + "here";
      ContainsSuffix("click ", "here");
    } else if phrase == "read more" {
      assert text == "read " + "more";
      ContainsSuffix("read ", "more");
    } else if phrase == "learn more" {
      assert text == "learn " + "more";
      ContainsSuffix("learn ", "more");
    } else if phrase == "find out more" {
      assert text == "find out " + "more";
      ContainsSuffix("find out ", "more");
    } else if phrase == "here" && text == "here" {
      assert text == "" + "here";
      ContainsSuffix("", "here");
    } else if phrase == "more" && text == "more" {
      assert text == "" + "more";
      ContainsSuffix("", "more");
    }
  }

  /** A link with empty text is never reported. */
  lemma EmptyLinkTextNotFlagged(e: Element)
    requires e.text == ""
    ensures !NonDescriptive(e)
  {
    PhrasesIff(LinkText(e));
    assert LinkText(e) == "";
  }

  /** Only links carrying `href` are examined. */
  lemma LinksOnly(doc: Document)
    ensures CheckDescriptiveLinkText(doc)
            == CheckDescriptiveLinkText(doc.(elements := Filter(doc.elements, IsLink)))
  {
    CollectRestrict(doc.elements, IsLink, NonDescriptive, LinkFinding);
  }

  /** A non-empty `aria-label` or `aria-labelledby` keeps any link out of the report. */
  lemma AriaNamedLinkNotFlagged(e: Element)
    requires Truthy(Attr(e, "aria-label")) || Truthy(Attr(e, "aria-labelledby"))
    ensures !NonDescriptive(e)
  {
  }

  /** Letter case does not matter: "learn More" is compared as "learn more"
      and is reported. */
  lemma MixedCaseLearnMore(e: Element)
    requires e.name == "a" && e.attrs == map["href" := "/docs"] && e.text == "learn More"
    ensures LinkText(e) == "learn more"
    ensures NonDescriptive(e)
  {
    var t := LinkText(e);
    assert t == "learn more" by {
      assert LowerChar('M') == 'm';
    }
    ScanFindsAnyMatch(t, Phrases);
    assert PhraseMatches(t, Phrases[2]);
  }
}
