/** Video and audio elements without caption or description tracks. The
    advice text of the descriptions finding quotes whatever markup the loop
    last bound, which is the only state the loop carries from one element to
    the next. */
module MediaCaptions {
  import opened Wrappers
  import opened Seqs
  import opened Dom
  import opened Schemas
  import opened RuleEngine

  const VideoCaptionsId := "custom-video-missing-captions"
  const AudioTranscriptId := "custom-audio-missing-transcript"
  const VideoDescriptionsId := "custom-video-missing-descriptions"

  /** Reading the advice markup before anything bound it. */
  datatype MediaError = UnboundIssueHtml

  predicate IsMedia(e: Element) {
    e.name in {"video", "audio"}
  }

  /** Some `track` nested in the element has exactly this `kind`. */
  predicate HasTrack(e: Element, kind: string) {
    exists k :: 0 <= k < |e.descendants| && e.descendants[k].name == "track"
                && Attr(e.descendants[k], "kind") == Some(kind)
  }

  /** The element gets a missing-captions or missing-transcript finding, which
      binds the advice markup to its own. */
  predicate Binds(e: Element) {
    IsMedia(e) && !HasTrack(e, "captions")
  }

  /** The element gets a missing-descriptions finding. */
  predicate NeedsDescriptions(e: Element) {
    e.name == "video" && !HasTrack(e, "descriptions")
  }

  function MediaIssue(id: string, severity: string, e: Element, mention: string): Issue {
    NewIssue(id, Prose(id, "description"), Prose(id, "help"), severity,
             [NewNode([e.name], Some(e.markup))], Some(RuleAdvice(id, mention)))
  }

  /** One element's findings and the advice markup bound afterwards; fails when
      the descriptions finding reads markup nothing has bound yet. */
  function MediaStep(e: Element, bound: Option<string>): Result<(seq<Issue>, Option<string>), MediaError> {
    var captionsMissing := !HasTrack(e, "captions");
    var video := if e.name == "video" && captionsMissing
                 then [MediaIssue(VideoCaptionsId, Critical, e, e.markup)] else [];
    var bound1 := if e.name == "video" && captionsMissing then Some(e.markup) else bound;
    var audio := if e.name == "audio" && captionsMissing
                 then [MediaIssue(AudioTranscriptId, Critical, e, e.markup)] else [];
    var bound2 := if e.name == "audio" && captionsMissing then Some(e.markup) else bound1;
    if NeedsDescriptions(e) then
      match bound2
      case None => Failure(UnboundIssueHtml)
      case Some(html) => Success((video + audio + [MediaIssue(VideoDescriptionsId, Moderate, e, html)], bound2))
    else
      Success((video + audio, bound2))
  }

  /** The loop over the media elements, threading the bound markup. */
  function MediaLoop(ms: seq<Element>, bound: Option<string>): Result<seq<Issue>, MediaError>
    decreases |ms|
  {
    if ms == [] then Success([])
    else
      var step :- MediaStep(ms[0], bound);
      var rest :- MediaLoop(ms[1..], step.1);
      Success(step.0 + rest)
  }

  /** `soup.find_all(['video', 'audio'])` */
  function MediaElements(doc: Document): (ms: seq<Element>)
    ensures forall k :: 0 <= k < |ms| ==> IsMedia(ms[k]) && ms[k] in doc.elements
  {
    Filter(doc.elements, IsMedia)
  }

  /** The rule. It raises exactly when some video without a descriptions track
      comes, among the media elements, before any video or audio element that
      lacks a captions track, itself included; the bound markup starts out
      empty. Otherwise it reports the expected findings of the media elements
      in document order. */
  function CheckMediaCaptions(doc: Document): (r: Result<seq<Issue>, MediaError>)
    ensures r.Failure? <==> exists k :: UnboundAt(MediaElements(doc), k)
    ensures r.Success? ==> Ids(r.value) == AllExpected(MediaElements(doc))
    ensures r.Success? ==> r.value == ExpectedIssues(MediaElements(doc), None)
  {
    LoopRaisesIff(MediaElements(doc), None);
    LoopFindings(MediaElements(doc), None);
    LoopOutput(MediaElements(doc), None);
    MediaLoop(MediaElements(doc), None)
  }

  /** The markup bound after one successful step: the element's own when it
      got a captions or transcript finding, otherwise what was bound before. */
  lemma StepBinding(e: Element, bound: Option<string>)
    ensures MediaStep(e, bound).Failure?
            <==> NeedsDescriptions(e) && !Binds(e) && bound.None?
    ensures MediaStep(e, bound).Success? ==>
              MediaStep(e, bound).value.1 == if Binds(e) then Some(e.markup) else bound
  {
  }

  /** At position `k` the descriptions finding reads unbound markup: the element
      needs one, and neither it nor any element before it bound anything. */
  ghost predicate UnboundAt(ms: seq<Element>, k: int) {
    0 <= k < |ms| && NeedsDescriptions(ms[k]) && forall j :: 0 <= j <= k ==> !Binds(ms[j])
  }

  /** The loop fails exactly when nothing was bound on entry and some element
      reaches the descriptions finding before any element bound markup. */
  lemma {:induction false} LoopRaisesIff(ms: seq<Element>, bound: Option<string>)
    ensures MediaLoop(ms, bound).Failure? <==> bound.None? && exists k :: UnboundAt(ms, k)
    decreases |ms|
  {
    if ms != [] {
      var e := ms[0];
      StepBinding(e, bound);
      var step := MediaStep(e, bound);
      if step.Failure? {
        assert UnboundAt(ms, 0);
      } else {
        var next := step.value.1;
        LoopRaisesIff(ms[1..], next);
        assert MediaLoop(ms, bound) == (match MediaLoop(ms[1..], next)
                                        case Failure(err) => Failure(err)
                                        case Success(rest) => Success(step.value.0 + rest));
        if bound.None? && exists k :: UnboundAt(ms, k) {
          var k :| UnboundAt(ms, k);
          assert k != 0;
          assert UnboundAt(ms[1..], k - 1);
        }
        if next.None? && exists k :: UnboundAt(ms[1..], k) {
          var k :| UnboundAt(ms[1..], k);
          assert !Binds(e);
          assert UnboundAt(ms, k + 1);
        }
      }
    }
  }

  /** The ids and severities one element contributes, whatever is bound. */
  function ExpectedFindings(e: Element): seq<(string, string)> {
    (if e.name == "video" && !HasTrack(e, "captions") then [(VideoCaptionsId, Critical)] else [])
    + (if e.name == "audio" && !HasTrack(e, "captions") then [(AudioTranscriptId, Critical)] else [])
    + (if NeedsDescriptions(e) then [(VideoDescriptionsId, Moderate)] else [])
  }

  function AllExpected(ms: seq<Element>): seq<(string, string)>
    decreases |ms|
  {
    if ms == [] then [] else ExpectedFindings(ms[0]) + AllExpected(ms[1..])
  }

  /** A successful run reports, element by element and in order, the
      captions finding before the descriptions finding of a video and the
      transcript finding of an audio element. */
  lemma {:induction false} LoopFindings(ms: seq<Element>, bound: Option<string>)
    ensures MediaLoop(ms, bound).Success? ==> Ids(MediaLoop(ms, bound).value) == AllExpected(ms)
    decreases |ms|
  {
    if ms != [] {
      var e := ms[0];
      var step := MediaStep(e, bound);
      if step.Success? {
        LoopFindings(ms[1..], step.value.1);
        var r := MediaLoop(ms[1..], step.value.1);
        if r.Success? {
          assert MediaLoop(ms, bound) == Success(step.value.0 + r.value);
          IdsAppend(step.value.0, r.value);
          assert Ids(step.value.0) == ExpectedFindings(e);
        }
      }
    }
  }

  /** The advice markup bound once the elements `ms` have been visited,
      starting from `bound`: that of the last element that binds, or `bound`
      when none does. */
  function LastBinding(ms: seq<Element>, bound: Option<string>): Option<string>
    decreases |ms|
  {
    if ms == [] then bound
    else if Binds(ms[|ms| - 1]) then Some(ms[|ms| - 1].markup)
    else LastBinding(ms[..|ms| - 1], bound)
  }

  /** `LastBinding` is the markup of the last binding element, or the binding
      on entry when no element binds. */
  lemma {:induction false} LastBindingIsLast(ms: seq<Element>, bound: Option<string>)
    ensures (forall j :: 0 <= j < |ms| ==> !Binds(ms[j])) ==> LastBinding(ms, bound) == bound
    ensures forall j :: 0 <= j < |ms| && Binds(ms[j]) && (forall i :: j < i < |ms| ==> !Binds(ms[i]))
                        ==> LastBinding(ms, bound) == Some(ms[j].markup)
    decreases |ms|
  {
    if ms != [] {
      var n := |ms| - 1;
      var init := ms[..n];
      LastBindingIsLast(init, bound);
      assert forall j :: 0 <= j < n ==> init[j] == ms[j];
      forall j | 0 <= j < |ms| && Binds(ms[j]) && (forall i :: j < i < |ms| ==> !Binds(ms[i]))
        ensures LastBinding(ms, bound) == Some(ms[j].markup)
      {
        if j < n {
          assert !Binds(ms[n]);
          assert forall i :: j < i < n ==> !Binds(init[i]);
        }
      }
    }
  }

  /** The findings of one element when its descriptions advice quotes
      `advice`: the captions finding of a video or the transcript finding of
      an audio element quoting its own markup, then the descriptions finding
      of a video; every finding names the element under its tag. */
  function ElementFindings(e: Element, advice: string): (r: seq<Issue>)
    ensures Ids(r) == ExpectedFindings(e)
    ensures forall k :: 0 <= k < |r| ==> r[k].nodes == [NewNode([e.name], Some(e.markup))]
    ensures forall k :: 0 <= k < |r| ==>
              r[k].aiSuggestions == Some(RuleAdvice(r[k].id, if r[k].id == VideoDescriptionsId then advice else e.markup))
  {
    (if e.name == "video" && !HasTrack(e, "captions") then [MediaIssue(VideoCaptionsId, Critical, e, e.markup)] else [])
    + (if e.name == "audio" && !HasTrack(e, "captions") then [MediaIssue(AudioTranscriptId, Critical, e, e.markup)] else [])
    + (if NeedsDescriptions(e) then [MediaIssue(VideoDescriptionsId, Moderate, e, advice)] else [])
  }

  /** The findings expected for the elements `ms`, element by element: the
      descriptions advice of each element quotes the markup last bound up to
      and including that element. */
  function ExpectedIssues(ms: seq<Element>, bound: Option<string>): seq<Issue>
    decreases |ms|
  {
    if ms == [] then []
    else ExpectedIssues(ms[..|ms| - 1], bound) + ElementFindings(ms[|ms| - 1], LastBinding(ms, bound).GetOr(""))
  }

  /** A successful step yields the element's findings, quoting the markup
      bound after it. */
  lemma StepFindings(e: Element, bound: Option<string>)
    ensures MediaStep(e, bound).Success? ==>
              MediaStep(e, bound).value.1 == (if Binds(e) then Some(e.markup) else bound)
              && MediaStep(e, bound).value.0 == ElementFindings(e, MediaStep(e, bound).value.1.GetOr(""))
  {
    StepBinding(e, bound);
  }

  /** Visiting one more element extends the expected findings by its own. */
  lemma ExpectedSnoc(p: seq<Element>, e: Element, b0: Option<string>)
    ensures LastBinding(p + [e], b0) == if Binds(e) then Some(e.markup) else LastBinding(p, b0)
    ensures ExpectedIssues(p + [e], b0) == ExpectedIssues(p, b0) + ElementFindings(e, LastBinding(p + [e], b0).GetOr(""))
  {
    assert (p + [e])[..|p|] == p;
  }

  /** One successful step extends the reference findings by the step's own. */
  lemma StepExtendsExpected(p: seq<Element>, e: Element, b0: Option<string>)
    requires MediaStep(e, LastBinding(p, b0)).Success?
    ensures LastBinding(p + [e], b0) == MediaStep(e, LastBinding(p, b0)).value.1
    ensures ExpectedIssues(p + [e], b0) == ExpectedIssues(p, b0) + MediaStep(e, LastBinding(p, b0)).value.0
  {
    StepFindings(e, LastBinding(p, b0));
    ExpectedSnoc(p, e, b0);
  }

  lemma ConcatAssoc(a: seq<Issue>, b: seq<Issue>, c: seq<Issue>)
    ensures a + b + c == a + (b + c)
  {
  }

  /** The loop over a non-empty list is its first step followed by the rest. */
  lemma LoopCons(ms: seq<Element>, b: Option<string>)
    requires ms != []
    ensures MediaLoop(ms, b).Success? ==>
              MediaStep(ms[0], b).Success? && MediaLoop(ms[1..], MediaStep(ms[0], b).value.1).Success?
              && MediaLoop(ms, b).value
                 == MediaStep(ms[0], b).value.0 + MediaLoop(ms[1..], MediaStep(ms[0], b).value.1).value
  {
  }

  /** The loop continues the expected findings of the elements already visited. */
  lemma {:induction false} LoopFrom(p: seq<Element>, ms: seq<Element>, b0: Option<string>)
    ensures MediaLoop(ms, LastBinding(p, b0)).Success? ==>
              ExpectedIssues(p + ms, b0) == ExpectedIssues(p, b0) + MediaLoop(ms, LastBinding(p, b0)).value
    decreases |ms|
  {
    if ms == [] {
      assert p + ms == p;
    } else if MediaLoop(ms, LastBinding(p, b0)).Success? {
      LoopFrom(p + [ms[0]], ms[1..], b0);
      LoopFromStep(p, ms, b0);
    }
  }

  /** The inductive step of `LoopFrom`: the claim for `p + [ms[0]]` and
      `ms[1..]` gives the claim for `p` and `ms`. */
  lemma LoopFromStep(p: seq<Element>, ms: seq<Element>, b0: Option<string>)
    requires ms != [] && MediaLoop(ms, LastBinding(p, b0)).Success?
    requires MediaLoop(ms[1..], LastBinding(p + [ms[0]], b0)).Success? ==>
               ExpectedIssues(p + [ms[0]] + ms[1..], b0)
               == ExpectedIssues(p + [ms[0]], b0) + MediaLoop(ms[1..], LastBinding(p + [ms[0]], b0)).value
    ensures ExpectedIssues(p + ms, b0) == ExpectedIssues(p, b0) + MediaLoop(ms, LastBinding(p, b0)).value
  {
    var b := LastBinding(p, b0);
    LoopCons(ms, b);
    StepExtendsExpected(p, ms[0], b0);
    SplitFirst(p, ms);
    ConcatAssoc(ExpectedIssues(p, b0), MediaStep(ms[0], b).value.0,
                MediaLoop(ms[1..], MediaStep(ms[0], b).value.1).value);
  }

  lemma SplitFirst(p: seq<Element>, ms: seq<Element>)
    requires ms != []
    ensures p + [ms[0]] + ms[1..] == p + ms
  {
    assert [ms[0]] + ms[1..] == ms;
  }

  lemma LoopOutput(ms: seq<Element>, bound: Option<string>)
    ensures MediaLoop(ms, bound).Success? ==> MediaLoop(ms, bound).value == ExpectedIssues(ms, bound)
  {
    LoopFrom([], ms, bound);
    assert [] + ms == ms;
  }

  /** Every expected finding names one of the visited elements under its tag
      and quotes that element's markup. */
  lemma {:induction false} ExpectedNodes(ms: seq<Element>, bound: Option<string>)
    ensures forall k :: 0 <= k < |ExpectedIssues(ms, bound)| ==>
              exists e :: e in ms && ExpectedIssues(ms, bound)[k].nodes == [NewNode([e.name], Some(e.markup))]
    decreases |ms|
  {
    if ms != [] {
      var m := |ms| - 1;
      ExpectedNodes(ms[..m], bound);
      var front := ExpectedIssues(ms[..m], bound);
      var last := ElementFindings(ms[m], LastBinding(ms, bound).GetOr(""));
      assert ExpectedIssues(ms, bound) == front + last;
      forall k | 0 <= k < |ExpectedIssues(ms, bound)|
        ensures exists e :: e in ms && ExpectedIssues(ms, bound)[k].nodes == [NewNode([e.name], Some(e.markup))]
      {
        if k < |front| {
          var e :| e in ms[..m] && front[k].nodes == [NewNode([e.name], Some(e.markup))];
          assert e in ms;
        } else {
          assert ExpectedIssues(ms, bound)[k] == last[k - |front|];
          assert ms[m] in ms;
        }
      }
    } else {
      assert ExpectedIssues(ms, bound) == [];
    }
  }

  /** The findings expected for a prefix of the elements begin those of all
      the elements. */
  lemma {:induction false} ExpectedPrefix(ms: seq<Element>, bound: Option<string>, n: nat)
    requires n <= |ms|
    ensures ExpectedIssues(ms[..n], bound) <= ExpectedIssues(ms, bound)
    decreases |ms|
  {
    if n < |ms| {
      var m := |ms| - 1;
      ExpectedPrefix(ms[..m], bound, n);
      assert ms[..m][..n] == ms[..n];
    } else {
      assert ms[..n] == ms;
    }
  }

  /** The descriptions finding of element `k` is among the expected findings,
      and its advice quotes the markup last bound by the elements up to and
      including `k` (see `LastBindingIsLast`). */
  lemma DescriptionsAdviceOf(ms: seq<Element>, bound: Option<string>, k: int)
    requires 0 <= k < |ms| && NeedsDescriptions(ms[k])
    ensures MediaIssue(VideoDescriptionsId, Moderate, ms[k], LastBinding(ms[..k + 1], bound).GetOr(""))
            in ExpectedIssues(ms, bound)
  {
    var upto := ms[..k + 1];
    ExpectedPrefix(ms, bound, k + 1);
    assert upto[..k] == ms[..k];
    var block := ElementFindings(ms[k], LastBinding(upto, bound).GetOr(""));
    var found := ExpectedIssues(upto, bound);
    assert found == ExpectedIssues(ms[..k], bound) + block;
    assert block[|block| - 1] == MediaIssue(VideoDescriptionsId, Moderate, ms[k], LastBinding(upto, bound).GetOr(""));
    assert found[|found| - 1] == block[|block| - 1];
    assert found[|found| - 1] == ExpectedIssues(ms, bound)[|found| - 1];
  }

  /** A video yields at most the captions finding then the descriptions one,
      an audio element at most the transcript finding, and a video with both
      tracks or an audio element with a captions track yields nothing. */
  lemma PerElementFindings(e: Element)
    ensures e.name == "video" ==>
              ExpectedFindings(e) == (if !HasTrack(e, "captions") then [(VideoCaptionsId, Critical)] else [])
                                     + (if !HasTrack(e, "descriptions") then [(VideoDescriptionsId, Moderate)] else [])
    ensures e.name == "audio" ==>
              ExpectedFindings(e) == if !HasTrack(e, "captions") then [(AudioTranscriptId, Critical)] else []
    ensures |ExpectedFindings(e)| <= 2
    ensures !IsMedia(e) ==> ExpectedFindings(e) == []
  {
  }

  /** A video with a captions track but no descriptions track, as the first
      media element of the page, makes the rule raise. */
  lemma CaptionsOnlyVideoRaises(doc: Document, v: Element, track: Element)
    requires track.name == "track" && track.attrs == map["kind" := "captions"]
    requires v.name == "video" && v.descendants == [track]
    requires doc.elements == [v]
    ensures CheckMediaCaptions(doc) == Failure(UnboundIssueHtml)
  {
    assert HasTrack(v, "captions") by {
      assert v.descendants[0] == track;
    }
    assert MediaElements(doc) == [v];
  }

  /** After an earlier video without captions, the same captions-only video
      gets its descriptions finding, whose advice quotes the earlier video's
      markup. */
  lemma StaleMarkupReused(first: Element, second: Element)
    requires first.name == "video" && first.descendants == []
    requires second.name == "video" && second.markup != first.markup
    requires HasTrack(second, "captions") && !HasTrack(second, "descriptions")
    ensures var r := MediaLoop([first, second], None);
            r.Success? && |r.value| == 3 && r.value[2].id == VideoDescriptionsId
            && r.value[2].nodes == [NewNode(["video"], Some(second.markup))]
            && r.value[2].aiSuggestions == Some(RuleAdvice(VideoDescriptionsId, first.markup))
  {
    assert !HasTrack(first, "captions");
    assert [first, second][1..] == [second];
    var s1 := MediaStep(first, None);
    assert s1.Success? && s1.value.1 == Some(first.markup);
    var s2 := MediaStep(second, Some(first.markup));
    assert s2.Success? && s2.value.0 == [] + [] + [MediaIssue(VideoDescriptionsId, Moderate, second, first.markup)];
    assert [second][1..] == [];
    assert MediaLoop([second], Some(first.markup)) == Success(s2.value.0 + []);
  }
}
