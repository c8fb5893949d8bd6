# Accessibility analyzer core, modelled in Dafny

The backend accepts a URL and loads the page in a browser. It runs the axe-core scanner and eight static rules over the page markup. It asks an advisory service for a fix for every issue, and stores a report with a 0–100 score.

This project models the part of that pipeline that is pure logic:

- **Report schemas** (`schemas.dfy`): advisory, evidence node, issue, summary and stored result, with their defaults and validation.
- **Score reducer** (`result_processor.dfy`): severities fall into buckets ("serious" joins "moderate", "low" joins "minor") and are weighed 5/2/1. The score is floored at 0, and the report is assembled from it.
- **The eight static rules**, each over an abstract parsed document (`dom.dfy`):
  - image alt text;
  - heading structure;
  - form labels;
  - colour contrast, with hex decoding and the WCAG 2.1 contrast ratio;
  - empty links and buttons;
  - document language;
  - non-descriptive link text;
  - media captions.

  `rule_engine.dfy` holds the shape they share: walk the elements in document order and emit one issue per flagged element.
- **Scanner formatting loop** (`axe_runner.dfy`): it turns the scanner's violation dictionaries into issue-shaped dictionaries.
- **Analysis glue** (`analyzer.dfy`), in two versions. `RunFullAnalysis` is the pipeline with both defects listed under "## Findings" corrected. `RunFullAnalysisAsWritten` is the pipeline as the code runs it. The glue covers:
  - normalising the formatted violations into issues;
  - the fixed order of the merged issue list;
  - one advisory request per issue;
  - attaching the gathered outcomes by position;
  - the page title.

Several things the code calls out to are parameters of the model:

- **The parsed page** is a `Document`: its source plus its elements in document order. Each element has:
  - its tag name and attributes;
  - its stripped text (`get_text(strip=True)`);
  - its markup (`str(element)`);
  - its single text child (`.string`);
  - its nested elements.
- **The relative luminance** of a colour is a `Luminance` parameter, any non-negative function.
- **The scanner's report** is a `ScanResults` value.
- **The advisory service** is a function from a request to an `Outcome`: an exception, or a dictionary offered to the advisory schema.

Python dictionaries appear as records with one `Option` per key read, where `None` means the key is absent. Human-readable descriptions, help texts and fixes are placeholders built by `RuleEngine.Prose`. Ids, severities, targets and the markup each issue quotes are modelled exactly.

## Model

| member | source | states |
|---|---|---|
| Text.LStrip | app/rules/alt_text.py:27 | `str.lstrip()` returns a suffix; what it drops is all whitespace, and it starts with a non-space |
| Text.RStrip | app/rules/alt_text.py:27 | `str.rstrip()` returns a prefix; what it drops is all whitespace, and it ends with a non-space |
| Text.BlankIffAllSpace | app/rules/alt_text.py:27 | `not s.strip()` holds exactly when every character of `s` is whitespace |
| Text.StripLeadingSpaces | app/rules/contrast.py:80 | stripping leading whitespace off text with visible ends leaves exactly that text |
| Text.ToLower | app/rules/descriptive_link_text.py:37 | `lower()` keeps the length and lower-cases each ASCII letter in place |
| Text.ContainsIff | app/rules/descriptive_link_text.py:47-48 | `sub in s` holds exactly when `sub` occurs at some position of `s` |
| Text.ContainsSuffix | app/rules/descriptive_link_text.py:47-48 | a string contains every string it ends with |
| Seqs.Filter | app/rules/alt_text.py:21-23 | `find_all` keeps only matching elements, and every matching element is kept |
| Seqs.FilterCounts | app/rules/alt_text.py:21-23 | each matching element is kept as often as it occurs, and a non-matching one never |
| Seqs.FilterSingleton | app/rules/alt_text.py:23-27 | one element is kept iff it matches; with `FilterAppend`, this fixes the order of the kept elements |
| Seqs.FilterAppend | app/rules/alt_text.py:21-23 | selection distributes over concatenation, so findings follow document order |
| Seqs.FilterOfFilter | app/rules/labels.py:16-22 | pre-selecting by tag and then deciding equals deciding on all elements |
| Schemas.ParseSuggestion | app/schemas.py:70-73 | an advisory validates exactly when both texts are present, and carries exactly those texts |
| Schemas.NewNode | app/schemas.py:76-82 | a node requires its target; html, snippet, failureSummary and xpath default to absent |
| Schemas.NewIssue | app/schemas.py:91-105 | an issue built from its mandatory fields has no tags, no nodes unless given, no help URL and no advisory unless given |
| ResultProcessor.Summarize | app/schemas.py:120 | the computed summary's score lies in 0..100 |
| ResultProcessor.CalculateAccessibilityScore | app/core/result_processor.py:13-53 | total = list length; each count is the number of issues in its severity family; score = max(0, 100 − 5c − 2m − n) |
| ResultProcessor.CountAppend | app/core/result_processor.py:28-44 | counts of a concatenation are the sums of the counts |
| ResultProcessor.CountPartition | app/core/result_processor.py:28-44 | every issue falls in exactly one of critical, moderate, minor or no bucket |
| ResultProcessor.CountZeroIff | app/core/result_processor.py:28-44 | a count is zero exactly when no issue's severity maps to that bucket |
| ResultProcessor.CountsAgainstTotal | app/core/result_processor.py:18-44 | critical + moderate + minor ≤ total, with equality iff every severity is one of the five recognised strings |
| ResultProcessor.SeverityFamilies | app/core/result_processor.py:32-44 | one more issue moves exactly the count of its family; an unrecognised severity changes only the total |
| ResultProcessor.CountPermutation | app/core/result_processor.py:28-44 | bucket counts do not depend on the order of the issues |
| ResultProcessor.SummaryPermutationInvariant | app/core/result_processor.py:13-53 | the whole summary, score included, is the same for any reordering |
| ResultProcessor.ScoreNonIncreasing | app/core/result_processor.py:47-48 | adding issues never raises the score |
| ResultProcessor.TwentyCriticalScoreZero | app/core/result_processor.py:47-48 | twenty critical issues bring the score to 0 |
| ResultProcessor.AllCriticalCounted | app/core/result_processor.py:32-34 | when all issues are critical, all are counted as critical |
| ResultProcessor.ManyCriticalScoreZero | app/core/result_processor.py:32-48 | a list of at least twenty critical issues scores 0 |
| ResultProcessor.ProcessAnalysisData | app/core/result_processor.py:55-91 | the report keeps the issue list, URL, user and title, and its summary is the score over that same list |
| Dom.FirstNamed | app/rules/document_language.py:14 | `soup.find(name)` gives None exactly when no element has the name, and otherwise an element of the page with that name |
| RuleEngine.Ids | app/rules/headings.py:66-70 | the id/severity view of a finding list, position by position |
| RuleEngine.IdsAppend | app/rules/headings.py:18-80 | the id/severity view distributes over concatenation |
| RuleEngine.Collect | app/rules/alt_text.py:23-45 | one finding per flagged element, in document order |
| RuleEngine.CollectAppend | app/rules/alt_text.py:23-45 | a rule over a page split in two gives the two outputs in order |
| RuleEngine.CollectRestrict | app/rules/alt_text.py:21-23 | restricting to the examined tags first does not change a rule's output |
| RuleEngine.CollectEmptyIff | app/rules/alt_text.py:23-46 | a rule reports nothing exactly when no element is flagged |
| AltText.CheckAltText | app/rules/alt_text.py:21-46 | one critical `custom-image-alt-missing` per failing image, in order, naming its markup under target `img` |
| AltText.AltDecision | app/rules/alt_text.py:24-27 | an element is reported iff it is an `img` whose `alt` is absent or all whitespace, the empty string included |
| AltText.AltOnlyImages | app/rules/alt_text.py:21 | only `img` elements are examined |
| AltText.AltDocumentOrder | app/rules/alt_text.py:23-45 | findings for a split page are the first part's followed by the second's |
| Headings.LevelOf | app/rules/headings.py:52 | `int(name[1])` lies in 1..6, and is 1 exactly for `h1` |
| Headings.Levels | app/rules/headings.py:48-53 | the set of levels present holds only 1..6 |
| Headings.H1PresentIff | app/rules/headings.py:17-18 | level 1 is present exactly when some element is an `h1` |
| Headings.SortedFromSpec | app/rules/headings.py:56 | the list from `lo` holds exactly the present levels from `lo`, strictly increasing |
| Headings.SortedFromUpper | app/rules/headings.py:56 | with no level present from `lo` upwards the ascending list from `lo` is empty |
| Headings.SortedLevels | app/rules/headings.py:56 | `sorted(list(found_levels))` lists exactly the present levels, strictly increasing |
| Headings.FirstGap | app/rules/headings.py:58-84 | the scan stops at the first consecutive pair differing by more than one, and all earlier pairs differ by at most one |
| Headings.SkippedPart | app/rules/headings.py:58-84 | at most one moderate skipped-level finding, present iff the scan finds a gap, with id naming the level after the gap's lower end; its two nodes target `h<current>` then `h<next>` and quote the first element of each tag |
| Headings.HeadingNameOfLevel | app/rules/headings.py:52 | a heading's tag is `h` followed by the digit of its level |
| Headings.PresentLevelQuoted | app/rules/headings.py:73-74 | for a level present, `soup.find('h<level>')` finds the first heading of that tag, so the node quotes its markup and never `None` |
| Headings.ConsecutiveLevels | app/rules/headings.py:56-60 | two neighbours of the sorted level list are both present, with no present level between them |
| Headings.SkippedPartQuotes | app/rules/headings.py:58-75 | the skipped-level finding quotes the first heading of each of the two present levels around the hole |
| Headings.PartsQuoteAroundHole | app/rules/headings.py:16-84 | every moderate finding of the two parts quotes the headings around a hole |
| Headings.SkippedNodesQuoteHeadings | app/rules/headings.py:48-84 | every skipped-level finding of the rule names the two present levels around a hole and quotes the first heading of each, which exists |
| Headings.SortedContents | app/rules/headings.py:56 | the sorted distinct levels hold exactly the levels present |
| Headings.HoleGivesGap | app/rules/headings.py:58-64 | a missing level between two present ones shows up as a gap in the sorted list |
| Headings.GapIsSmallestHole | app/rules/headings.py:58-84 | on any list of the present levels, the first gap names the smallest hole, and no gap means no hole |
| Headings.FirstGapIsSmallestHole | app/rules/headings.py:56-84 | the rule's scan names the smallest missing intermediate level |
| Headings.CheckHeadingStructure | app/rules/headings.py:16-86 | at most two findings: the missing-h1 one first, then the moderate skipped-level one |
| Headings.ShapeOfParts | app/rules/headings.py:16-86 | the two parts concatenate in that order |
| Headings.MissingH1Iff | app/rules/headings.py:17-29 | the missing-h1 finding (critical, target `html`) appears exactly when no element is an `h1` |
| Headings.SkippedIffHole | app/rules/headings.py:48-84 | a skipped-level finding appears iff the present levels have a hole, and its id names the smallest hole |
| Headings.SkippedPartNamesHole | app/rules/headings.py:58-84 | the skipped-level part names the smallest hole |
| Headings.ModerateOfParts | app/rules/headings.py:19-23 | the moderate findings all come from the skipped-level part |
| Headings.MissingPartByLevels | app/rules/headings.py:17-18 | the missing-h1 part depends only on whether level 1 is present |
| Headings.DecisionDependsOnLevels | app/rules/headings.py:48-84 | the ids and severities reported depend only on the set of levels present |
| Headings.SkippedIdsIgnoreElements | app/rules/headings.py:66-70 | the skipped-level id and severity do not depend on the markup quoted |
| Headings.H1ThenH4NamesH2 | app/rules/headings.py:119-121 | levels {1, 4} give exactly one finding, `custom-skipped-heading-level-h2` |
| Headings.H2H3OnlyMissingH1 | app/rules/headings.py:113-115 | levels {2, 3} give only the missing-h1 finding |
| Headings.WellNestedIsClean | app/rules/headings.py:99-100 | levels {1, 2, 3} give no finding |
| Labels.CheckFormLabels | app/rules/labels.py:16-66 | one critical `custom-missing-form-label` per unlabelled form control, in order, naming its markup under its tag |
| Labels.LabelsOnlyFormControls | app/rules/labels.py:16 | only `input`, `textarea` and `select` are examined |
| Labels.PlaceholderIsNoLabel | app/rules/labels.py:37-40 | adding, changing or removing a placeholder never changes whether a control is flagged |
| Labels.LabelDecision | app/rules/labels.py:21-40 | flagged iff a form control whose lower-cased type is not exempt, with no label pointing at its non-empty id, and no non-empty aria-label or aria-labelledby |
| Labels.PlaceholderWording | app/rules/labels.py:44-53 | the placeholder wording is used exactly when a non-empty placeholder is present |
| Labels.HiddenInputIgnored | app/rules/labels.py:21-23 | `type="HIDDEN"` is skipped, in any letter case |
| Labels.LabelForClearsInput | app/rules/labels.py:72-83 | an input pointed at by a label is not reported; the same input alone is |
| EmptyInteractive.CheckEmptyInteractiveElements | app/rules/empty_interactive.py:16-51 | one critical finding per empty link or button, with id `custom-empty-` + its tag, naming its markup |
| EmptyInteractive.EmptyIdNamesTag | app/rules/empty_interactive.py:41 | the id is `custom-empty-a` exactly for links and `custom-empty-button` exactly for buttons |
| EmptyInteractive.EmptyOnlyInteractive | app/rules/empty_interactive.py:16 | only `a` and `button` are examined |
| EmptyInteractive.EmptyDecision | app/rules/empty_interactive.py:20-24 | reported iff `a`/`button` with empty stripped text and no non-empty ARIA name |
| EmptyInteractive.WhitespaceLinkAndIconButton | app/rules/empty_interactive.py:18-45 | a link whose raw text is any run of whitespace is reported as `custom-empty-a`; an aria-labelled icon button is not |
| EmptyInteractive.WhitespaceLinkFlagged | app/rules/empty_interactive.py:18-24 | a link with whitespace-only text and no ARIA name is empty |
| EmptyInteractive.AriaLabelledButtonPasses | app/rules/empty_interactive.py:20-24 | a button with a non-empty `aria-label` is not empty |
| DocumentLanguage.Head | app/rules/document_language.py:23 | `html_content[:100]` is the first min(100, length) characters |
| DocumentLanguage.CheckDocumentLanguage | app/rules/document_language.py:14-47 | at most one critical finding: missing `html` element, else a missing or blank `lang` on the first `html` |
| DocumentLanguage.NoHtmlElement | app/rules/document_language.py:16-29 | without an `html` element, the single finding shows the first 100 characters under target `document` |
| DocumentLanguage.LangDecision | app/rules/document_language.py:32-39 | for the first `html` element, wherever it stands, the missing-lang finding appears iff its `lang` is absent or all whitespace, and then targets `html` |
| DocumentLanguage.LangEnClean | app/rules/document_language.py:32-33 | `lang="en"` on the `html` element gives no finding |
| DocumentLanguage.LangBlankReported | app/rules/document_language.py:32-33 | `lang="  "` on the `html` element gives one finding |
| DescriptiveLinkText.ScanFindsAnyMatch | app/rules/descriptive_link_text.py:44-50 | the loop that stops at the first matching phrase finds one iff some phrase matches |
| DescriptiveLinkText.CheckDescriptiveLinkText | app/rules/descriptive_link_text.py:34-65 | one critical finding per non-descriptive link with `href` and no ARIA name, in order, target `a` |
| DescriptiveLinkText.PhrasesIff | app/rules/descriptive_link_text.py:18-50 | the seven phrases amount to: text is "details", or contains "more", or contains "here" |
| DescriptiveLinkText.MatchedPhraseCovered | app/rules/descriptive_link_text.py:18-50 | any phrase that matches implies the text is "details" or contains "more" or "here" |
| DescriptiveLinkText.EmptyLinkTextNotFlagged | app/rules/descriptive_link_text.py:37-50 | a link with empty text is never reported |
| DescriptiveLinkText.LinksOnly | app/rules/descriptive_link_text.py:34 | only `a` elements carrying `href` are examined |
| DescriptiveLinkText.AriaNamedLinkNotFlagged | app/rules/descriptive_link_text.py:40-41 | a non-empty aria-label or aria-labelledby keeps a link out |
| DescriptiveLinkText.MixedCaseLearnMore | app/rules/descriptive_link_text.py:37-49 | "learn More" is compared as "learn more" and reported |
| MediaCaptions.MediaElements | app/rules/media_captions.py:16 | the examined elements are the page's `video` and `audio` elements |
| MediaCaptions.StepBinding | app/rules/media_captions.py:18-75 | one element raises iff it needs descriptions, binds nothing and nothing was bound; otherwise the bound markup is its own when it got a captions or transcript finding |
| MediaCaptions.LoopRaisesIff | app/rules/media_captions.py:18-75 | the loop raises iff nothing was bound on entry and some element reaches the descriptions finding before any element bound markup |
| MediaCaptions.CheckMediaCaptions | app/rules/media_captions.py:9-76 | the rule raises iff some video lacking descriptions comes before every media element lacking captions, itself included; otherwise it reports the media elements' expected ids and severities in document order, and exactly the findings of `ExpectedIssues` (nodes in `ExpectedNodes`, stale advice in `DescriptionsAdviceOf`) |
| MediaCaptions.LastBindingIsLast | app/rules/media_captions.py:34-73 | the markup bound after some elements is that of the last element that got a captions or transcript finding, or the binding on entry when none did |
| MediaCaptions.ElementFindings | app/rules/media_captions.py:33-75 | one element's findings carry the expected ids and severities, each targets `[element.name]` with `str(element)` as html, and each advice quotes the element's own markup except the descriptions advice, which quotes the bound markup |
| MediaCaptions.StepFindings | app/rules/media_captions.py:18-75 | a successful step yields the element's findings quoting the markup bound after it |
| MediaCaptions.ExpectedSnoc | app/rules/media_captions.py:18-75 | one more element extends the binding and the expected findings by its own |
| MediaCaptions.StepExtendsExpected | app/rules/media_captions.py:18-75 | a successful step extends the expected findings by exactly the step's findings |
| MediaCaptions.LoopCons | app/rules/media_captions.py:18-75 | a successful loop is its first step followed by the rest of the loop |
| MediaCaptions.LoopFrom | app/rules/media_captions.py:18-75 | the loop started after some elements continues their expected findings |
| MediaCaptions.LoopFromStep | app/rules/media_captions.py:18-75 | one element more in the visited part keeps that continuation |
| MediaCaptions.LoopOutput | app/rules/media_captions.py:18-75 | a successful loop reports exactly the expected findings |
| MediaCaptions.ExpectedNodes | app/rules/media_captions.py:33-66 | every finding names a media element under its tag and quotes that element's markup |
| MediaCaptions.ExpectedPrefix | app/rules/media_captions.py:18-75 | the findings for the first elements begin the findings for all of them |
| MediaCaptions.DescriptionsAdviceOf | app/rules/media_captions.py:63-73 | each video lacking descriptions has its descriptions finding, whose advice quotes the markup last bound up to and including that video |
| MediaCaptions.LoopFindings | app/rules/media_captions.py:18-75 | a successful loop reports each element's expected ids and severities in order |
| MediaCaptions.PerElementFindings | app/rules/media_captions.py:33-75 | a video gives at most captions then descriptions, audio at most the transcript finding, other tags nothing |
| MediaCaptions.CaptionsOnlyVideoRaises | app/rules/media_captions.py:63-73 | a captions-only first video makes the rule raise |
| MediaCaptions.StaleMarkupReused | app/rules/media_captions.py:34-73 | a later captions-only video's descriptions advice quotes the earlier video's markup |
| Contrast.HexValue | app/rules/contrast.py:20 | a hex digit's value lies in 0..15 |
| Contrast.ParsePair | app/rules/contrast.py:20-22 | `int(pair, 16)` of two hex digits is 16·hi + lo; it succeeds only if one character is a hex digit and the other is a hex digit, a sign or whitespace the parser skips, and the value lies in -15..255 |
| Contrast.SeparatorIsNoPadding | app/rules/contrast.py:20-22 | U+001C before a digit makes `int()` fail, while a space or a tab around a digit is skipped |
| Contrast.LStripHash | app/rules/contrast.py:14 | `lstrip('#')` drops exactly the leading `#`s |
| Contrast.HexToRgb | app/rules/contrast.py:12-23 | decoding succeeds only when three or six characters remain after the `#`s, each channel then lies in -15..255, and three or six hex digits always decode into 0..255 |
| Contrast.SeparatorPaddedColourRejected | app/rules/contrast.py:12-23 | `"\x1ca0000"` does not decode, while `" a0000"` decodes to (10, 0, 0) |
| Contrast.HexColourDecodes | app/rules/contrast.py:12-23 | `#RRGGBB` and `#RGB` always decode, channel by channel (17·v for the short form), into 0..255 |
| Contrast.ShortFormIsDoubled | app/rules/contrast.py:14-16 | any number of leading `#`s with a short form decode as the doubled long form |
| Contrast.SameDigitsSameColour | app/rules/contrast.py:12-19 | two strings with the same characters after stripping `#`s and expanding decode to the same colour |
| Contrast.StripHashes | app/rules/contrast.py:14 | leading `#`s are stripped off any text that does not start with `#` |
| Contrast.OnlyThreeOrSix | app/rules/contrast.py:15-23 | any other length gives None |
| Contrast.ContrastRatio | app/rules/contrast.py:40-49 | the ratio is at least 1, and is 1 exactly for equal luminances |
| Contrast.RatioSymmetric | app/rules/contrast.py:45-47 | the ratio does not depend on the argument order |
| Contrast.RatioExtremes | app/rules/contrast.py:40-49 | one colour against itself has ratio 1; luminances 1 and 0 give 21 |
| Contrast.RatioAtMost21 | app/rules/contrast.py:40-49 | luminances in 0..1 give a ratio of at most 21 |
| Contrast.SkipSpaces | app/rules/contrast.py:76 | `\s*` consumes a maximal whitespace run |
| Contrast.MatchAt | app/rules/contrast.py:76-77 | a match at `i` ends after the key |
| Contrast.Search | app/rules/contrast.py:76-77 | `re.search` finds the leftmost match, and None means no position matches |
| Contrast.UpToColon | app/rules/contrast.py:80 | the first split field is a prefix |
| Contrast.AfterColon | app/rules/contrast.py:80 | the text after the first colon is a suffix |
| Contrast.MatchShape | app/rules/contrast.py:76-77 | a match is the key, whitespace, then `#` and three or six hex digits |
| Contrast.FieldOfDeclaration | app/rules/contrast.py:80 | split at the colon and stripped, a declaration gives exactly its colour |
| Contrast.DeclaredColourIsHex | app/rules/contrast.py:76-82 | what the rule extracts is always a hex colour, and always decodes |
| Contrast.DecodeBothHex | app/rules/contrast.py:91-98 | two found colours decode to both values |
| Contrast.CheckColorContrast | app/rules/contrast.py:63-122 | one critical `custom-color-contrast-low` per low-contrast text element with visible text, in order, naming its markup |
| Contrast.ContrastOnlyTextTags | app/rules/contrast.py:63-68 | only the fourteen text tags with non-empty stripped text are examined |
| Contrast.ContrastDecision | app/rules/contrast.py:63-108 | reported iff text tag, visible text, non-empty style with both declarations found, and ratio strictly below 4.5 |
| Contrast.StyleColoursFound | app/rules/contrast.py:75-98 | colours are missing only when a declaration is missing |
| Contrast.BackgroundFirstReadsBackground | app/rules/contrast.py:76-80 | when `background-color` is declared first, the unanchored `color:` search reads the background colour |
| Contrast.ColourKeyInsideBackground | app/rules/contrast.py:76 | in a style opening with a `background-color` declaration, the leftmost `color:` match starts eleven characters in and ends with it |
| Contrast.SecondFieldAfterKey | app/rules/contrast.py:79-80 | after a key ending in its only colon, `split(':')[1]` is the text up to the next colon |
| Contrast.SearchFrom | app/rules/contrast.py:76 | positions without a match can be skipped by the search |
| Contrast.BackgroundFirstAlwaysReported | app/rules/contrast.py:76-108 | such an element is reported whatever its real colours |
| AxeRunner.FormatNode | app/services/axe_runner.py:25-30 | a formatted node keeps html and target (default []) and nothing else |
| AxeRunner.FormatViolation | app/services/axe_runner.py:32-39 | id, description and help get defaults; impact is stored as severity (default "minor"); no impact, help URL or tags are carried |
| AxeRunner.FormatViolations | app/services/axe_runner.py:19-40 | one formatted dictionary per violation, in order; a missing `violations` key means none |
| AxeRunner.RunAxeScan | app/services/axe_runner.py:19-40 | the loop builds exactly that list |
| AxeRunner.MissingViolationsEmpty | app/services/axe_runner.py:19 | a report without violations formats to the empty list |
| AxeRunner.FormatAppend | app/services/axe_runner.py:22-40 | formatting distributes over concatenation: nothing dropped, merged or reordered |
| AxeRunner.ReformattingResetsSeverity | app/services/axe_runner.py:33-36 | formatting a formatted dictionary again resets its severity to "minor" |
| Analyzer.NodeOf | app/core/analyzer.py:78-85 | a node built from a node dictionary copies its five fields, with target defaulting to [] |
| Analyzer.NormalizeAsWritten | app/core/analyzer.py:87-95 | defaults "unknown-id", "No description", "No help provided", tags []; help URL passed through; severity read from `impact` |
| Analyzer.Normalize | app/core/analyzer.py:87-95 | the same normalisation with the severity read from `severity` |
| Analyzer.ScannerSeverityAlwaysMinorAsWritten | app/core/analyzer.py:92 | as written, every scanner issue is minor |
| Analyzer.CriticalReportedAsMinor | app/core/analyzer.py:92 | a critical violation comes out minor as written |
| Analyzer.ScannerIssueFaithful | app/services/axe_runner.py:32-39 | formatted then normalised, a violation keeps its id, texts, impact as severity and node markup/targets, with no help URL, tags or advisory |
| Analyzer.AxeIssues | app/core/analyzer.py:72-95 | corrected: one issue per violation, in order, keeping the scanner's impact |
| Analyzer.AxeIssuesAsWritten | app/core/analyzer.py:72-95 | as written: the same issues with every severity reset to minor |
| Analyzer.AxeCriticalCounted | app/core/analyzer.py:92 | corrected: a scanner issue is counted critical iff its violation's impact is critical |
| Analyzer.CustomIssues | app/core/analyzer.py:103-112 | the rules' issues fail exactly when the media rule raises |
| Analyzer.MergedIssues | app/core/analyzer.py:75-117 | the merged list fails exactly when the media rule raises, and holds at least the scanner's issues |
| Analyzer.MergedIssuesAsWritten | app/core/analyzer.py:75-117 | as written, the merged list fails exactly when the media rule raises; otherwise it is the corrected list with the scanner's issues, which come first, made minor |
| Analyzer.MergedOrder | app/core/analyzer.py:75-117 | the merged list is the scanner's issues, then alt, headings, labels, contrast, empty, lang, link and media outputs, each run exactly |
| Analyzer.NineRuns | app/core/analyzer.py:114-116 | each part of the nine-part concatenation sits at its offset |
| Analyzer.SliceOfConcat | app/core/analyzer.py:114-116 | the two halves of a concatenation are recovered by slicing |
| Analyzer.RequestFor | app/core/analyzer.py:126-127 | a request carries the description, the help and the first node's markup; the markup is "" exactly when there is no node or no non-empty first markup |
| Analyzer.EnrichmentRequests | app/core/analyzer.py:122-127 | one request per issue, in order |
| Analyzer.NoIssuesNoRequests | app/core/analyzer.py:129-147 | there are no requests exactly when there are no issues |
| Analyzer.SuggestionOf | app/core/analyzer.py:134-144 | an outcome yields an advisory iff it is a dictionary with both texts, and then exactly those texts |
| Analyzer.Attach | app/core/analyzer.py:133-144 | length kept; issue k gets outcome k's advisory or none, and nothing else changes |
| Analyzer.AttachIsolated | app/core/analyzer.py:133-144 | replacing outcome j leaves every other issue unchanged |
| Analyzer.FailedOutcomeClears | app/core/analyzer.py:134-144 | a failed outcome or a rejected dictionary clears that issue's advisory |
| Analyzer.AttachOverwrites | app/core/analyzer.py:137-144 | advisories set by the rules are always overwritten |
| Analyzer.AttachKeepsSummary | app/core/analyzer.py:133-144 | attaching advisories leaves summary and score unchanged |
| Analyzer.SameSeveritiesSameCount | app/core/result_processor.py:28-44 | bucket counts depend on the severities alone |
| Analyzer.AttachAsWritten | app/core/analyzer.py:133-144 | as written, a successful run keeps the number of issues |
| Analyzer.AttachAsWrittenRaisesIff | app/core/analyzer.py:133-144 | as written, attaching raises iff some outcome fails or is rejected, and otherwise equals `Attach` |
| Analyzer.AttachFromIff | app/core/analyzer.py:133-144 | the same from any position of the loop |
| Analyzer.OneFailedOutcomeRaisesAsWritten | app/core/analyzer.py:134-136 | one exception outcome makes the analysis raise as written; corrected, it only clears that issue's advisory |
| Analyzer.PageTitle | app/core/analyzer.py:51-65 | with no `title` element the title is "N/A" |
| Analyzer.PageTitleIff | app/core/analyzer.py:51-65 | a title other than "N/A" comes from the first `title` element's single text, stripped; such a text, when non-empty, is always used |
| Dom.FirstNamedIsFirst | app/core/analyzer.py:63 | `find` returns the element at the first position with that name |
| Analyzer.Gather | app/core/analyzer.py:129-131 | one outcome per request, in order |
| Analyzer.RunFullAnalysis | app/core/analyzer.py:30-154 | corrected: raises exactly when the media rule raises; otherwise returns the page markup unchanged and the page title |
| Analyzer.AnalysisIssues | app/core/analyzer.py:75-149 | corrected: the returned issues are the merged list, each with the advisory of its own request's outcome |
| Analyzer.AnalysisSummaryIgnoresAdvice | app/core/analyzer.py:121-149 | the scored summary of the result equals that of the merged list before enrichment |
| Analyzer.RunFullAnalysisAsWritten | app/core/analyzer.py:30-154 | as written: every failure surfaces as NameError from the outer handler; a media-rule failure always fails; a success returns the page markup and the title |
| Analyzer.PrefixReset | app/core/analyzer.py:114-116 | resetting the severities of the first list resets them at the same positions of the concatenation |
| Analyzer.RequestsIgnoreSeverity | app/core/analyzer.py:122-127 | the requests depend on description, help and nodes, not on severity |
| Analyzer.AttachToReset | app/core/analyzer.py:122-144 | attaching as written to the list with reset severities raises iff some merged issue's request yields no advisory, and otherwise gives the corrected attach with those severities reset |
| Analyzer.RunFullAnalysisAsWrittenRaisesIff | app/core/analyzer.py:121-154 | for scanner dictionaries of the right types, when the media rule succeeds, the as-written analysis raises iff the service fails or is rejected for some merged issue's request |
| Analyzer.AsWrittenIsCorrectedWithMinorScanner | app/core/analyzer.py:72-149 | a successful as-written analysis returns the corrected result with the scanner's issues made minor, and the same markup and title |

## Left out

- HTML parsing (BeautifulSoup with lxml) is not modelled. The page is a `Document` whose elements carry what the rules read. How markup becomes elements, and `str(element)` serialisation, are not modelled.
- `get_luminance` (app/rules/contrast.py:25-38) is floating-point arithmetic and is not modelled. The luminance is any non-negative function, and the contrast ratio is computed over exact reals.
- Contrast.ParsePair: the whitespace `int(x, 16)` skips, and its signs, are modelled. Non-ASCII decimal digits, which Python maps to ASCII digits before parsing, are rejected by the model.
- Contrast.HexToRgb: inherits that gap. A channel written with a non-ASCII decimal digit decodes in Python and gives None here.
- Text.ToLower: lower-cases ASCII letters only. Python's `lower()` also maps non-ASCII letters.
- The advisory service (app/services/ai_helper.py) is not modelled. It is a parameter that returns an outcome per request.
- Analyzer.Gather: `asyncio.gather` concurrency is replaced by applying a deterministic service to each request in order. An outcome that differs between two identical requests is not modelled.
- The browser, the axe-core injection and run, and driver acquisition and shutdown are not modelled (app/services/browser.py, app/services/axe_runner.py:10-15, app/core/analyzer.py:55-57,156-159). The page and the scanner report are inputs.
- The missing `traceback` import in app/core/analyzer.py is modelled for the attaching loop (Analyzer.AttachAsWritten) and for the outer handler (Analyzer.RunFullAnalysisAsWritten). The violation handler (98) is never reached in the model, see the next lines.
- Analyzer.RunFullAnalysis: models the corrected pipeline. The scanner's severity is read from `severity`, and a failed or rejected outcome only clears its advisory. The pipeline as written is Analyzer.RunFullAnalysisAsWritten.
- Analyzer.AxeIssues: models the corrected severity reading. As written, every scanner issue is minor (Analyzer.AxeIssuesAsWritten).
- Analyzer.AnalysisIssues: describes the corrected pipeline. As written, a run that does not raise gives the same issues with the scanner's issues made minor (Analyzer.AsWrittenIsCorrectedWithMinorScanner).
- Scanner dictionaries of the wrong type are not modelled. The model types a node's `target` as a list of strings, and reads a JSON null as an absent key, so every scanner value it can express passes the `IssueNode` and `Issue` schemas. The real scanner can send values that fail them:
  - a node inside a shadow DOM has a nested array of selectors as its `target`, which `IssueNode.target: List[str]` (app/schemas.py:79) rejects;
  - a null `id` or `description` is rejected by `Issue` (app/schemas.py:93-95).
- The violation handler for such values (app/core/analyzer.py:96-99) is not modelled. As written, it calls `traceback.format_exc()` at line 98, which raises NameError, and the outer handler at 151-153 raises NameError again, so the whole analysis fails. The evident intent is that the malformed violation is skipped.
- Analyzer.RunFullAnalysisAsWrittenRaisesIff: its "raises iff" covers scanner dictionaries of the right types only. As written, a malformed violation also makes the analysis raise, through the violation handler.
- JSON nulls, a key present with value None, are not distinguished from absent keys. In Python, `get(key, default)` returns None for such a key.
- HttpUrl validation and normalisation of `helpUrl` and of the analysed URL are not modelled. Both are plain strings.
- Persistence, HTTP routes, authentication, start-up and configuration are not modelled (app/database, app/routers, app/auth, app/main.py, app/config.py). app/api/analyze.py is a superseded revision and is not part of this model.
- `PyObjectId` and the report timestamp are not modelled.
- Logging, and the title extraction's exception handler, are not modelled.
- The wording of descriptions, help texts and fixes is replaced by `Prose` placeholders. The markup each advisory quotes is kept.
- In descriptive_link_text.py:46, `phrase.replace(r'\b', '').strip()` leaves each of the seven phrases unchanged. They are compared as listed.

## Findings

| source | as written | input that shows it | evidently intended | confidence | as-written member | corrected member |
|---|---|---|---|---|---|---|
| app/core/analyzer.py:92 | severity is read from `impact`, which the formatter (app/services/axe_runner.py:36) stores as `severity` | any scanner violation with impact "critical": its issue is stored as "minor" | severity is the scanner's impact | not executed; high: the formatter's output never has an `impact` key | Analyzer.NormalizeAsWritten | Analyzer.Normalize |
| app/core/analyzer.py:134-144 | the handlers for a failed outcome or a rejected dictionary call `traceback.format_exc()`, but `traceback` is never imported | one issue whose outcome is an exception, or a dictionary whose `short_fix` is null | that issue's advisory is set to None and the analysis continues | not executed; high: the name is not defined anywhere in the module | Analyzer.AttachAsWritten | Analyzer.Attach |
