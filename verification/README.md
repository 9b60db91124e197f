# MatchMy-Resume in Dafny

MatchMy-Resume is a single-page React application. It compares a résumé with a
job description by asking a language model for a JSON analysis, then shows that
analysis as a set of cards. This project models the logic of the page and proves
properties about it:

- **Prompt** (`prompt.dfy`): the request text. It is a fixed instruction block, the
  first 10000 characters of the résumé, a heading, and the first 5000 characters of
  the job description.
- **Extractor** (`extractor.dfy`, `bare_regex.dfy`, `lazy_match.dfy`, `json_parser.dfy`):
  `extractJSON`, which recovers a JSON value from free-form model output. It tries
  three strategies in order: a direct `JSON.parse`, then a fenced ```` ```json ```` block,
  then the first `{…}`. The last two run on the text after every run of whitespace has
  been collapsed to one space.
  - The two regexes are modelled as leftmost-match scanners.
  - `JSON.parse` is modelled as a recursive-descent parser that returns `None` where
    JavaScript throws.
- **Normalizer** (`normalizer.dfy`, `json.dfy`): the `matchPercentage` check and the
  shallow spread `{...defaultAnalysis, ...parsed}`.
  - A JSON object is an ordered list of members.
  - Reading a key gives the last member with that key.
  - Writing a key replaces it in place, or appends it when the key is new.
- **Session** (`session.dfy`): the page state of `App`. The analysis request goes through
  a guarded dispatch, then a completion per dispatched call. The page also takes upload
  and edit events.
- **AnalysisResults**, **ScoreBands**, **AtsCompatibility**, **ScoreBreakdown**: what the
  results panel shows.
  - Which face it shows: loading skeleton, placeholder, report, or a render that throws.
  - Which cards appear.
  - The colour and label bands of the scores.
  - The keyword hint.
- **ResumeEditor** (`resume_editor.dfy`): the suggestions the editor derives from
  per-section feedback strings, and the editor state that applying a suggestion changes.
- **Text** and **Wrappers**: the string operations the page uses (`trim`, `split`,
  `substring`, first-occurrence `replace`, whitespace collapsing) and `Option`/`Result`.

Numbers are modelled as mathematical reals. A JSON value that JavaScript's `ToNumber`
would convert from a string, array or object is marked `Uncoerced`. Where that value
decides a result, the result is left open (`None`).

The code behaves as follows, which may be surprising:

- The direct parse keeps any non-null object, arrays included. It does not require a
  JSON object.
- The bare-object regex is lazy. It stops at the first `}`, so it never recovers a
  nested object (`Extractor.BareCaptureIsFlat`).
- Only the Analyze button prevents a second request while one is in flight;
  `analyzeResume` itself does not check `loading` (`Session.DirectCallsOverlap`).
- A suggestion's `fromText` is the first quoted phrase only when that phrase is
  non-empty. Otherwise it is the trimmed text before the first arrow. An empty first
  quote is not skipped in favour of a later one.
- A field guarded by `v && …` that holds the number 0 is rendered by React as the text
  "0". This includes the default `atsScore` and a `summary`, `scoreBreakdown`,
  `strengths`, `weaknesses` or `keyChanges` of 0 (`AnalysisResults.ReportOf`).

## Model

| member | source | states |
|---|---|---|
| Prompt.Assemble | src/App.jsx:61-95 | the request is the instruction block, then exactly the first min(n, 10000) résumé characters, then the job heading, then exactly the first min(m, 5000) job characters, and nothing else |
| Prompt.PromptSeesOnlyExcerpts | src/App.jsx:92-95 | two input pairs that agree on their first 10000 and 5000 characters yield the same prompt |
| Prompt.ResumeTruncated | src/App.jsx:92 | résumé characters past position 10000 never reach the model |
| Prompt.JobTruncated | src/App.jsx:95 | job-description characters past position 5000 never reach the model |
| Prompt.AssembleRecoverable | src/App.jsx:91-95 | the excerpts can be read back from the request once the résumé excerpt's length is known, so truncation is the only information lost |
| Text.Take | src/App.jsx:92 | `substring(0, n)` is the prefix of length min(|s|, n) |
| Text.Collapse | src/App.jsx:23 | after collapsing, every whitespace character is a single space, no two spaces are adjacent, and the text is empty only if the input was |
| Text.CollapseRun | src/App.jsx:23 | a run of whitespace between visible text becomes exactly one space, and the text on either side is collapsed on its own (so `"a b"` stays `"a b"`) |
| Text.CollapseAppend | src/App.jsx:23 | collapsing distributes over a cut made just after a visible character |
| Text.CollapseKeepsVisible | src/App.jsx:23 | collapsing keeps every non-whitespace character, in order |
| Text.CollapseMembership | src/App.jsx:23 | a non-whitespace character occurs in the collapsed text iff it occurs in the input |
| Text.CollapseHasNoLineTerminator | src/App.jsx:23-24 | collapsed text has no line terminator, so a regex `.` matches all of it |
| Text.CollapseIdempotent | src/App.jsx:23 | collapsing twice is collapsing once |
| JsonParser.BraceTextParsesToObject | src/App.jsx:26 | a capture that starts with `{` parses, if at all, to an object |
| JsonParser.ObjectNeedsBrace | src/App.jsx:17-19 | only text containing `{` can parse to an object |
| JsonParser.ContainerNeedsBracket | src/App.jsx:17-19 | only text containing `{` or `[` can pass the direct-parse test |
| JsonParser.SingleBraceObjectIsFlat | src/App.jsx:30-32 | text with one `}`, at its end, parses to an object with no object-valued member |
| JsonParser.SurrogatePairDecodes | src/App.jsx:17 | a `\u` escape of a leading surrogate half followed by one of a trailing half decodes to the single character the pair encodes |
| JsonParser.Combine | src/App.jsx:17 | a surrogate pair stands for a code point above U+FFFF whose high and low ten bits are the two halves' offsets |
| JsonParser.EmojiEscape | src/App.jsx:17 | the string body `\ud83d\ude00"` parses to U+1F600 |
| LazyMatch.LazyUntil | src/App.jsx:30 | the lazy `.*?}` ends at the first `}` unless a line terminator comes first; `None` exactly when no such `}` exists |
| LazyMatch.FindDelimited | src/App.jsx:30 | `match(/{.*?}/)` returns the leftmost match; no match starts earlier; `None` exactly when nothing matches |
| LazyMatch.FirstCapture | src/components/ResumeEditor.jsx:22-23 | group 1 of `/"(.*?)"/` or `/→ "(.*?)"/` is the text inside the leftmost match; absent iff no match exists; never contains the closing quote |
| LazyMatch.CaptureAt | src/components/ResumeEditor.jsx:22-23 | a match with no opening delimiter before it is the one whose group is returned |
| LazyMatch.LazyUntilFindsFirst | src/App.jsx:30 | on line-terminator-free text the lazy `.*?` scan stops exactly at the first `}` at or after its start, and fails iff there is none |
| BareRegex.BareSpan | src/App.jsx:23-30 | on collapsed text the bare regex's match is exactly `FirstBraceSpan`: none unless a `}` follows the first `{`, otherwise from that `{` to the first `}` after it |
| BareRegex.BareMatchAtFirstBrace | src/App.jsx:30 | on collapsed text a `{` with a `}` after it starts a match ending at the first such `}` |
| BareRegex.FirstMatchWins | src/App.jsx:30 | a match that starts at the first `{` is the one the regex reports |
| BareRegex.BareSpanFound | src/App.jsx:30 | on collapsed text with a `}` after the first `{`, the match is `FirstBraceSpan` |
| BareRegex.BareSpanMissing | src/App.jsx:30 | when no `}` follows the first `{`, there is no match, as `FirstBraceSpan` says |
| BareRegex.NoBraceNoBareMatch | src/App.jsx:30-35 | without a `{` the bare regex cannot match |
| Extractor.FencedClose | src/App.jsx:24 | the lazy `.*?}\s*```` ends at the first `}` that a closing fence follows; none earlier qualifies |
| Extractor.FencedAt | src/App.jsx:24 | the fenced regex matches at a position iff the result is present, and group 2 runs from the `{` after the fence and optional `json` to the nearest closing `}` |
| Extractor.FindFenced | src/App.jsx:24-25 | the leftmost fenced match; no match starts earlier; `None` iff the regex finds nothing |
| Extractor.FencedGroup | src/App.jsx:24-25 | group 2 of the fenced regex is present iff the regex matches, and it is the text of the leftmost match from its `{` to its `}` |
| Extractor.BareGroup | src/App.jsx:30-31 | the bare regex's match is present iff the regex matches, and it runs from the leftmost match's `{` to its `}` |
| Extractor.ParseCapture | src/App.jsx:26-38 | a regex capture parses to an object, or the extraction fails with the parse-error message |
| Extractor.Recover | src/App.jsx:22-39 | a fenced group, when present, decides: success iff it parses, with its parsed value, otherwise the parse-error message; without one, the bare match decides in the same way; with neither, the no-structure message |
| Extractor.ExtractJson | src/App.jsx:14-40 | a direct-parse hit is returned as is and anything else goes to the regex strategies; any success is an object or array; any failure is one of the two fixed-format messages carrying the first 100 characters |
| Extractor.FencedRecovery | src/App.jsx:22-27 | when the direct parse misses and the fenced group parses, its value is the result |
| Extractor.BareRecovery | src/App.jsx:29-33 | when the direct parse misses, no fenced group exists and the bare match parses, its value is the result |
| Extractor.NoMatchNoStructure | src/App.jsx:35-38 | when the direct parse misses and neither regex matches, the extraction fails with "No valid JSON structure found in response" |
| Extractor.FailureMessage | src/App.jsx:38 | a failure message is a fixed head, the reason, a fixed tag, exactly the first min(n, 100) characters received, and a fixed tail |
| Extractor.FailureQuotesOnlyPrefix | src/App.jsx:38 | texts that agree on their first 100 characters fail with the same message |
| Extractor.FailureReasonsDiffer | src/App.jsx:35-38 | the no-structure and the parse-error messages never coincide |
| Extractor.ScalarFallsThrough | src/App.jsx:17-21 | a text that parses to a scalar or `null` goes on to the regex strategies |
| Extractor.FencedFailureIsFinal | src/App.jsx:24-38 | once the fenced regex yields a group, a group that does not parse fails the extraction with the parse-error message, whatever the bare regex would find |
| Extractor.BareCaptureIsFlat | src/App.jsx:30-32 | what the bare regex recovers has no nested object |
| Extractor.BareRecoveryIsFlat | src/App.jsx:29-33 | a value recovered by the third strategy has no object-valued member |
| Extractor.BareGroupIsFlat | src/App.jsx:30-32 | the bare regex's match, when it parses, is an object with no object-valued member |
| Extractor.RecoverFromBare | src/App.jsx:24-33 | when the fenced regex finds nothing, a recovered value is what the bare regex's match parses to |
| Extractor.NoBraceNoMatch | src/App.jsx:24-30 | without a `{` neither regex matches |
| Extractor.BraceFreeInput | src/App.jsx:14-40 | text without `{` either parses directly to an array or fails with "No valid JSON structure found" |
| Json.Get | src/App.jsx:106 | a property read is absent exactly when no member has that name |
| Json.Put | src/App.jsx:132 | writing a property sets it, leaves every other property's value alone, keeps the name order, appends a new name at the end, and keeps names unique |
| Json.ToNumber | src/components/AnalysisResults.jsx:53-78 | comparisons see a JSON number's own value, `null` as 0, booleans as 0 and 1, a missing property as NaN; a string, array or object is left uncoerced |
| Normalizer.Validate | src/App.jsx:103-108 | the extracted value is accepted iff it is an object whose `matchPercentage` is a number; otherwise the fixed message is thrown |
| Normalizer.OverlayGet | src/App.jsx:132 | after the spread a name the candidate has reads the candidate's value; any other name reads the default's |
| Normalizer.OverlayKeys | src/App.jsx:132 | the default names keep their leading positions and no name is doubled |
| Normalizer.Normalize | src/App.jsx:103-132 | accepted iff `matchPercentage` is numeric; the result has unique names, every default field, the candidate's values where it has them and the defaults otherwise, and a numeric `matchPercentage` |
| Normalizer.OverlayIdempotent | src/App.jsx:132 | spreading the defaults under an already spread object changes nothing |
| Normalizer.NormalizeIdempotent | src/App.jsx:103-132 | normalising a normalised analysis returns it unchanged |
| Normalizer.ShallowBreakdown | src/App.jsx:113-132 | a partial `scoreBreakdown` replaces the default object wholesale; missing sub-scores stay missing |
| Normalizer.DefaultValues | src/App.jsx:119-129 | the defaults of `atsScore`, `missingKeywords` and `summary` are 0, `[]` and "No summary available" |
| Normalizer.NormalizeFallsBack | src/App.jsx:110-132 | a field the candidate lacks reads its default |
| Normalizer.BackfillFromDefaults | src/App.jsx:110-132 | a candidate with only `matchPercentage` gets every other field from the defaults |
| Session.Start | src/App.jsx:42-48 | with an input missing nothing changes; otherwise loading starts, the previous analysis and error are cleared, and the résumé is snapshotted |
| Session.Request | src/App.jsx:43-97 | a request is sent exactly when both inputs are non-empty, and what it sends is the prompt built from the first 10000 résumé and 5000 job characters as they stand at the call |
| Session.RequestSeesOnlyExcerpts | src/App.jsx:61-97 | two pages whose inputs agree on their first 10000 and 5000 characters send the same request |
| Session.FailureText | src/App.jsx:137 | the shown error message is the fixed prefix, exactly the reason, and the fixed suffix |
| Session.FailureReason | src/App.jsx:137 | a reason read back from a shown message wraps to that message again |
| Session.FailureTextRoundTrip | src/App.jsx:137 | the reason can always be read back from the shown message |
| Session.Process | src/App.jsx:97-132 | a response yields an analysis iff extraction succeeds with a numeric `matchPercentage`, and that analysis is the normalised extracted value; an extraction failure passes its message on; the analysis has unique names and all default fields |
| Session.Complete | src/App.jsx:133-140 | a completion always ends loading and leaves the inputs alone; a failure sets the wrapped error, a success sets the analysis |
| Session.OneOutcome | src/App.jsx:133-140 | after a dispatch and its completion, exactly one of analysis and error is set |
| Session.Step | src/App.jsx:42-48 | only an upload changes the résumé, setting both the résumé text and the original text and nothing else; only an edit changes the job description, and nothing else; the disabled button does nothing, the enabled one starts loading; each event dispatches at most one call |
| Session.Run | src/App.jsx:42-48 | a run dispatches at most one call per event, and each input ends as it started or as the text of one of its own events |
| Session.NoDispatchWhileLoading | src/App.jsx:208 | while loading, the Analyze button does nothing |
| Session.GuardLeavesStateUnchanged | src/App.jsx:43 | with an input missing, `analyzeResume` returns at once, whoever calls it |
| Session.ControlsKeepSingleFlight | src/App.jsx:206-210 | through the page's controls at most one request is in flight, and loading holds exactly while one is |
| Session.PageIsSingleFlight | src/App.jsx:206-210 | every session of the page, from its initial state, stays single-flight |
| Session.DirectCallsOverlap | src/App.jsx:42-48 | two calls of `analyzeResume` that bypass the button put two requests in flight, and the first response ends loading while the second is outstanding |
| Session.ScreenFollowsLifecycle | src/App.jsx:243-247 | a dispatch shows the skeleton; its completion shows the report for an analysis the panel can draw, a failed render for one it cannot, or the placeholder with a non-empty error |
| ScoreBands.MatchTone | src/components/AnalysisResults.jsx:53-58 | green iff the percentage is at least 80, blue iff in [60, 80), yellow iff in [40, 60), red iff below 40 |
| ScoreBands.MatchLabel | src/components/AnalysisResults.jsx:60-65 | "Excellent match!" iff at least 80, "Good match" iff in [60, 80), "Partial match" iff in [40, 60), "Low match" iff below 40 |
| ScoreBands.MatchLabelAgreesWithTone | src/components/AnalysisResults.jsx:53-65 | the label is a function of the colour and the colour a function of the label |
| ScoreBands.MatchToneMonotone | src/components/AnalysisResults.jsx:53-58 | a higher percentage never gets a worse colour |
| ScoreBands.Status | src/components/AnalysisResults.jsx:73-78 | the four ATS statuses partition the scores at 80, 60 and 40 |
| ScoreBands.AtsTone | src/components/AnalysisResults.jsx:67-71 | ATS colours have no yellow band: green at 80 and above, blue from 60, red below 60 |
| ScoreBands.AtsToneFollowsStatus | src/components/AnalysisResults.jsx:67-78 | the colour is determined by the status, and red covers exactly Fair and Poor |
| ScoreBands.PassMessage | src/components/AnalysisResults.jsx:161 | the pass line is one of its two fixed texts |
| ScoreBands.PassMessageFollowsStatus | src/components/AnalysisResults.jsx:161 | the score is said to pass exactly when its status is Excellent or Good |
| ScoreBands.AtsHeading | src/components/AnalysisResults.jsx:167-169 | "ATS-friendly!" iff the score is at least 80, "mostly ATS-friendly" iff in [60, 80), "Key areas to improve" iff below 60 |
| ScoreBands.AtsHeadingFollowsTone | src/components/AnalysisResults.jsx:167-169 | each feedback heading goes with exactly one colour band |
| ScoreBands.BarTone | src/components/ScoreBreakdown.jsx:36-38 | the bar colours use strict comparisons: green above 75, blue above 50 up to 75, red at 50 and below |
| ScoreBands.LegendTone | src/components/ScoreBreakdown.jsx:47-59 | the legend promises green from 75, blue from 50 below 75, red below 50, and no yellow |
| ScoreBands.BarDisagreesWithLegend | src/components/ScoreBreakdown.jsx:36-58 | on whole percentages the bars match the legend except at exactly 75 and 50 |
| ScoreBands.ThresholdsShowLower | src/components/ScoreBreakdown.jsx:36-54 | at 75 and 50 the bar is one band below what the legend promises |
| ScoreBands.BarToneMonotone | src/components/ScoreBreakdown.jsx:36-38 | a higher sub-score never gets a worse bar |
| ScoreBreakdown.BarToneOf | src/components/ScoreBreakdown.jsx:36-38 | a numeric sub-score gets its band's colour and a missing one is red |
| ScoreBreakdown.Rows | src/components/ScoreBreakdown.jsx:5-38 | four rows in the fixed order, each with its label, the breakdown's value for its name and that value's bar colour |
| ScoreBreakdown.RowsSeeOnlySections | src/components/ScoreBreakdown.jsx:20-38 | the rows depend only on the four named properties |
| ScoreBreakdown.MissingSectionIsRed | src/components/ScoreBreakdown.jsx:36-38 | a missing sub-score draws a red bar |
| AtsCompatibility.Render | src/components/ATSCompatibility.jsx:5-49 | the panel's colour, status and pass line follow the score's bands, with four tips |
| AtsCompatibility.TipsIgnoreScore | src/components/ATSCompatibility.jsx:18-39 | every score shows the same four tips in the same order |
| AtsCompatibility.PanelBands | src/components/ATSCompatibility.jsx:5-16 | the status is one of the four bands; the pass line and the red colour each match a pair of statuses |
| AnalysisResults.KeywordList | src/components/AnalysisResults.jsx:47-51 | an array is kept as is; a string gives one comma-free piece per comma plus one; anything else gives none |
| AnalysisResults.KeywordStringRoundTrip | src/components/AnalysisResults.jsx:50 | joining the pieces of a string keyword list with commas gives back the string |
| AnalysisResults.Chip | src/components/AnalysisResults.jsx:273 | a string keyword chip shows the keyword with its surrounding whitespace removed (a whitespace-bounded slice with no whitespace at either end, which is the trimmed text by `Text.TrimUnique`); a non-string keyword has no chip, because `trim` throws on it |
| AnalysisResults.KeywordHint | src/components/AnalysisResults.jsx:189-196 | the hint shows for a non-empty array: its first min(n, 5) items, and the count beyond five when there are more |
| AnalysisResults.HintAccountsForAll | src/components/AnalysisResults.jsx:195-196 | the shown keywords plus the "more" count add up to all of them |
| AnalysisResults.MoreText | src/components/AnalysisResults.jsx:196 | the "(and N more)" suffix is present exactly when there are more |
| AnalysisResults.AtsViewOf | src/components/AnalysisResults.jsx:153-200 | a score of 0 renders a bare "0"; any other falsy score renders nothing; a truthy score that compares as a number shows the card, with colour, status, pass line and heading from its bands, the feedback block iff it is below 80, and the keyword hint only inside that block |
| AnalysisResults.MatchBandOf | src/components/AnalysisResults.jsx:85-95 | a numeric percentage gets its colour and label; only an uncoerced value leaves them open |
| AnalysisResults.ReportOf | src/components/AnalysisResults.jsx:85-305 | each card appears under its own condition: a truthy summary, breakdown or ATS score; a non-empty strengths, weaknesses or key-changes array; the coerced keyword list. A summary, breakdown, strengths, weaknesses or key changes equal to the number 0 shows a bare "0" instead of its card |
| AnalysisResults.ZeroStrengthsShowZero | src/components/AnalysisResults.jsx:234 | `{"matchPercentage": 50, "strengths": 0}` renders without throwing, with a bare "0" where the strengths card would be |
| AnalysisResults.CardBars | src/components/AnalysisResults.jsx:119-141 | the in-panel breakdown card draws one bar per property of the breakdown, captioned by its name, showing its value, coloured green above 75, blue above 50 and red otherwise, and with the colour left open exactly where the number conversion is not modelled |
| AnalysisResults.CardBarsAgreeWithPanel | src/components/AnalysisResults.jsx:136-141 | the in-panel card's bar for skills, experience, education or keywords shows the same value and colour as that section's row in the stand-alone panel |
| AnalysisResults.Render | src/components/AnalysisResults.jsx:20-330 | loading shows the skeleton; otherwise the placeholder appears iff the analysis or the input is missing; with both, the render fails iff strengths, weaknesses or key changes is a non-empty string, a keyword is not a string, or the ATS feedback block is shown and one of its four lists is a non-empty string; otherwise it shows the report |
| AnalysisResults.WellTypedRenders | src/components/AnalysisResults.jsx:176-322 | an analysis whose list fields are arrays of strings, as the prompt asks, always renders its report |
| AnalysisResults.NonStringKeywordCrashes | src/components/AnalysisResults.jsx:268-273 | a keyword that is not a string makes the render fail |
| AnalysisResults.StringListCardCrashes | src/components/AnalysisResults.jsx:234-314 | strengths, weaknesses or key changes given as a non-empty string make the render fail, since a string has no `map` |
| AnalysisResults.DefaultAtsScoreShowsZero | src/App.jsx:119-132 | without a model-supplied `atsScore` the default 0 is falsy, so the ATS card is hidden and React renders a bare "0" in its place |
| AnalysisResults.NormalizedMatchBand | src/components/AnalysisResults.jsx:53-65 | every normalised analysis has a defined match colour and label |
| AnalysisResults.DefaultKeywordsEmpty | src/App.jsx:120-132 | without model-supplied keywords the keyword card lists none |
| Text.Trim | src/components/ResumeEditor.jsx:22-23 | `trim()` is a slice of the input with only whitespace around it, and neither starts nor ends with whitespace |
| Text.TrimUnique | src/components/ResumeEditor.jsx:22-23 | any whitespace-bounded slice with no whitespace at either end is the trimmed text, so those two facts pin `trim()` |
| Text.SplitOn | src/components/ResumeEditor.jsx:22-23 | `split(c)` gives one more piece than there are separators; no piece contains the separator; joining the pieces gives back the input |
| Text.SplitJoin | src/components/AnalysisResults.jsx:50 | splitting undoes joining for separator-free pieces |
| Text.SplitPieces | src/components/ResumeEditor.jsx:22-23 | the first piece is the text before the first separator, and a second piece exists iff the separator occurs |
| Text.ReplaceFirst | src/components/ResumeEditor.jsx:11 | `replace` with a string pattern splices the replacement over the first occurrence only; without one the text is unchanged |
| Text.NatToDecimal | src/components/ResumeEditor.jsx:27 | the index's decimal rendering is a shortest digit string denoting it |
| ResumeEditor.FromTextMeaning | src/components/ResumeEditor.jsx:22 | a non-empty first quoted phrase is the from-text, with no quote in it; otherwise the from-text is `Trim` of the text before the first arrow, and has no whitespace at either end |
| ResumeEditor.ToTextMeaning | src/components/ResumeEditor.jsx:23 | a non-empty quoted phrase after `→ ` is the to-text; otherwise there is one iff the feedback has an arrow, and then it is `Trim` of the piece after it, with no whitespace at either end |
| ResumeEditor.EmittedNeedsArrow | src/components/ResumeEditor.jsx:22-25 | every listed suggestion comes from feedback that contains an arrow |
| ResumeEditor.PlainArrowFeedback | src/components/ResumeEditor.jsx:22-32 | unquoted feedback `left → right` gives a suggestion from trimmed left to trimmed right, with id `section-index` |
| ResumeEditor.QuotedFeedback | src/components/ResumeEditor.jsx:22-32 | feedback `"left" → "right"` gives a suggestion from left to right |
| ResumeEditor.IdInjective | src/components/ResumeEditor.jsx:27 | distinct (section, index) pairs get distinct ids |
| ResumeEditor.Id | src/components/ResumeEditor.jsx:27 | an id is the section name, a dash, and the decimal index, which holds no dash |
| ResumeEditor.Candidates | src/components/ResumeEditor.jsx:20-33 | each feedback of a section is read at its own index |
| ResumeEditor.EmittedMembers | src/components/ResumeEditor.jsx:25-33 | only feedback that produces a suggestion is listed, and all such suggestions are listed |
| ResumeEditor.FlattenMembers | src/components/ResumeEditor.jsx:18-35 | the suggestion list holds exactly the suggestions of all sections |
| ResumeEditor.PositionsInOrder | src/components/ResumeEditor.jsx:20-34 | the present candidates of a section are listed in increasing position, each from its own position, with none left out |
| ResumeEditor.SourcesInOrder | src/components/ResumeEditor.jsx:19-35 | the flattened list is ordered by section, then by position, each suggestion from its own (section, position), with none left out |
| ResumeEditor.AllSuggestionsOrdered | src/components/ResumeEditor.jsx:18-35 | a later suggestion in the list comes from a later section, or from a later feedback in the same section |
| ResumeEditor.AllIdsDistinct | src/components/ResumeEditor.jsx:19-32 | with distinct section names, no two listed suggestions share an id |
| ResumeEditor.AllSuggestionsExact | src/components/ResumeEditor.jsx:18-35 | every feedback that yields a suggestion contributes it to the list |
| ResumeEditor.AllSuggestionsSound | src/components/ResumeEditor.jsx:18-35 | every listed suggestion comes from some feedback string of some section |
| ResumeEditor.KeepPresent | src/components/ResumeEditor.jsx:20-34 | the loop over one section keeps each present suggestion once, in increasing position, and every present one |
| ResumeEditor.KeepPresentAll | src/components/ResumeEditor.jsx:19-35 | the loop over all sections lists every present suggestion once, ordered by section and then by position |
| ResumeEditor.CollectSuggestions | src/components/ResumeEditor.jsx:18-35 | each listed suggestion is the one made from the feedback at its (section, position), the list is ordered by section and then by position, and with distinct section names its ids are distinct |
| ResumeEditor.Apply | src/components/ResumeEditor.jsx:9-15 | applying records the id, clears the active suggestion, and replaces the first occurrence of the from-text, leaving the text unchanged when there is none |
| ResumeEditor.Toggle | src/components/ResumeEditor.jsx:99 | the "Show in Text" button deselects the active suggestion and otherwise selects this one; text and applied ids are unchanged |
| ResumeEditor.Step | src/components/ResumeEditor.jsx:9-99 | only Apply changes the applied list, and only for a listed, not yet applied suggestion, which it records and deselects; editing sets the text; toggling leaves the text alone |
| ResumeEditor.Run | src/components/ResumeEditor.jsx:9-99 | the applied list only grows, by at most one id per action, and each new id is a listed suggestion's |
| ResumeEditor.ButtonsApplyOnce | src/components/ResumeEditor.jsx:90-99 | through the buttons every applied id is a listed suggestion's, and no id is applied twice |
| ResumeEditor.EditorRunsApplyOnce | src/components/ResumeEditor.jsx:5-15 | from the initial state, any sequence of clicks and edits applies each suggestion at most once |
| ResumeEditor.DirectApplyTwice | src/components/ResumeEditor.jsx:9-15 | `applySuggestion` itself does not check the applied list: calling it twice records the id twice |

## Left out

- `src/components/FileUpload.jsx` (PDF reading with pdf.js, the 5 MB limit, drag and drop) is not part of this model. An upload is modelled only as the text it hands to `onTextExtracted`.
- The language-model call (`GoogleGenerativeAI`, `generateContent`) is an input. A completion receives `Ok(text)` or `Err(message)`. The model name and the generation settings are not modelled.
- React rendering, Tailwind classes, icons and `console` logging are left out. Colour classes are reduced to the hue they name.
- JavaScript numbers are modelled as reals, so floating-point rounding in `JSON.parse` and in comparisons is not modelled.
- `JSON.parse` works on characters, not UTF-16 code units. An escaped surrogate pair is decoded to its character, but a lone surrogate-half escape makes the parse fail, where JavaScript keeps the lone code unit: a Dafny character is a Unicode scalar value.
- Text.Take: counts characters, where `substring` counts UTF-16 code units, so a text with characters above U+FFFF is cut at a different place. The same holds for Prompt.Assemble and Extractor.FailureMessage, which use it.
- The wording of the SyntaxError that `JSON.parse` throws belongs to the JavaScript engine. `Extractor.ParseFailureReason` stands in for it.
- Json.ToNumber: a string, array or object compared with a number is marked `Uncoerced` and not converted, because JavaScript's string-to-number grammar is not part of this model.
- AnalysisResults.KeywordHint: the hint reads the raw `missingKeywords` value and is defined for arrays only. A non-empty string there makes `slice(0, 5).join` throw; that failure is modelled by `AnalysisResults.Render`, not by the hint.
- AnalysisResults.AtsViewOf: for an `atsScore` that is a string, array or object the slot is `AtsUncoerced`. Whether its feedback block renders, and so whether a string list inside it throws, is left open.
- AnalysisResults.Render: a value React cannot render as a child (an object in `summary`, in a list item or as a breakdown score) also makes the render fail. This failure is not modelled, nor is a list field that is an object with a numeric `length`.
- A feedback list that is not an array makes `forEach` throw in the editor. The model takes each section's feedback as a list of strings.
- `sectionFeedback` is taken as a list of (section, feedbacks) pairs in the order `Object.entries` gives. The ordering rule for integer-like keys is not modelled.
- Text.ReplaceFirst: `$` patterns in the replacement string of `String.prototype.replace` are not interpreted.
- Prompt.AssembleRecoverable: recoverability is stated for a text of the assembled form, given the résumé excerpt's length. It is not stated for an arbitrary prompt alone, since the excerpt may itself contain the job heading.
- The `missingATSHeadings`, `atsFormattingIssues` and `atsStrengths` blocks inside the ATS card (AnalysisResults.jsx lines 176-230) and the text of the list cards are not modelled. Only whether each card appears is.
- The score-breakdown card inside the results panel (AnalysisResults.jsx lines 112-150) is modelled for an object breakdown by `AnalysisResults.CardBars`: one bar per property, with its caption, its value and its colour. Its bar order is not modelled: `Object.entries` lists integer-like keys first, in numeric order, while `CardBars` keeps member order. A truthy non-object breakdown, such as a string that `Object.entries` splits into characters, is not modelled. An object-valued score that React cannot render is not modelled either.
- ScoreBreakdown.Rows: modelled for an object `breakdown`: its four rows, their values and their bar colours. A null or missing `breakdown` throws at `breakdown[section.name]` (ScoreBreakdown.jsx line 28), and the model does not state that. A sub-score React cannot render, such as an object, throws too and is not modelled. For a string, array or object sub-score, `BarToneOf` leaves the colour open (`None`), since the `>` comparison's conversion of those values is not modelled.
- `ResumeEditor` and the stand-alone `ATSCompatibility` and `ScoreBreakdown` components are not mounted by `App`. They are modelled as components on their own.
- The textarea and the rendered résumé text inside the editor (highlighting of the active suggestion) are not modelled. Only the state that editing and the buttons change is.
