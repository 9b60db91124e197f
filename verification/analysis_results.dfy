/**
 * The results panel (src/components/AnalysisResults.jsx): which of its three
 * faces is shown, and, for a finished analysis, which cards appear and what
 * their score-dependent parts say. Markup and styling are reduced to the
 * tones of `ScoreBands`.
 */
module AnalysisResults {
  import opened Wrappers
  import opened Text
  import opened Json
  import opened ScoreBands
  import Normalizer
  import ScoreBreakdown

  // ---------------------------------------------------------------------------
  // The missing-keyword list

  /** The string contents of a list of JSON strings; anything else reads as empty. */
  function StringsOf(js: seq<Json>): (r: seq<string>)
    ensures |r| == |js|
    ensures forall i :: 0 <= i < |js| ==> r[i] == if js[i].JString? then js[i].s else ""
  {
    seq(|js|, i requires 0 <= i < |js| => if js[i].JString? then js[i].s else "")
  }

  /** Pieces of text as JSON strings. */
  function AsJsonStrings(parts: seq<string>): (r: seq<Json>)
    ensures |r| == |parts|
    ensures forall i :: 0 <= i < |parts| ==> r[i] == JString(parts[i])
  {
    seq(|parts|, i requires 0 <= i < |parts| => JString(parts[i]))
  }

  /**
   * `missingKeywords` coerced to a list: an array as it is, a string split
   * at every comma (untrimmed), anything else empty.
   */
  function KeywordList(v: Option<Json>): (r: seq<Json>)
    ensures ArrayItems(v).Some? ==> r == ArrayItems(v).value
    ensures v.Some? && v.value.JString? ==>
              && |r| == Count(v.value.s, ',') + 1
              && forall i :: 0 <= i < |r| ==> r[i].JString? && ',' !in r[i].s
    ensures v.None? || !(v.value.JArray? || v.value.JString?) ==> r == []
  {
    match v
    case Some(JArray(items)) => items
    case Some(JString(s)) => AsJsonStrings(SplitOn(s, ','))
    case _ => []
  }

  /** Joining the pieces of a string keyword list with commas gives back the string. */
  lemma KeywordStringRoundTrip(s: string)
    ensures Join(StringsOf(KeywordList(Some(JString(s)))), ",") == s
  {
    var parts := SplitOn(s, ',');
    assert StringsOf(AsJsonStrings(parts)) == parts;
  }

  /**
   * A keyword chip shows `keyword.trim()`. `None` for a non-string: `trim` is
   * not defined on it, the call throws and the whole panel fails to render
   * (`ChipsThrow`, `Render`).
   */
  function Chip(keyword: Json): (r: Option<string>)
    ensures r.Some? <==> keyword.JString?
    ensures r.Some? ==> exists i: nat :: SpaceBoundedSlice(keyword.s, r.value, i)
    ensures r.Some? ==> TrimmedEnds(r.value)
  {
    if keyword.JString? then Some(Trim(keyword.s)) else None
  }

  // ---------------------------------------------------------------------------
  // The keyword hint inside the ATS card

  /** At most five keywords, and how many more there are. */
  datatype Hint = Hint(shown: seq<Json>, more: Option<nat>)

  const HintLimit: nat := 5

  /**
   * The hint for a non-empty keyword array: the first five items, and the
   * count of the rest when there is a rest.
   */
  function KeywordHint(v: Option<Json>): (h: Option<Hint>)
    ensures h.Some? <==> ArrayItems(v).Some? && |ArrayItems(v).value| > 0
    ensures h.Some? ==> var items := ArrayItems(v).value;
              && |h.value.shown| == Min(|items|, HintLimit)
              && h.value.shown == items[..|h.value.shown|]
              && (h.value.more.Some? <==> |items| > HintLimit)
              && (h.value.more.Some? ==> h.value.more.value == |items| - HintLimit)
  {
    match ArrayItems(v)
    case Some(items) =>
      if |items| == 0 then None
      else
        var more := if |items| > HintLimit then Some(|items| - HintLimit) else None;
        Some(Hint(items[..Min(|items|, HintLimit)], more))
    case None => None
  }

  /** The shown keywords and the count of the rest add up to all of them. */
  lemma HintAccountsForAll(v: Option<Json>)
    requires KeywordHint(v).Some?
    ensures var h := KeywordHint(v).value;
            |h.shown| + (if h.more.Some? then h.more.value else 0) == |ArrayItems(v).value|
  {
  }

  /** The text after the listed keywords: ` (and N more)` when there are more. */
  function MoreText(h: Hint): (r: string)
    ensures r == [] <==> h.more.None?
    ensures h.more.Some? ==> r == " (and " + NatToDecimal(h.more.value) + " more)"
  {
    match h.more
    case None => []
    case Some(n) => " (and " + NatToDecimal(n) + " more)"
  }

  // ---------------------------------------------------------------------------
  // Cards

  datatype AtsCard = AtsCard(
    tone: Tone, status: AtsStatus, message: string, heading: string,
    hintBlock: bool, keywordHint: Option<Hint>)

  /**
   * The ATS slot of the panel: nothing for a falsy score, except that a score
   * of 0 is rendered by React as the text "0"; the card, with its content
   * where the score compares as a number; left open where it does not.
   */
  datatype AtsView = AtsHidden | AtsZero | AtsShown(card: AtsCard) | AtsUncoerced

  /** `analysis.atsScore && (...)`: the falsy operand itself is what React renders. */
  function AtsViewOf(a: seq<Member>): (r: AtsView)
    ensures r.AtsZero? <==> Get(a, "atsScore") == Some(JNumber(0.0))
    ensures r.AtsHidden? <==> !TruthyOpt(Get(a, "atsScore")) && Get(a, "atsScore") != Some(JNumber(0.0))
    ensures r.AtsShown? <==> TruthyOpt(Get(a, "atsScore")) && ToNumber(Get(a, "atsScore")).Num?
    ensures r.AtsShown? ==>
              var x := ToNumber(Get(a, "atsScore")).x;
              && r.card.tone == AtsTone(x)
              && r.card.status == Status(x)
              && r.card.message == PassMessage(x)
              && r.card.heading == AtsHeading(x)
              && (r.card.hintBlock <==> x < 80.0)
              && r.card.keywordHint == (if x < 80.0 then KeywordHint(Get(a, "missingKeywords")) else None)
    ensures r.AtsShown? && IsNumber(Get(a, "atsScore")) ==>
              var x := Get(a, "atsScore").value.n;
              && r.card.tone == AtsTone(x)
              && r.card.status == Status(x)
              && r.card.message == PassMessage(x)
              && r.card.heading == AtsHeading(x)
              && (r.card.hintBlock <==> x < 80.0)
    ensures r.AtsShown? ==> (r.card.keywordHint.Some? ==> r.card.hintBlock)
  {
    var v := Get(a, "atsScore");
    if v == Some(JNumber(0.0)) then AtsZero
    else if !TruthyOpt(v) then AtsHidden
    else
      match ToNumber(v)
      case Num(x) =>
        var below := x < 80.0;
        var hint := if below then KeywordHint(Get(a, "missingKeywords")) else None;
        AtsShown(AtsCard(AtsTone(x), Status(x), PassMessage(x), AtsHeading(x), below, hint))
      case NaN => AtsUncoerced
      case Uncoerced => AtsUncoerced
  }

  /** A list card (strengths, weaknesses, key changes) appears for a non-empty array. */
  predicate ListCardShown(v: Option<Json>) {
    ArrayItems(v).Some? && |ArrayItems(v).value| > 0
  }

  // ---------------------------------------------------------------------------
  // Values that make the panel throw

  /**
   * A non-empty string passes the `v && v.length > 0` and `v?.length > 0`
   * tests of a list, but has no `map` or `join`: calling either throws.
   */
  predicate ListLikeString(v: Option<Json>) {
    v.Some? && v.value.JString? && |v.value.s| > 0
  }

  /** The lists inside the ATS card's feedback block, each joined for display. */
  const AtsNoteFields: seq<string> := ["missingATSHeadings", "missingKeywords", "atsFormattingIssues", "atsStrengths"]

  /** Some keyword of the coerced list is not a string, so its chip's `trim` throws. */
  predicate ChipsThrow(a: seq<Member>) {
    var keywords := KeywordList(Get(a, "missingKeywords"));
    exists i :: 0 <= i < |keywords| && Chip(keywords[i]).None?
  }

  /** The ATS card's feedback block is rendered and one of its lists is a non-empty string. */
  predicate AtsNotesThrow(a: seq<Member>) {
    var ats := AtsViewOf(a);
    && ats.AtsShown? && ats.card.hintBlock
    && exists i :: 0 <= i < |AtsNoteFields| && ListLikeString(Get(a, AtsNoteFields[i]))
  }

  /** Rendering the report throws. */
  predicate Throws(a: seq<Member>) {
    || ListLikeString(Get(a, "strengths"))
    || ListLikeString(Get(a, "weaknesses"))
    || ListLikeString(Get(a, "keyChanges"))
    || ChipsThrow(a)
    || AtsNotesThrow(a)
  }

  /**
   * What `{v && <card>}` puts on the page: nothing, the card, or the bare
   * text "0" when `v` is the number 0 (React renders a falsy number).
   */
  datatype Slot = Absent | ZeroText | Card

  /** The slot of a card guarded by `v && …`, where `shown` is the whole guard. */
  function SlotOf(v: Option<Json>, shown: bool): (r: Slot)
    requires shown ==> TruthyOpt(v)
    ensures r.ZeroText? <==> v == Some(JNumber(0.0))
    ensures r.Card? <==> shown
  {
    if v == Some(JNumber(0.0)) then ZeroText else if shown then Card else Absent
  }

  datatype Report = Report(
    matchTone: Option<Tone>, matchLabel: Option<string>,
    summary: Slot, breakdown: Slot, ats: AtsView,
    strengths: Slot, keywords: seq<Json>, weaknesses: Slot, changes: Slot)

  /** The match colour and label after `ToNumber`; a NaN fails every comparison. */
  function MatchBandOf(v: Option<Json>): (r: (Option<Tone>, Option<string>))
    ensures IsNumber(v) ==> r == (Some(MatchTone(v.value.n)), Some(MatchLabel(v.value.n)))
    ensures r.0.None? <==> ToNumber(v).Uncoerced?
    ensures r.1.None? <==> ToNumber(v).Uncoerced?
  {
    match ToNumber(v)
    case Num(x) => (Some(MatchTone(x)), Some(MatchLabel(x)))
    case NaN => (Some(Red), Some("Low match"))
    case Uncoerced => (None, None)
  }

  /** The cards of a finished analysis. */
  function ReportOf(a: seq<Member>): (r: Report)
    ensures r.summary.Card? <==> TruthyOpt(Get(a, "summary"))
    ensures r.summary.ZeroText? <==> Get(a, "summary") == Some(JNumber(0.0))
    ensures r.breakdown.Card? <==> TruthyOpt(Get(a, "scoreBreakdown"))
    ensures r.breakdown.ZeroText? <==> Get(a, "scoreBreakdown") == Some(JNumber(0.0))
    ensures r.ats == AtsViewOf(a)
    ensures r.strengths.Card? <==> ListCardShown(Get(a, "strengths"))
    ensures r.strengths.ZeroText? <==> Get(a, "strengths") == Some(JNumber(0.0))
    ensures r.weaknesses.Card? <==> ListCardShown(Get(a, "weaknesses"))
    ensures r.weaknesses.ZeroText? <==> Get(a, "weaknesses") == Some(JNumber(0.0))
    ensures r.changes.Card? <==> ListCardShown(Get(a, "keyChanges"))
    ensures r.changes.ZeroText? <==> Get(a, "keyChanges") == Some(JNumber(0.0))
    ensures r.keywords == KeywordList(Get(a, "missingKeywords"))
    ensures (r.matchTone, r.matchLabel) == MatchBandOf(Get(a, "matchPercentage"))
  {
    var band := MatchBandOf(Get(a, "matchPercentage"));
    Report(
      band.0, band.1,
      SlotOf(Get(a, "summary"), TruthyOpt(Get(a, "summary"))),
      SlotOf(Get(a, "scoreBreakdown"), TruthyOpt(Get(a, "scoreBreakdown"))),
      AtsViewOf(a),
      SlotOf(Get(a, "strengths"), ListCardShown(Get(a, "strengths"))),
      KeywordList(Get(a, "missingKeywords")),
      SlotOf(Get(a, "weaknesses"), ListCardShown(Get(a, "weaknesses"))),
      SlotOf(Get(a, "keyChanges"), ListCardShown(Get(a, "keyChanges"))))
  }

  /** One bar of the in-panel breakdown card: its caption, its value and its colour. */
  datatype CardBar = CardBar(category: string, score: Json, tone: Option<Tone>)

  /**
   * The bars of the in-panel breakdown card for an object breakdown: one per
   * property, in member order, coloured by `score > 75` and `score > 50` as
   * the stand-alone panel's bars are.
   */
  function CardBars(breakdown: seq<Member>): (r: seq<CardBar>)
    ensures |r| == |breakdown|
    ensures forall i :: 0 <= i < |r| ==> r[i].category == breakdown[i].key && r[i].score == breakdown[i].value
    ensures forall i :: 0 <= i < |r| && breakdown[i].value.JNumber? ==>
      r[i].tone == Some(BarTone(breakdown[i].value.n))
    ensures forall i :: 0 <= i < |r| ==> (r[i].tone.None? <==> ToNumber(Some(breakdown[i].value)).Uncoerced?)
  {
    seq(|breakdown|, i requires 0 <= i < |breakdown| =>
      CardBar(breakdown[i].key, breakdown[i].value, ScoreBreakdown.BarToneOf(Some(breakdown[i].value))))
  }

  /**
   * The in-panel card and the stand-alone panel agree: the card's bar for one
   * of the four section names has the colour of that section's row.
   */
  lemma CardBarsAgreeWithPanel(breakdown: seq<Member>, i: nat, j: nat)
    requires UniqueKeys(breakdown) && i < |breakdown| && j < 4
    requires breakdown[i].key == ScoreBreakdown.SectionNames[j]
    ensures CardBars(breakdown)[i].score == ScoreBreakdown.Rows(breakdown)[j].value.value
    ensures CardBars(breakdown)[i].tone == ScoreBreakdown.Rows(breakdown)[j].tone
  {
    GetUnique(breakdown, i);
  }

  /** The panel's faces; `Crashed` is a render that throws, which unmounts the page. */
  datatype View = Skeleton | Placeholder | Results(report: Report) | Crashed

  /** The panel: loading first, then the placeholder unless there is an analysis and input. */
  function Render(analysis: Option<seq<Member>>, loading: bool, hasData: bool): (v: View)
    ensures loading ==> v == Skeleton
    ensures v.Placeholder? <==> !loading && (analysis.None? || !hasData)
    ensures v.Crashed? <==> !loading && analysis.Some? && hasData && Throws(analysis.value)
    ensures v.Results? <==> !loading && analysis.Some? && hasData && !Throws(analysis.value)
    ensures v.Results? ==> v.report == ReportOf(analysis.value)
  {
    if loading then Skeleton
    else if analysis.None? || !hasData then Placeholder
    else if Throws(analysis.value) then Crashed
    else Results(ReportOf(analysis.value))
  }

  /** A list field that is absent or an array of strings. */
  predicate StringArrayOrAbsent(v: Option<Json>) {
    v.None? || (v.value.JArray? && forall i :: 0 <= i < |v.value.items| ==> v.value.items[i].JString?)
  }

  /** An analysis whose list fields are arrays of strings, as the prompt asks. */
  predicate WellTyped(a: seq<Member>) {
    && StringArrayOrAbsent(Get(a, "strengths"))
    && StringArrayOrAbsent(Get(a, "weaknesses"))
    && StringArrayOrAbsent(Get(a, "keyChanges"))
    && forall i :: 0 <= i < |AtsNoteFields| ==> StringArrayOrAbsent(Get(a, AtsNoteFields[i]))
  }

  /** An analysis of the requested shape always renders its report. */
  lemma WellTypedRenders(a: seq<Member>)
    requires WellTyped(a)
    ensures Render(Some(a), false, true) == Results(ReportOf(a))
  {
    WellTypedNotesRender(a);
    WellTypedChipsRender(a);
  }

  lemma WellTypedNotesRender(a: seq<Member>)
    requires WellTyped(a)
    ensures !AtsNotesThrow(a)
  {
    forall i | 0 <= i < |AtsNoteFields|
      ensures !ListLikeString(Get(a, AtsNoteFields[i]))
    {
      assert StringArrayOrAbsent(Get(a, AtsNoteFields[i]));
    }
  }

  lemma WellTypedChipsRender(a: seq<Member>)
    requires WellTyped(a)
    ensures !ChipsThrow(a)
  {
    assert StringArrayOrAbsent(Get(a, AtsNoteFields[1]));
    var keywords := KeywordList(Get(a, "missingKeywords"));
    forall i | 0 <= i < |keywords|
      ensures Chip(keywords[i]).Some?
    {
    }
  }

  /** A keyword that is not a string brings the whole panel down. */
  lemma NonStringKeywordCrashes(a: seq<Member>, i: nat)
    requires i < |KeywordList(Get(a, "missingKeywords"))|
    requires !KeywordList(Get(a, "missingKeywords"))[i].JString?
    ensures Render(Some(a), false, true) == Crashed
  {
    assert Chip(KeywordList(Get(a, "missingKeywords"))[i]).None?;
  }

  /** A comma-separated keyword string never makes a chip throw. */
  lemma KeywordStringChipsRender(s: string)
    ensures forall k :: k in KeywordList(Some(JString(s))) ==> Chip(k).Some?
  {
  }

  /** A list card given a non-empty string throws instead of showing. */
  lemma StringListCardCrashes(a: seq<Member>, s: string)
    requires Get(a, "strengths") == Some(JString(s)) || Get(a, "weaknesses") == Some(JString(s))
             || Get(a, "keyChanges") == Some(JString(s))
    requires s != []
    ensures Render(Some(a), false, true) == Crashed
  {
  }

  // ---------------------------------------------------------------------------
  // What the defaults do to the view

  /**
   * An analysis whose model output had no `atsScore` gets the default 0,
   * which is falsy: the ATS card is not shown, and a bare "0" is in its place.
   */
  lemma DefaultAtsScoreShowsZero(parsed: Json)
    requires Normalizer.HasNumericMatch(parsed)
    requires "atsScore" !in Keys(parsed.members)
    ensures Normalizer.Normalize(parsed).Ok?
    ensures ReportOf(Normalizer.Normalize(parsed).value).ats == AtsZero
  {
    Normalizer.NormalizeFallsBack(parsed, "atsScore");
    Normalizer.DefaultValues();
  }

  /** A `strengths` of 0 does not throw: the page shows a bare "0" where the card would be. */
  lemma ZeroStrengthsShowZero()
    ensures var a := [Member("matchPercentage", JNumber(50.0)), Member("strengths", JNumber(0.0))];
            var v := Render(Some(a), false, true);
            v.Results? && v.report.strengths == ZeroText && v.report.ats == AtsHidden
  {
    var a := [Member("matchPercentage", JNumber(50.0)), Member("strengths", JNumber(0.0))];
    assert Get(a, "strengths") == Some(JNumber(0.0));
    assert Get(a, "atsScore") == None && Get(a, "missingKeywords") == None;
    assert Get(a, "weaknesses") == None && Get(a, "keyChanges") == None;
  }

  /** Every normalised analysis has a numeric match percentage, so its colour and label are defined. */
  lemma NormalizedMatchBand(parsed: Json)
    requires Normalizer.HasNumericMatch(parsed)
    ensures Normalizer.Normalize(parsed).Ok?
    ensures var a := Normalizer.Normalize(parsed).value;
            var x := Get(a, "matchPercentage").value.n;
            && ReportOf(a).matchTone == Some(MatchTone(x))
            && ReportOf(a).matchLabel == Some(MatchLabel(x))
  {
  }

  /** Without model-supplied keywords the normalised analysis lists none. */
  lemma DefaultKeywordsEmpty(parsed: Json)
    requires Normalizer.HasNumericMatch(parsed)
    requires "missingKeywords" !in Keys(parsed.members)
    ensures Normalizer.Normalize(parsed).Ok?
    ensures ReportOf(Normalizer.Normalize(parsed).value).keywords == []
  {
    Normalizer.NormalizeFallsBack(parsed, "missingKeywords");
    Normalizer.DefaultValues();
  }
}
