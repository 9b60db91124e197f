/**
 * The score classifiers of the results view (src/components/AnalysisResults.jsx,
 * src/components/ATSCompatibility.jsx, src/components/ScoreBreakdown.jsx).
 * Each maps a number to a colour class or a label by comparing it with fixed
 * thresholds; the colour classes are modelled by the hue they name.
 */
module ScoreBands {

  /** The hue of a Tailwind colour class or a hex bar colour. */
  datatype Tone = Green | Blue | Yellow | Red

  /** Tones ordered from worst to best. */
  function Rank(t: Tone): nat {
    match t
    case Red => 0
    case Yellow => 1
    case Blue => 2
    case Green => 3
  }

  // ---------------------------------------------------------------------------
  // Match percentage: four bands at 80, 60 and 40

  /** `getMatchColor`. */
  function MatchTone(p: real): (t: Tone)
    ensures t == Green <==> p >= 80.0
    ensures t == Blue <==> 60.0 <= p < 80.0
    ensures t == Yellow <==> 40.0 <= p < 60.0
    ensures t == Red <==> p < 40.0
  {
    if p >= 80.0 then Green
    else if p >= 60.0 then Blue
    else if p >= 40.0 then Yellow
    else Red
  }

  /** `getMatchLabel`. */
  function MatchLabel(p: real): (l: string)
    ensures l == "Excellent match!" <==> p >= 80.0
    ensures l == "Good match" <==> 60.0 <= p < 80.0
    ensures l == "Partial match" <==> 40.0 <= p < 60.0
    ensures l == "Low match" <==> p < 40.0
  {
    if p >= 80.0 then "Excellent match!"
    else if p >= 60.0 then "Good match"
    else if p >= 40.0 then "Partial match"
    else "Low match"
  }

  /** The label that goes with each match colour. */
  function LabelOfTone(t: Tone): string {
    match t
    case Green => "Excellent match!"
    case Blue => "Good match"
    case Yellow => "Partial match"
    case Red => "Low match"
  }

  /** Colour and label use the same bands: the label is a function of the colour, and back. */
  lemma MatchLabelAgreesWithTone(p: real, q: real)
    ensures MatchLabel(p) == LabelOfTone(MatchTone(p))
    ensures MatchLabel(p) == MatchLabel(q) <==> MatchTone(p) == MatchTone(q)
  {
  }

  /** A higher percentage never gets a worse colour. */
  lemma MatchToneMonotone(p: real, q: real)
    requires p <= q
    ensures Rank(MatchTone(p)) <= Rank(MatchTone(q))
  {
  }

  // ---------------------------------------------------------------------------
  // ATS score: four status bands but only three colours

  datatype AtsStatus = Excellent | Good | Fair | Poor

  function StatusText(s: AtsStatus): string {
    match s
    case Excellent => "Excellent"
    case Good => "Good"
    case Fair => "Fair"
    case Poor => "Poor"
  }

  /** `getATSStatus`. */
  function Status(score: real): (s: AtsStatus)
    ensures s == Excellent <==> score >= 80.0
    ensures s == Good <==> 60.0 <= score < 80.0
    ensures s == Fair <==> 40.0 <= score < 60.0
    ensures s == Poor <==> score < 40.0
  {
    if score >= 80.0 then Excellent
    else if score >= 60.0 then Good
    else if score >= 40.0 then Fair
    else Poor
  }

  /** `getATSScoreColor`: there is no yellow band. */
  function AtsTone(score: real): (t: Tone)
    ensures t != Yellow
    ensures t == Green <==> score >= 80.0
    ensures t == Blue <==> 60.0 <= score < 80.0
    ensures t == Red <==> score < 60.0
  {
    if score >= 80.0 then Green
    else if score >= 60.0 then Blue
    else Red
  }

  /** The colour of each status: Fair and Poor share the red class. */
  function StatusTone(s: AtsStatus): Tone {
    match s
    case Excellent => Green
    case Good => Blue
    case Fair => Red
    case Poor => Red
  }

  /** The colour is a function of the status, and red covers exactly Fair and Poor. */
  lemma AtsToneFollowsStatus(score: real)
    ensures AtsTone(score) == StatusTone(Status(score))
    ensures AtsTone(score) == Red <==> Status(score) == Fair || Status(score) == Poor
  {
  }

  /** The pass/fail line after the status. */
  function PassMessage(score: real): (m: string)
    ensures m == "Likely to pass screening" || m == "May have issues with scanners"
  {
    if score >= 60.0 then "Likely to pass screening" else "May have issues with scanners"
  }

  /** The score is said to pass exactly when its status is Excellent or Good. */
  lemma PassMessageFollowsStatus(score: real)
    ensures PassMessage(score) == "Likely to pass screening" <==> Status(score) == Excellent || Status(score) == Good
  {
  }

  /** The heading of the ATS card's feedback block. */
  function AtsHeading(score: real): (h: string)
    ensures h == "Your resume is ATS-friendly!" <==> score >= 80.0
    ensures h == "Your resume is mostly ATS-friendly" <==> 60.0 <= score < 80.0
    ensures h == "Key areas to improve for ATS" <==> score < 60.0
  {
    if score >= 80.0 then "Your resume is ATS-friendly!"
    else if score >= 60.0 then "Your resume is mostly ATS-friendly"
    else "Key areas to improve for ATS"
  }

  /** The heading uses the colour's three bands. */
  lemma AtsHeadingFollowsTone(score: real)
    ensures AtsHeading(score) == "Your resume is ATS-friendly!" <==> AtsTone(score) == Green
    ensures AtsHeading(score) == "Your resume is mostly ATS-friendly" <==> AtsTone(score) == Blue
    ensures AtsHeading(score) == "Key areas to improve for ATS" <==> AtsTone(score) == Red
  {
  }

  // ---------------------------------------------------------------------------
  // Breakdown bars: strict comparisons at 75 and 50

  /** The bar colour `#10B981` / `#3B82F6` / `#EF4444`. */
  function BarTone(v: real): (t: Tone)
    ensures t != Yellow
    ensures t == Green <==> v > 75.0
    ensures t == Blue <==> 50.0 < v <= 75.0
    ensures t == Red <==> v <= 50.0
  {
    if v > 75.0 then Green
    else if v > 50.0 then Blue
    else Red
  }

  /** The legend's bands: 75-100 strong, 50-74 moderate, below 50 needs improvement. */
  function LegendTone(v: int): (t: Tone)
    ensures t != Yellow
    ensures t == Green <==> v >= 75
    ensures t == Blue <==> 50 <= v < 75
    ensures t == Red <==> v < 50
  {
    if v >= 75 then Green
    else if v >= 50 then Blue
    else Red
  }

  /** On whole percentages the bars follow the legend everywhere except at 75 and 50. */
  lemma BarDisagreesWithLegend(v: int)
    ensures BarTone(v as real) == LegendTone(v) <==> v != 75 && v != 50
  {
  }

  /** At the two thresholds the bar is one band below what the legend promises. */
  lemma ThresholdsShowLower()
    ensures BarTone(75.0) == Blue && LegendTone(75) == Green
    ensures BarTone(50.0) == Red && LegendTone(50) == Blue
  {
  }

  /** A higher value never gets a worse bar. */
  lemma BarToneMonotone(v: real, w: real)
    requires v <= w
    ensures Rank(BarTone(v)) <= Rank(BarTone(w))
  {
  }
}
