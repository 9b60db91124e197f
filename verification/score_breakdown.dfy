/**
 * The score-breakdown panel (src/components/ScoreBreakdown.jsx): four rows in
 * a fixed order, each showing one sub-score of the breakdown object with a
 * bar coloured by `ScoreBands.BarTone`.
 */
module ScoreBreakdown {
  import opened Wrappers
  import opened Json
  import opened ScoreBands

  /** The property each row reads, and the label it shows. */
  const SectionNames: seq<string> := ["skills", "experience", "education", "keywords"]
  const SectionLabels: seq<string> := ["Skills", "Experience", "Education", "Keywords"]

  datatype Row = Row(caption: string, value: Option<Json>, tone: Option<Tone>)

  /**
   * The bar colour after the comparisons `v > 75` and `v > 50`: a value that
   * converts to NaN fails both and is red. `None` where the conversion is not
   * modelled.
   */
  function BarToneOf(v: Option<Json>): (t: Option<Tone>)
    ensures IsNumber(v) ==> t == Some(BarTone(v.value.n))
    ensures v.None? ==> t == Some(Red)
    ensures t.None? <==> ToNumber(v).Uncoerced?
  {
    match ToNumber(v)
    case Num(x) => Some(BarTone(x))
    case NaN => Some(Red)
    case Uncoerced => None
  }

  /** The panel's rows for the `breakdown` object. */
  function Rows(breakdown: seq<Member>): (r: seq<Row>)
    ensures |r| == 4
    ensures forall i :: 0 <= i < 4 ==> r[i].caption == SectionLabels[i]
    ensures forall i :: 0 <= i < 4 ==> r[i].value == Get(breakdown, SectionNames[i])
    ensures forall i :: 0 <= i < 4 ==> r[i].tone == BarToneOf(r[i].value)
  {
    seq(4, i requires 0 <= i < 4 =>
      var v := Get(breakdown, SectionNames[i]);
      Row(SectionLabels[i], v, BarToneOf(v)))
  }

  /**
   * The rows depend only on the four named properties: member order and any
   * other property of the breakdown make no difference.
   */
  lemma RowsSeeOnlySections(b1: seq<Member>, b2: seq<Member>)
    requires forall i :: 0 <= i < 4 ==> Get(b1, SectionNames[i]) == Get(b2, SectionNames[i])
    ensures Rows(b1) == Rows(b2)
  {
  }

  /** A missing sub-score draws a red bar. */
  lemma MissingSectionIsRed(breakdown: seq<Member>, i: nat)
    requires i < 4
    requires SectionNames[i] !in Keys(breakdown)
    ensures Rows(breakdown)[i].tone == Some(Red)
  {
  }
}
