/**
 * The stand-alone ATS panel (src/components/ATSCompatibility.jsx): the score
 * with its colour, status and pass/fail line, then a fixed list of tips that
 * does not depend on the score.
 */
module AtsCompatibility {
  import opened ScoreBands

  datatype Tip = Tip(title: string, description: string, icon: Tone)

  /** The four tips, in display order. */
  const Tips: seq<Tip> := [
    Tip("Use Standard Headings",
        "Replace creative section titles with standard ones like \"Work Experience\" and \"Education\"", Green),
    Tip("Avoid Graphics & Tables", "Remove complex layouts that scanners might misread", Yellow),
    Tip("Keyword Optimization", "Include more keywords from the job description naturally", Blue),
    Tip("File Format", "Always submit as PDF unless specified otherwise", Green)
  ]

  datatype Panel = Panel(tone: Tone, status: string, message: string, tips: seq<Tip>)

  /** The panel for a numeric score. */
  function Render(score: real): (p: Panel)
    ensures p.tone == AtsTone(score)
    ensures p.status == StatusText(Status(score))
    ensures p.message == PassMessage(score)
    ensures p.tips == Tips && |p.tips| == 4
  {
    Panel(AtsTone(score), StatusText(Status(score)), PassMessage(score), Tips)
  }

  /** Whatever the score, the same four tips are shown. */
  lemma TipsIgnoreScore(a: real, b: real)
    ensures Render(a).tips == Render(b).tips
    ensures |Render(a).tips| == 4
    ensures Render(a).tips[0].title == "Use Standard Headings"
    ensures Render(a).tips[3].title == "File Format"
  {
  }

  /** The status text names one of the four bands, and the message says pass exactly for the top two. */
  lemma PanelBands(score: real)
    ensures Render(score).status in ["Excellent", "Good", "Fair", "Poor"]
    ensures Render(score).message == "Likely to pass screening" <==> Render(score).status in ["Excellent", "Good"]
    ensures Render(score).tone == Red <==> Render(score).status in ["Fair", "Poor"]
  {
    PassMessageFollowsStatus(score);
    AtsToneFollowsStatus(score);
  }
}
