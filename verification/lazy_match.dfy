/**
 * The regular expressions of the form /OPEN(.*?)C/ that the application uses,
 * where OPEN is a literal and C a single character: `/{.*?}/` when extracting
 * JSON, `/"(.*?)"/` and `/→ "(.*?)"/` when reading suggestions. `.` does not
 * match line terminators, and the lazy `.*?` stops at the first `C`.
 */
module LazyMatch {
  import opened Wrappers
  import opened Text

  /** Every character of `t[a..b]` is one a regex `.` matches. */
  predicate DotsOnly(t: string, a: nat, b: nat)
    requires a <= b <= |t|
  {
    forall k :: a <= k < b ==> !IsLineTerminator(t[k])
  }

  /** `OPEN(.*?)C` matches at `b` and ends with the `C` at `e`. */
  predicate DelimitedMatch(t: string, open: string, close: char, b: nat, e: nat) {
    && OccursAt(t, open, b)
    && b + |open| <= e < |t|
    && t[e] == close
    && DotsOnly(t, b + |open|, e)
    && close !in t[b + |open|..e]
  }

  /** The lazy `.*?C` from `k` on: the first `C`, unless a line terminator comes first. */
  function LazyUntil(t: string, k: nat, close: char): (r: Option<nat>)
    requires k <= |t|
    ensures r.Some? ==> k <= r.value < |t| && t[r.value] == close && DotsOnly(t, k, r.value)
                        && close !in t[k..r.value]
    ensures r.None? ==> forall e :: k <= e < |t| && t[e] == close ==> !(DotsOnly(t, k, e) && close !in t[k..e])
    decreases |t| - k
  {
    if k == |t| then None
    else if t[k] == close then Some(k)
    else if IsLineTerminator(t[k]) then None
    else
      var r := LazyUntil(t, k + 1, close);
      assert r.Some? ==> t[k..r.value] == [t[k]] + t[k + 1..r.value];
      assert forall e :: k < e <= |t| ==> t[k..e] == [t[k]] + t[k + 1..e];
      r
  }

  /**
   * `t.match(/OPEN(.*?)C/)` searching from `p`: the leftmost match, as the
   * position of `OPEN` and the position of the closing `C`.
   */
  function FindDelimited(t: string, open: string, close: char, p: nat): (r: Option<(nat, nat)>)
    requires p <= |t|
    ensures r.Some? ==> p <= r.value.0 && DelimitedMatch(t, open, close, r.value.0, r.value.1)
    ensures r.Some? ==> forall b, e :: p <= b < r.value.0 ==> !DelimitedMatch(t, open, close, b, e)
    ensures r.None? ==> forall b, e :: p <= b ==> !DelimitedMatch(t, open, close, b, e)
    decreases |t| - p
  {
    if p == |t| then None
    else if OccursAt(t, open, p) && LazyUntil(t, p + |open|, close).Some? then
      Some((p, LazyUntil(t, p + |open|, close).value))
    else FindDelimited(t, open, close, p + 1)
  }

  /** Group 1 of `t.match(/OPEN(.*?)C/)`: what lies between `OPEN` and `C` in the leftmost match. */
  function FirstCapture(t: string, open: string, close: char): (r: Option<string>)
    ensures r.None? <==> forall b, e :: !DelimitedMatch(t, open, close, b, e)
    ensures r.Some? ==> exists b: nat, e: nat ::
              && DelimitedMatch(t, open, close, b, e)
              && r.value == t[b + |open|..e]
              && forall b': nat, e': nat :: b' < b ==> !DelimitedMatch(t, open, close, b', e')
    ensures r.Some? ==> close !in r.value
  {
    match FindDelimited(t, open, close, 0)
    case Some((b, e)) => Some(t[b + |open|..e])
    case None => None
  }

  /** A match with no `OPEN` before it is the leftmost one, and its capture is group 1. */
  lemma CaptureAt(t: string, open: string, close: char, b: nat, e: nat)
    requires DelimitedMatch(t, open, close, b, e)
    requires forall p: nat :: p < b ==> !OccursAt(t, open, p)
    ensures FirstCapture(t, open, close) == Some(t[b + |open|..e])
  {
    var r := FindDelimited(t, open, close, 0);
    assert r.Some?;
    DelimitedMatchUnique(t, open, close, b, e, r.value.1);
  }

  /** A match is determined by where it starts: it ends at the first `C` after `OPEN`. */
  lemma DelimitedMatchUnique(t: string, open: string, close: char, b: nat, e1: nat, e2: nat)
    requires DelimitedMatch(t, open, close, b, e1)
    requires DelimitedMatch(t, open, close, b, e2)
    ensures e1 == e2
  {
  }

  /** On text without line terminators the lazy scan stops at the first `C`, if there is one. */
  lemma {:induction false} LazyUntilFindsFirst(t: string, k: nat, close: char)
    requires k <= |t|
    requires DotsOnly(t, k, |t|)
    ensures LazyUntil(t, k, close) == IndexFrom(t, close, k)
    decreases |t| - k
  {
    if k < |t| && t[k] != close {
      assert DotsOnly(t, k + 1, |t|);
      LazyUntilFindsFirst(t, k + 1, close);
    }
  }
}
