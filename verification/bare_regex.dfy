/**
 * Facts about the regex /{.*?}/ of `extractJSON`'s third strategy, modelled
 * as `LazyMatch.FindDelimited(t, "{", '}', p)`: where its match starts and
 * where it ends.
 */
module BareRegex {
  import opened Wrappers
  import opened Text
  import opened LazyMatch

  /** The bare match starts with its `{`. */
  lemma BraceAt(t: string, b: nat, e: nat)
    requires DelimitedMatch(t, "{", '}', b, e)
    ensures b < e < |t| && t[b] == '{'
  {
    assert t[b..b + 1][0] == t[b];
  }

  /** The span from the first `{` to the first `}` after it, when there is one. */
  function FirstBraceSpan(t: string): (r: Option<(nat, nat)>)
    ensures r.Some? ==> r.value.0 < r.value.1 < |t| && t[r.value.0] == '{' && t[r.value.1] == '}'
  {
    match IndexOf(t, '{')
    case None => None
    case Some(b) =>
      match IndexFrom(t, '}', b + 1)
      case None => None
      case Some(e) => Some((b, e))
  }

  /**
   * On collapsed text the bare regex matches exactly when a `}` follows the
   * first `{`, and it spans from that `{` to the first `}` after it.
   */
  lemma {:induction false} BareSpan(t: string)
    requires DotsOnly(t, 0, |t|)
    ensures FindDelimited(t, "{", '}', 0) == FirstBraceSpan(t)
  {
    match IndexOf(t, '{')
    case None =>
      NoBraceNoBareMatch(t);
    case Some(b) =>
      if IndexFrom(t, '}', b + 1).Some? {
        BareSpanFound(t, b);
      } else {
        BareSpanMissing(t, b);
      }
  }

  lemma {:induction false} BareSpanFound(t: string, b: nat)
    requires DotsOnly(t, 0, |t|)
    requires IndexOf(t, '{') == Some(b)
    requires IndexFrom(t, '}', b + 1).Some?
    ensures FindDelimited(t, "{", '}', 0) == FirstBraceSpan(t)
  {
    BareMatchAtFirstBrace(t, b);
    FirstMatchWins(t, b, IndexFrom(t, '}', b + 1).value);
  }

  /** A match at the first `{` is the one the regex reports. */
  lemma FirstMatchWins(t: string, b: nat, e: nat)
    requires IndexOf(t, '{') == Some(b)
    requires DelimitedMatch(t, "{", '}', b, e)
    ensures FindDelimited(t, "{", '}', 0) == Some((b, e))
  {
    var r := FindDelimited(t, "{", '}', 0);
    assert r.Some?;
    var (b', e') := r.value;
    NoMatchBeforeFirstBrace(t, b', e');
    assert b' == b;
    DelimitedMatchUnique(t, "{", '}', b, e, e');
  }

  lemma BareSpanMissing(t: string, b: nat)
    requires IndexOf(t, '{') == Some(b)
    requires IndexFrom(t, '}', b + 1).None?
    ensures FindDelimited(t, "{", '}', 0) == FirstBraceSpan(t) == None
  {
    var r := FindDelimited(t, "{", '}', 0);
    if r.Some? {
      NoMatchBeforeFirstBrace(t, r.value.0, r.value.1);
    }
  }

  /** A bare match starts at a `{`, so never before the first one. */
  lemma NoMatchBeforeFirstBrace(t: string, b: nat, e: nat)
    requires DelimitedMatch(t, "{", '}', b, e)
    ensures IndexOf(t, '{').Some? && IndexOf(t, '{').value <= b
  {
    BraceAt(t, b, e);
  }

  /** On collapsed text, a `{` with a `}` after it starts a match that ends at the first such `}`. */
  lemma BareMatchAtFirstBrace(t: string, b: nat)
    requires DotsOnly(t, 0, |t|)
    requires b < |t| && t[b] == '{'
    requires IndexFrom(t, '}', b + 1).Some?
    ensures DelimitedMatch(t, "{", '}', b, IndexFrom(t, '}', b + 1).value)
  {
    assert DotsOnly(t, b + 1, |t|);
    LazyUntilFindsFirst(t, b + 1, '}');
    LazyMatchAt(t, b, IndexFrom(t, '}', b + 1).value);
  }

  /** A `{` whose lazy scan finds a `}` starts a match that ends there. */
  lemma LazyMatchAt(t: string, b: nat, e: nat)
    requires b < |t| && t[b] == '{'
    requires LazyUntil(t, b + 1, '}') == Some(e)
    ensures DelimitedMatch(t, "{", '}', b, e)
  {
    assert t[b..b + 1] == [t[b]];
  }

  /** Without a `{` the bare regex has nothing to match. */
  lemma NoBraceNoBareMatch(t: string)
    requires '{' !in t
    ensures FindDelimited(t, "{", '}', 0).None?
  {
    var r := FindDelimited(t, "{", '}', 0);
    if r.Some? {
      BraceAt(t, r.value.0, r.value.1);
    }
  }
}
