/**
 * `extractJSON` (src/App.jsx): recovers a JSON value from free-form model
 * output with an ordered chain of strategies, each tried only when the one
 * before it did not produce a value:
 *
 *   1. `JSON.parse` of the whole text, kept when it is a non-null object
 *      (arrays included);
 *   2. on the text with every whitespace run collapsed to one space, the regex
 *      /```(json)?\s*({.*?})\s*```/, whose second group is parsed; a group that
 *      does not parse ends the extraction with an error;
 *   3. on the same collapsed text, the regex /{.*?}/, whose match is parsed.
 *
 * Every failure is reported as one fixed-format message. The regexes are
 * modelled as leftmost-match scanners; `.` does not match line terminators.
 */
module Extractor {
  import opened Wrappers
  import opened Text
  import opened Json
  import opened JsonParser
  import opened LazyMatch
  import opened BareRegex

  const NoStructureReason := "No valid JSON structure found in response"

  /**
   * Stands for the message of the SyntaxError `JSON.parse` throws; its wording
   * belongs to the JavaScript engine and is not part of this model.
   */
  const ParseFailureReason := "Unexpected token in JSON"

  const FailureHead := "Failed to extract JSON: "
  const ReceivedTag := ". Received: \""
  const FailureTail := "...\""

  /** How much of the received text a failure message quotes. */
  const QuoteLimit: nat := 100

  /**
   * The message `extractJSON` throws: the reason, then exactly the first
   * min(n, 100) characters received, between fixed pieces of text.
   */
  function FailureMessage(reason: string, text: string): (r: string)
    ensures |r| == |FailureHead| + |reason| + |ReceivedTag| + Min(|text|, QuoteLimit) + |FailureTail|
    ensures r[..|FailureHead|] == FailureHead
    ensures r[|FailureHead|..|FailureHead| + |reason|] == reason
    ensures r[|FailureHead| + |reason|..|FailureHead| + |reason| + |ReceivedTag|] == ReceivedTag
    ensures r[|r| - |FailureTail| - Min(|text|, QuoteLimit)..|r| - |FailureTail|] == text[..Min(|text|, QuoteLimit)]
    ensures r[|r| - |FailureTail|..] == FailureTail
  {
    var quoted := Take(text, QuoteLimit);
    var r := FailureHead + reason + ReceivedTag + quoted + FailureTail;
    assert r[..|FailureHead|] == FailureHead;
    assert r[|FailureHead|..|FailureHead| + |reason|] == reason;
    assert r[|FailureHead| + |reason|..|FailureHead| + |reason| + |ReceivedTag|] == ReceivedTag;
    assert r[|r| - |FailureTail| - |quoted|..|r| - |FailureTail|] == quoted;
    assert r[|r| - |FailureTail|..] == FailureTail;
    r
  }

  /** Texts that agree on their first 100 characters fail with the same message. */
  lemma FailureQuotesOnlyPrefix(reason: string, text1: string, text2: string)
    requires Take(text1, QuoteLimit) == Take(text2, QuoteLimit)
    ensures FailureMessage(reason, text1) == FailureMessage(reason, text2)
  {
  }

  /** The two reasons give different messages, so a failure says which strategy gave up. */
  lemma FailureReasonsDiffer(text1: string, text2: string)
    ensures FailureMessage(NoStructureReason, text1) != FailureMessage(ParseFailureReason, text2)
  {
    var m1, m2 := FailureMessage(NoStructureReason, text1), FailureMessage(ParseFailureReason, text2);
    assert m1[|FailureHead|] == NoStructureReason[0];
    assert m2[|FailureHead|] == ParseFailureReason[0];
  }

  // ---------------------------------------------------------------------------
  // Strategy 2: /```(json)?\s*({.*?})\s*```/

  /**
   * Where group 2 starts for a match that starts at the fence at `p`: after the
   * fence, the optional `json` tag and any spaces, provided a `{` is there.
   * Backtracking out of the `json` tag can never help, since `{` is not `j`.
   */
  function FencedOpen(t: string, p: nat): (r: Option<nat>)
    requires OccursAt(t, "```", p)
    ensures r.Some? ==> p + 3 <= r.value < |t| && t[r.value] == '{'
  {
    var q := if OccursAt(t, "json", p + 3) then p + 7 else p + 3;
    var b := SpacesEnd(t, q);
    if b < |t| && t[b] == '{' then Some(b) else None
  }

  /** A `}` at `e` followed by optional whitespace and a closing fence. */
  predicate ClosesFence(t: string, e: nat)
    requires e < |t|
  {
    t[e] == '}' && OccursAt(t, "```", SpacesEnd(t, e + 1))
  }

  /** The regex matches starting at `q` with group 2 equal to `t[b..e + 1]`. */
  predicate FencedMatch(t: string, q: nat, b: nat, e: nat) {
    && OccursAt(t, "```", q)
    && FencedOpen(t, q) == Some(b)
    && b < e < |t|
    && ClosesFence(t, e)
    && DotsOnly(t, b + 1, e)
  }

  /** The lazy `.*?}\s*```` from `k` on: the first `}` that a closing fence follows. */
  function FencedClose(t: string, k: nat): (r: Option<nat>)
    requires k <= |t|
    ensures r.Some? ==> k <= r.value < |t| && ClosesFence(t, r.value) && DotsOnly(t, k, r.value)
    ensures r.Some? ==> forall e :: k <= e < r.value ==> !ClosesFence(t, e)
    ensures r.None? ==> forall e :: k <= e < |t| && ClosesFence(t, e) ==> !DotsOnly(t, k, e)
    decreases |t| - k
  {
    if k == |t| then None
    else if ClosesFence(t, k) then Some(k)
    else if IsLineTerminator(t[k]) then None
    else FencedClose(t, k + 1)
  }

  /** The match of the fenced-block regex that starts at `p`, if any. */
  function FencedAt(t: string, p: nat): (r: Option<(nat, nat)>)
    ensures r.Some? ==> FencedMatch(t, p, r.value.0, r.value.1)
    ensures r.Some? ==> forall e :: r.value.0 < e < r.value.1 ==> !ClosesFence(t, e)
    ensures r.None? ==> forall b, e :: !FencedMatch(t, p, b, e)
  {
    if !OccursAt(t, "```", p) then None
    else
      match FencedOpen(t, p)
      case None => None
      case Some(b) =>
        match FencedClose(t, b + 1)
        case None => None
        case Some(e) => Some((b, e))
  }

  /** No match of the fenced-block regex starts at or after `p`. */
  ghost predicate NoFencedFrom(t: string, p: nat) {
    forall q, b, e :: p <= q ==> !FencedMatch(t, q, b, e)
  }

  /** Some match starts at or after `p` with group 2 at `b..e`, and none starts earlier. */
  ghost predicate LeftmostFenced(t: string, p: nat, b: nat, e: nat) {
    exists q :: p <= q && FencedMatch(t, q, b, e)
                && forall q', b', e' :: p <= q' < q ==> !FencedMatch(t, q', b', e')
  }

  /**
   * `t.match(/```(json)?\s*({.*?})\s*```/)` searching from `p`: the leftmost
   * match, with group 2 running from its `{` to the nearest `}` that a closing
   * fence follows.
   */
  function FindFenced(t: string, p: nat): (r: Option<(nat, nat)>)
    requires p <= |t|
    ensures r.Some? ==> LeftmostFenced(t, p, r.value.0, r.value.1)
    ensures r.Some? ==> forall e :: r.value.0 < e < r.value.1 ==> !ClosesFence(t, e)
    ensures r.None? ==> NoFencedFrom(t, p)
    decreases |t| - p
  {
    match FencedAt(t, p)
    case Some(m) =>
      FencedHere(t, p, m.0, m.1);
      Some(m)
    case None =>
      if p == |t| then
        NoFencedAtEnd(t);
        None
      else
        var r := FindFenced(t, p + 1);
        if r.Some? then
          FencedLater(t, p, r.value.0, r.value.1);
          r
        else
          NoFencedBefore(t, p);
          r
  }

  lemma FencedHere(t: string, p: nat, b: nat, e: nat)
    requires FencedMatch(t, p, b, e)
    ensures LeftmostFenced(t, p, b, e)
  {
    assert p <= p && FencedMatch(t, p, b, e);
  }

  lemma NoFencedAtEnd(t: string)
    requires FencedAt(t, |t|).None?
    ensures NoFencedFrom(t, |t|)
  {
    forall q, b, e | |t| <= q
      ensures !FencedMatch(t, q, b, e)
    {
      if q > |t| {
        assert !OccursAt(t, "```", q);
      }
    }
  }

  lemma FencedLater(t: string, p: nat, b: nat, e: nat)
    requires FencedAt(t, p).None?
    requires LeftmostFenced(t, p + 1, b, e)
    ensures LeftmostFenced(t, p, b, e)
  {
    var q :| p + 1 <= q && FencedMatch(t, q, b, e)
             && forall q', b', e' :: p + 1 <= q' < q ==> !FencedMatch(t, q', b', e');
    assert forall b', e' :: !FencedMatch(t, p, b', e');
    assert p <= q && FencedMatch(t, q, b, e);
  }

  lemma NoFencedBefore(t: string, p: nat)
    requires FencedAt(t, p).None?
    requires NoFencedFrom(t, p + 1)
    ensures NoFencedFrom(t, p)
  {
    assert forall b', e' :: !FencedMatch(t, p, b', e');
  }

  /** Group 2 of the fenced regex on `t`, when it matches. */
  function FencedGroup(t: string): (g: Option<string>)
    ensures g.None? <==> FindFenced(t, 0).None?
    ensures g.Some? ==> var (b, e) := FindFenced(t, 0).value;
                        b < e < |t| && g.value == t[b..e + 1]
    ensures g.Some? ==> |g.value| > 0 && g.value[0] == '{' && g.value[|g.value| - 1] == '}'
  {
    match FindFenced(t, 0)
    case None => None
    case Some((b, e)) =>
      LeftmostFencedBraces(t, b, e);
      Some(t[b..e + 1])
  }

  /** Group 2 of the leftmost fenced match runs from a `{` to a `}`. */
  lemma LeftmostFencedBraces(t: string, b: nat, e: nat)
    requires LeftmostFenced(t, 0, b, e)
    ensures b < e < |t| && t[b] == '{' && t[e] == '}'
  {
    var q :| 0 <= q && FencedMatch(t, q, b, e)
             && forall q', b', e' :: 0 <= q' < q ==> !FencedMatch(t, q', b', e');
    FencedBraceAt(t, q, b, e);
  }

  // ---------------------------------------------------------------------------
  // Strategy 3: /{.*?}/ is `LazyMatch.FindDelimited(t, "{", '}', p)`; see `BareRegex`.

  /** The match of the bare-object regex on `t`, when it matches. */
  function BareGroup(t: string): (g: Option<string>)
    ensures g.None? <==> FindDelimited(t, "{", '}', 0).None?
    ensures g.Some? ==> var (b, e) := FindDelimited(t, "{", '}', 0).value;
                        b < e < |t| && g.value == t[b..e + 1]
    ensures g.Some? ==> |g.value| > 0 && g.value[0] == '{' && g.value[|g.value| - 1] == '}'
  {
    match FindDelimited(t, "{", '}', 0)
    case None => None
    case Some((b, e)) =>
      BraceAt(t, b, e);
      Some(t[b..e + 1])
  }

  // ---------------------------------------------------------------------------
  // The chain

  /**
   * `JSON.parse` of a regex capture; a SyntaxError becomes the extraction
   * error. Both regexes capture text that starts with `{`.
   */
  function ParseCapture(capture: string, text: string): (r: Result<Json, string>)
    requires |capture| > 0 && capture[0] == '{'
    ensures r.Ok? <==> Parse(capture).Some?
    ensures r.Ok? ==> r.value == Parse(capture).value && r.value.JObject?
    ensures r.Err? ==> r.error == FailureMessage(ParseFailureReason, text)
  {
    BraceTextParsesToObject(capture);
    match Parse(capture)
    case Some(v) => Ok(v)
    case None => Err(FailureMessage(ParseFailureReason, text))
  }

  /** Strategy 1 succeeds: the whole text parses to a non-null object (an array is one too). */
  predicate DirectHit(text: string) {
    Parse(text).Some? && (Parse(text).value.JObject? || Parse(text).value.JArray?)
  }

  /** Group 2 of a fenced match starts with its `{` and ends with its `}`. */
  lemma FencedBraceAt(t: string, q: nat, b: nat, e: nat)
    requires FencedMatch(t, q, b, e)
    ensures b < e < |t| && t[b] == '{' && t[e] == '}'
  {
  }

  /**
   * Strategies 2 and 3, run on the whitespace-collapsed text: the fenced
   * group decides when the fenced regex matches, the bare match when only it
   * matches; each is returned as `JSON.parse` reads it, and a capture that
   * does not parse, or the absence of both matches, is an error.
   */
  function Recover(text: string): (r: Result<Json, string>)
    ensures var g := FencedGroup(Collapse(text));
            g.Some? ==> (r.Ok? <==> Parse(g.value).Some?)
                        && (r.Ok? ==> r.value == Parse(g.value).value)
                        && (r.Err? ==> r.error == FailureMessage(ParseFailureReason, text))
    ensures var g := BareGroup(Collapse(text));
            FencedGroup(Collapse(text)).None? && g.Some? ==>
                        (r.Ok? <==> Parse(g.value).Some?)
                        && (r.Ok? ==> r.value == Parse(g.value).value)
                        && (r.Err? ==> r.error == FailureMessage(ParseFailureReason, text))
    ensures NoFencedFrom(Collapse(text), 0) && FindDelimited(Collapse(text), "{", '}', 0).None? ==>
              r == Err(FailureMessage(NoStructureReason, text))
    ensures r.Ok? ==> r.value.JObject?
    ensures r.Err? ==> r.error == FailureMessage(NoStructureReason, text)
                       || r.error == FailureMessage(ParseFailureReason, text)
  {
    var compact := Collapse(text);
    match FencedGroup(compact)
    case Some(g) => ParseCapture(g, text)
    case None =>
      match BareGroup(compact)
      case Some(g) => ParseCapture(g, text)
      case None => Err(FailureMessage(NoStructureReason, text))
  }

  /** `extractJSON(text)`: a recovered value, or the message of the error it throws. */
  function ExtractJson(text: string): (r: Result<Json, string>)
    ensures DirectHit(text) ==> r == Ok(Parse(text).value)
    ensures !DirectHit(text) ==> r == Recover(text)
    ensures r.Ok? ==> r.value.JObject? || r.value.JArray?
    ensures r.Err? ==> r.error == FailureMessage(NoStructureReason, text)
                       || r.error == FailureMessage(ParseFailureReason, text)
  {
    if DirectHit(text) then Ok(Parse(text).value) else Recover(text)
  }

  // ---------------------------------------------------------------------------
  // Properties of the chain

  /** A fenced group that parses is what `extractJSON` returns when the direct parse misses. */
  lemma FencedRecovery(text: string, g: string)
    requires !DirectHit(text)
    requires FencedGroup(Collapse(text)) == Some(g)
    requires Parse(g).Some?
    ensures ExtractJson(text) == Ok(Parse(g).value)
  {
  }

  /** Without a fenced match, a bare match that parses is what `extractJSON` returns. */
  lemma BareRecovery(text: string, g: string)
    requires !DirectHit(text)
    requires FencedGroup(Collapse(text)).None?
    requires BareGroup(Collapse(text)) == Some(g)
    requires Parse(g).Some?
    ensures ExtractJson(text) == Ok(Parse(g).value)
  {
  }

  /** When neither regex matches and the direct parse misses, no JSON structure is reported. */
  lemma NoMatchNoStructure(text: string)
    requires !DirectHit(text)
    requires NoFencedFrom(Collapse(text), 0)
    requires FindDelimited(Collapse(text), "{", '}', 0).None?
    ensures ExtractJson(text) == Err(FailureMessage(NoStructureReason, text))
  {
  }

  /** A value that parses but is a scalar or `null` is not kept: the regexes run. */
  lemma ScalarFallsThrough(text: string)
    requires Parse(text).Some? && !Parse(text).value.JObject? && !Parse(text).value.JArray?
    ensures ExtractJson(text) == Recover(text)
  {
  }

  /**
   * Once the fenced regex matches, its capture decides: if the capture does
   * not parse, extraction fails even when the bare regex would have found an
   * object.
   */
  lemma FencedFailureIsFinal(text: string)
    requires !DirectHit(text)
    requires FencedGroup(Collapse(text)).Some?
    requires Parse(FencedGroup(Collapse(text)).value).None?
    ensures ExtractJson(text) == Err(FailureMessage(ParseFailureReason, text))
  {
  }

  /**
   * The bare regex cannot recover a nested object: its match holds a single
   * `}`, so what it parses to has no object-valued member.
   */
  lemma BareCaptureIsFlat(t: string, b: nat, e: nat)
    requires DelimitedMatch(t, "{", '}', b, e)
    requires Parse(t[b..e + 1]).Some?
    ensures Parse(t[b..e + 1]).value.JObject?
    ensures FlatMembers(Parse(t[b..e + 1]).value.members)
  {
    BraceAt(t, b, e);
    var capture := t[b..e + 1];
    forall k | 0 <= k < |capture| - 1
      ensures capture[k] != '}'
    {
      if k > 0 {
        assert capture[k] == t[b + 1..e][k - 1];
      }
    }
    SingleBraceObjectIsFlat(capture);
  }

  /** So a value recovered by the bare regex never has an object-valued member. */
  lemma BareRecoveryIsFlat(text: string)
    requires !DirectHit(text)
    requires FindFenced(Collapse(text), 0).None?
    requires ExtractJson(text).Ok?
    ensures ExtractJson(text).value.JObject? && FlatMembers(ExtractJson(text).value.members)
  {
    assert ExtractJson(text) == Recover(text);
    RecoverFromBare(text);
    BareGroupIsFlat(Collapse(text));
  }

  /** What the bare regex captures, when it parses, has no object-valued member. */
  lemma BareGroupIsFlat(t: string)
    requires BareGroup(t).Some?
    requires Parse(BareGroup(t).value).Some?
    ensures Parse(BareGroup(t).value).value.JObject?
    ensures FlatMembers(Parse(BareGroup(t).value).value.members)
  {
    var (b, e) := FindDelimited(t, "{", '}', 0).value;
    BareCaptureIsFlat(t, b, e);
  }

  /** When the fenced regex finds nothing, a recovered value is the parse of the bare match. */
  lemma RecoverFromBare(text: string)
    requires FencedGroup(Collapse(text)).None?
    requires Recover(text).Ok?
    ensures BareGroup(Collapse(text)).Some?
    ensures Parse(BareGroup(Collapse(text)).value) == Some(Recover(text).value)
  {
  }

  /** Both regexes need a `{`. */
  lemma NoBraceNoMatch(t: string)
    requires '{' !in t
    ensures FindFenced(t, 0).None?
    ensures FindDelimited(t, "{", '}', 0).None?
  {
    NoBraceNoBareMatch(t);
  }

  /**
   * Without a `{` only the direct parse can succeed, and then with an array;
   * otherwise the error reports that no JSON structure was found.
   */
  lemma BraceFreeInput(text: string)
    requires '{' !in text
    ensures DirectHit(text) ==> Parse(text).value.JArray? && ExtractJson(text) == Ok(Parse(text).value)
    ensures !DirectHit(text) ==> ExtractJson(text) == Err(FailureMessage(NoStructureReason, text))
  {
    if DirectHit(text) {
      if Parse(text).value.JObject? {
        ObjectNeedsBrace(text);
      }
    } else {
      CollapseMembership(text, '{');
      NoBraceNoMatch(Collapse(text));
    }
  }
}
