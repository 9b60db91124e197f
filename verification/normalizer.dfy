/**
 * The checks `analyzeResume` applies to an extracted value (src/App.jsx):
 * `matchPercentage` must be a JSON number, then the value is spread over a
 * fixed default object, `{...defaultAnalysis, ...parsed}`. The spread is
 * shallow: a key the candidate has replaces the default value wholesale.
 */
module Normalizer {
  import opened Wrappers
  import opened Json

  const MissingMatchPercentage := "Invalid analysis format received - missing matchPercentage"
  const DefaultSummary := "No summary available"

  /** `defaultAnalysis`: zero scores, empty lists and the placeholder summary. */
  const DefaultAnalysis: seq<Member> := [
    Member("matchPercentage", JNumber(0.0)),
    Member("scoreBreakdown", JObject([
      Member("skills", JNumber(0.0)),
      Member("experience", JNumber(0.0)),
      Member("education", JNumber(0.0)),
      Member("keywords", JNumber(0.0))])),
    Member("atsScore", JNumber(0.0)),
    Member("missingKeywords", JArray([])),
    Member("sectionFeedback", JObject([
      Member("skills", JArray([])),
      Member("experience", JArray([])),
      Member("education", JArray([]))])),
    Member("strengths", JArray([])),
    Member("weaknesses", JArray([])),
    Member("keyChanges", JArray([])),
    Member("summary", JString(DefaultSummary))
  ]

  lemma DefaultKeysUnique()
    ensures UniqueKeys(DefaultAnalysis)
  {
  }

  /** `typeof parsed?.matchPercentage === 'number'`; an array has no such property. */
  predicate HasNumericMatch(parsed: Json) {
    parsed.JObject? && IsNumber(Get(parsed.members, "matchPercentage"))
  }

  /** The required-field check: the candidate's members, or the error it throws. */
  function Validate(parsed: Json): (r: Result<seq<Member>, string>)
    ensures r.Ok? <==> HasNumericMatch(parsed)
    ensures r.Ok? ==> JObject(r.value) == parsed
    ensures r.Err? ==> r.error == MissingMatchPercentage
  {
    if HasNumericMatch(parsed) then Ok(parsed.members) else Err(MissingMatchPercentage)
  }

  /**
   * `{...base, ...top}`: the members of `top` written onto `base` in order.
   */
  function Overlay(base: seq<Member>, top: seq<Member>): seq<Member>
    decreases |top|
  {
    if |top| == 0 then base
    else Put(Overlay(base, top[..|top| - 1]), top[|top| - 1].key, top[|top| - 1].value)
  }

  /** A name `top` has reads `top`'s value after the spread; any other name reads `base`'s. */
  lemma {:induction false} OverlayGet(base: seq<Member>, top: seq<Member>, k: string)
    ensures Get(Overlay(base, top), k) == if k in Keys(top) then Get(top, k) else Get(base, k)
    decreases |top|
  {
    if |top| > 0 {
      var init := top[..|top| - 1];
      var last := top[|top| - 1];
      assert top == init + [last];
      KeysAppend(init, last);
      GetAppend(init, last, k);
      if k != last.key {
        OverlayGet(base, init, k);
        assert k in Keys(top) <==> k in Keys(init);
      }
    }
  }

  /** The names of `base` keep their leading positions, and no name is doubled. */
  lemma {:induction false} OverlayKeys(base: seq<Member>, top: seq<Member>)
    ensures |base| <= |Overlay(base, top)|
    ensures Keys(Overlay(base, top))[..|base|] == Keys(base)
    ensures UniqueKeys(base) ==> UniqueKeys(Overlay(base, top))
    decreases |top|
  {
    if |top| > 0 {
      var init := top[..|top| - 1];
      var last := top[|top| - 1];
      OverlayKeys(base, init);
      var prev := Overlay(base, init);
      var r := Put(prev, last.key, last.value);
      if last.key !in Keys(prev) {
        assert Keys(r)[..|base|] == Keys(prev)[..|base|];
      }
    }
  }

  /** The normalised analysis `analyzeResume` publishes, or the message it throws. */
  function Normalize(parsed: Json): (r: Result<seq<Member>, string>)
    ensures r.Ok? <==> HasNumericMatch(parsed)
    ensures r.Err? ==> r.error == MissingMatchPercentage
    ensures r.Ok? ==> UniqueKeys(r.value)
    ensures r.Ok? ==> forall k :: k in Keys(DefaultAnalysis) ==> k in Keys(r.value)
    ensures r.Ok? ==> forall k :: k in Keys(parsed.members) ==> Get(r.value, k) == Get(parsed.members, k)
    ensures r.Ok? ==> forall k :: k !in Keys(parsed.members) ==> Get(r.value, k) == Get(DefaultAnalysis, k)
    ensures r.Ok? ==> IsNumber(Get(r.value, "matchPercentage"))
  {
    match Validate(parsed)
    case Err(e) => Err(e)
    case Ok(members) =>
      DefaultKeysUnique();
      var r := Overlay(DefaultAnalysis, members);
      OverlayKeys(DefaultAnalysis, members);
      forall k
        ensures Get(r, k) == if k in Keys(members) then Get(members, k) else Get(DefaultAnalysis, k)
      {
        OverlayGet(DefaultAnalysis, members, k);
      }
      assert Get(members, "matchPercentage").Some?;
      forall k | k in Keys(DefaultAnalysis)
        ensures k in Keys(r)
      {
        assert Get(DefaultAnalysis, k).Some?;
      }
      Ok(r)
  }

  /** Writing a name that is already present, in an object without doubled names. */
  lemma PutInPlace(cur: seq<Member>, i: nat, v: Json)
    requires UniqueKeys(cur)
    requires i < |cur|
    ensures Put(cur, cur[i].key, v) == cur[..i] + [Member(cur[i].key, v)] + cur[i + 1..]
  {
    var k := cur[i].key;
    assert Keys(cur)[i] == k;
    PutShape(cur, k, v);
    var r := Put(cur, k, v);
    var e := cur[..i] + [Member(k, v)] + cur[i + 1..];
    assert |r| == |e|;
    forall j | 0 <= j < |r|
      ensures r[j] == e[j]
    {
      if j != i {
        assert cur[j].key != k;
      }
    }
  }

  /** Writing a name that is not yet present appends it. */
  lemma PutFresh(cur: seq<Member>, m: Member)
    requires m.key !in Keys(cur)
    ensures Put(cur, m.key, m.value) == cur + [m]
  {
    PutShape(cur, m.key, m.value);
  }

  /** Splicing a prefix of `x` onto `base` keeps the names of `x`, position by position. */
  lemma SpliceKeys(base: seq<Member>, x: seq<Member>, m: nat)
    requires |base| <= |x| && Keys(x)[..|base|] == Keys(base)
    requires m < |base|
    ensures forall i :: 0 <= i < |base| ==> (x[..m] + base[m..])[i].key == x[i].key
  {
    var cur := x[..m] + base[m..];
    forall i | 0 <= i < |base|
      ensures cur[i].key == x[i].key
    {
      if i >= m {
        assert cur[i] == base[i];
        assert Keys(x)[i] == Keys(base)[i];
      }
    }
  }

  lemma SpliceUnique(base: seq<Member>, x: seq<Member>, m: nat)
    requires UniqueKeys(x)
    requires |base| <= |x| && Keys(x)[..|base|] == Keys(base)
    requires m < |base|
    ensures UniqueKeys(x[..m] + base[m..])
  {
    var cur := x[..m] + base[m..];
    SpliceKeys(base, x, m);
    forall i, j | 0 <= i < j < |cur|
      ensures cur[i].key != cur[j].key
    {
      assert x[i].key != x[j].key;
    }
  }

  /** One more member of `x` written onto the state `x[..m] + base[m..]`, for `m < |base|`. */
  lemma StepWithinBase(base: seq<Member>, x: seq<Member>, m: nat)
    requires UniqueKeys(x)
    requires |base| <= |x| && Keys(x)[..|base|] == Keys(base)
    requires m < |base|
    ensures Put(x[..m] + base[m..], x[m].key, x[m].value) == x[..m + 1] + base[m + 1..]
  {
    var cur := x[..m] + base[m..];
    SpliceKeys(base, x, m);
    SpliceUnique(base, x, m);
    assert cur[..m] + [x[m]] + cur[m + 1..] == x[..m + 1] + base[m + 1..] by {
      assert cur[..m] == x[..m];
      assert cur[m + 1..] == base[m + 1..];
      assert x[..m + 1] == x[..m] + [x[m]];
    }
    assert cur[m] == base[m];
    assert Member(cur[m].key, x[m].value) == x[m];
    PutInPlace(cur, m, x[m].value);
  }

  /** One more member of `x` written onto the state `x[..m]`: its name is new, so it is appended. */
  lemma StepBeyondBase(x: seq<Member>, m: nat)
    requires UniqueKeys(x)
    requires m < |x|
    ensures Put(x[..m], x[m].key, x[m].value) == x[..m + 1]
  {
    assert x[m].key !in Keys(x[..m]) by {
      forall i | 0 <= i < m
        ensures Keys(x[..m])[i] != x[m].key
      {
        assert x[i].key != x[m].key;
      }
    }
    PutFresh(x[..m], x[m]);
    assert x[..m + 1] == x[..m] + [x[m]];
  }

  /** The spread of the first `n` members is the spread of the first `n - 1`, then one `Put`. */
  lemma OverlayLast(base: seq<Member>, x: seq<Member>, n: nat)
    requires 1 <= n <= |x|
    ensures Overlay(base, x[..n]) == Put(Overlay(base, x[..n - 1]), x[n - 1].key, x[n - 1].value)
  {
    assert x[..n][..n - 1] == x[..n - 1];
    assert x[..n][n - 1] == x[n - 1];
  }

  /** One step of the spread while `x` still runs over the names of `base`. */
  lemma PrefixWithinBase(base: seq<Member>, x: seq<Member>, m: nat)
    requires UniqueKeys(x)
    requires |base| <= |x| && Keys(x)[..|base|] == Keys(base)
    requires m < |base|
    requires Overlay(base, x[..m]) == x[..m] + base[m..]
    ensures Overlay(base, x[..m + 1]) == x[..m + 1] + base[m + 1..]
  {
    OverlayLast(base, x, m + 1);
    StepWithinBase(base, x, m);
  }

  /** One step of the spread once `x` has passed the names of `base`. */
  lemma PrefixBeyondBase(base: seq<Member>, x: seq<Member>, m: nat)
    requires UniqueKeys(x)
    requires m < |x|
    requires Overlay(base, x[..m]) == x[..m]
    ensures Overlay(base, x[..m + 1]) == x[..m + 1]
  {
    OverlayLast(base, x, m + 1);
    StepBeyondBase(x, m);
  }

  /** The overlay state after `n` members of `x` have been written onto `base`. */
  lemma {:induction false} OverlayPrefix(base: seq<Member>, x: seq<Member>, n: nat)
    requires UniqueKeys(x)
    requires |base| <= |x| && Keys(x)[..|base|] == Keys(base)
    requires n <= |x|
    ensures n <= |base| ==> Overlay(base, x[..n]) == x[..n] + base[n..]
    ensures n >= |base| ==> Overlay(base, x[..n]) == x[..n]
  {
    if n == 0 {
      assert x[..0] == [];
      assert base[0..] == base;
    } else {
      var m := n - 1;
      OverlayPrefix(base, x, m);
      if m < |base| {
        PrefixWithinBase(base, x, m);
      } else {
        PrefixBeyondBase(base, x, m);
      }
    }
  }

  /** Overlaying onto a value that already extends `base`, name for name, changes nothing. */
  lemma OverlayOntoExtension(base: seq<Member>, x: seq<Member>)
    requires UniqueKeys(x)
    requires |base| <= |x| && Keys(x)[..|base|] == Keys(base)
    ensures Overlay(base, x) == x
  {
    OverlayPrefix(base, x, |x|);
    assert x[..|x|] == x;
  }

  /** The spread is idempotent: `{...d, ...{...d, ...p}}` equals `{...d, ...p}`. */
  lemma OverlayIdempotent(base: seq<Member>, top: seq<Member>)
    requires UniqueKeys(base)
    ensures Overlay(base, Overlay(base, top)) == Overlay(base, top)
  {
    OverlayKeys(base, top);
    OverlayOntoExtension(base, Overlay(base, top));
  }

  /** Normalising an already normalised analysis returns it unchanged. */
  lemma NormalizeIdempotent(parsed: Json)
    requires Normalize(parsed).Ok?
    ensures Normalize(JObject(Normalize(parsed).value)) == Normalize(parsed)
  {
    DefaultKeysUnique();
    OverlayIdempotent(DefaultAnalysis, parsed.members);
  }

  /**
   * The overlay is shallow: a candidate whose `scoreBreakdown` has only
   * `skills` keeps exactly that object, so the other three scores are absent.
   */
  lemma ShallowBreakdown(n: real, skills: real)
    ensures var partial := JObject([Member("skills", JNumber(skills))]);
            var r := Normalize(JObject([Member("matchPercentage", JNumber(n)),
                                        Member("scoreBreakdown", partial)]));
            && r.Ok?
            && Get(r.value, "scoreBreakdown") == Some(partial)
            && Get(partial.members, "experience").None?
  {
    var partial := JObject([Member("skills", JNumber(skills))]);
    var top := [Member("matchPercentage", JNumber(n)), Member("scoreBreakdown", partial)];
    assert Get(top, "matchPercentage") == Some(JNumber(n));
    assert Keys(top) == ["matchPercentage", "scoreBreakdown"];
    assert Get(top, "scoreBreakdown") == Some(partial);
  }

  /** The default values of the fields whose defaults the results view tests. */
  lemma DefaultValues()
    ensures Get(DefaultAnalysis, "atsScore") == Some(JNumber(0.0))
    ensures Get(DefaultAnalysis, "missingKeywords") == Some(JArray([]))
    ensures Get(DefaultAnalysis, "summary") == Some(JString(DefaultSummary))
  {
    DefaultKeysUnique();
    GetUnique(DefaultAnalysis, 2);
    GetUnique(DefaultAnalysis, 3);
    GetUnique(DefaultAnalysis, 8);
  }

  /** A field the candidate lacks reads its default after normalisation. */
  lemma NormalizeFallsBack(parsed: Json, k: string)
    requires HasNumericMatch(parsed)
    requires k !in Keys(parsed.members)
    ensures Normalize(parsed).Ok?
    ensures Get(Normalize(parsed).value, k) == Get(DefaultAnalysis, k)
  {
  }

  /** A candidate with only `matchPercentage` gets every other field from the defaults. */
  lemma BackfillFromDefaults(parsed: Json)
    requires HasNumericMatch(parsed)
    requires Keys(parsed.members) == ["matchPercentage"]
    ensures var r := Normalize(parsed);
            && r.Ok?
            && Get(r.value, "matchPercentage") == Get(parsed.members, "matchPercentage")
            && Get(r.value, "atsScore") == Some(JNumber(0.0))
            && Get(r.value, "summary") == Some(JString(DefaultSummary))
            && Get(r.value, "missingKeywords") == Some(JArray([]))
            && Get(r.value, "scoreBreakdown") == Get(DefaultAnalysis, "scoreBreakdown")
  {
    DefaultValues();
    NormalizeFallsBack(parsed, "atsScore");
    NormalizeFallsBack(parsed, "summary");
    NormalizeFallsBack(parsed, "missingKeywords");
    NormalizeFallsBack(parsed, "scoreBreakdown");
  }
}
