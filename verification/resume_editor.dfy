/**
 * The interactive editor (src/components/ResumeEditor.jsx): the suggestions it
 * derives from the per-section feedback strings, and the editor state that
 * applying a suggestion changes.
 *
 * A feedback string is read as `from → to`: each side is the text of the
 * first double-quoted phrase (after `→ ` for the right side) when that is
 * non-empty, and otherwise the trimmed text around the first arrow.
 */
module ResumeEditor {
  import opened Wrappers
  import opened Text
  import opened LazyMatch

  const Arrow: char := '\U{2192}'

  /** The opening of `/→ "(.*?)"/`. */
  const ArrowQuote: string := [Arrow, ' ', '"']

  datatype Suggestion = Suggestion(id: string, section: string, fromText: string, toText: string, feedback: string)

  // ---------------------------------------------------------------------------
  // Reading one feedback string

  /** `feedback.match(/"(.*?)"/)?.[1]`. */
  function Quoted(fb: string): Option<string> {
    FirstCapture(fb, "\"", '"')
  }

  /** `feedback.match(/→ "(.*?)"/)?.[1]`. */
  function ArrowQuoted(fb: string): Option<string> {
    FirstCapture(fb, ArrowQuote, '"')
  }

  /** A capture JavaScript treats as truthy: present and non-empty. */
  predicate Filled(c: Option<string>) {
    c.Some? && c.value != []
  }

  /**
   * `fromText`: the first quoted phrase when it is non-empty, otherwise the
   * text before the first arrow, trimmed.
   */
  function FromText(fb: string): string {
    var q := Quoted(fb);
    if Filled(q) then q.value else Trim(SplitOn(fb, Arrow)[0])
  }

  /**
   * So `fromText` is a quoted phrase, free of `"`, or the text before the first
   * arrow with its surrounding whitespace removed.
   */
  lemma FromTextMeaning(fb: string)
    ensures Filled(Quoted(fb)) ==> FromText(fb) == Quoted(fb).value && '"' !in FromText(fb)
    ensures !Filled(Quoted(fb)) ==>
              Arrow !in FromText(fb) && exists i: nat :: SpaceBoundedSlice(Before(fb, Arrow), FromText(fb), i)
    ensures !Filled(Quoted(fb)) ==> FromText(fb) == Trim(Before(fb, Arrow)) && TrimmedEnds(FromText(fb))
  {
    if !Filled(Quoted(fb)) {
      FirstPieceTrimmed(fb);
    }
  }

  lemma FirstPieceTrimmed(fb: string)
    ensures SplitOn(fb, Arrow)[0] == Before(fb, Arrow)
    ensures var r := Trim(SplitOn(fb, Arrow)[0]);
            Arrow !in r && exists i: nat :: SpaceBoundedSlice(Before(fb, Arrow), r, i)
  {
    SplitPieces(fb, Arrow);
    TrimAvoids(Before(fb, Arrow), Arrow);
  }

  /** The text between the first arrow and the next one (or the end). */
  function SecondPiece(fb: string): string
    requires Arrow in fb
  {
    Before(fb[|Before(fb, Arrow)| + 1..], Arrow)
  }

  /**
   * `toText`: the quoted phrase after `→ ` when it is non-empty, otherwise
   * the second arrow-separated piece, trimmed; `None` (undefined) when the
   * text has no arrow at all.
   */
  function ToText(fb: string): Option<string> {
    var q := ArrowQuoted(fb);
    var parts := SplitOn(fb, Arrow);
    if Filled(q) then q
    else if |parts| > 1 then Some(Trim(parts[1]))
    else None
  }

  /**
   * So `toText` is the quoted phrase after an arrow, free of `"`, or the text
   * between the first arrow and the next with its surrounding whitespace
   * removed, or undefined for text without an arrow.
   */
  lemma ToTextMeaning(fb: string)
    ensures Filled(ArrowQuoted(fb)) ==> ToText(fb) == ArrowQuoted(fb) && '"' !in ToText(fb).value
    ensures !Filled(ArrowQuoted(fb)) ==> (ToText(fb).Some? <==> Arrow in fb)
    ensures !Filled(ArrowQuoted(fb)) && Arrow in fb ==>
              Arrow !in ToText(fb).value && exists i: nat :: SpaceBoundedSlice(SecondPiece(fb), ToText(fb).value, i)
    ensures !Filled(ArrowQuoted(fb)) && Arrow in fb ==>
              ToText(fb) == Some(Trim(SecondPiece(fb))) && TrimmedEnds(ToText(fb).value)
  {
    SplitPieces(fb, Arrow);
    if !Filled(ArrowQuoted(fb)) && Arrow in fb {
      SecondPieceTrimmed(fb);
    }
  }

  lemma SecondPieceTrimmed(fb: string)
    requires Arrow in fb
    ensures |SplitOn(fb, Arrow)| > 1 && SplitOn(fb, Arrow)[1] == SecondPiece(fb)
    ensures var r := Trim(SplitOn(fb, Arrow)[1]);
            Arrow !in r && exists i: nat :: SpaceBoundedSlice(SecondPiece(fb), r, i)
  {
    SplitPieces(fb, Arrow);
    assert SplitOn(fb, Arrow)[1] == SecondPiece(fb);
    TrimAvoids(SecondPiece(fb), Arrow);
  }

  /** A suggestion's id: the section name, a dash and the feedback's position in its list. */
  function Id(section: string, index: nat): (r: string)
    ensures |r| == |section| + 1 + |NatToDecimal(index)|
    ensures r[..|section|] == section && r[|section|] == '-'
    ensures r[|section| + 1..] == NatToDecimal(index) && '-' !in r[|section| + 1..]
  {
    var r := section + "-" + NatToDecimal(index);
    assert r[..|section|] == section;
    assert r[|section| + 1..] == NatToDecimal(index);
    DecimalHasNoDash(index);
    r
  }

  /** The suggestion made from the feedback at `index` of `section`, if both sides are non-empty. */
  function Candidate(section: string, index: nat, fb: string): Option<Suggestion> {
    var from := FromText(fb);
    var to := ToText(fb);
    if from != [] && Filled(to) then Some(Suggestion(Id(section, index), section, from, to.value, fb))
    else None
  }

  // ---------------------------------------------------------------------------
  // Properties of reading feedback

  /** Both sides can only be found when the feedback holds an arrow. */
  lemma EmittedNeedsArrow(section: string, index: nat, fb: string)
    requires Candidate(section, index, fb).Some?
    ensures Arrow in fb
  {
    if Filled(ArrowQuoted(fb)) {
      var b: nat, e: nat :| DelimitedMatch(fb, ArrowQuote, '"', b, e);
      assert fb[b..b + 3][0] == fb[b];
    }
  }

  /** Text without quotes or arrows around one arrow: both sides trimmed. */
  lemma PlainArrowFeedback(section: string, index: nat, left: string, right: string)
    requires '"' !in left && '"' !in right
    requires Arrow !in left && Arrow !in right
    requires Trim(left) != [] && Trim(right) != []
    ensures var fb := left + [Arrow] + right;
            Candidate(section, index, fb) == Some(Suggestion(Id(section, index), section, Trim(left), Trim(right), fb))
  {
    PlainSides(left, right);
  }

  lemma PlainSides(left: string, right: string)
    requires '"' !in left && '"' !in right
    requires Arrow !in left && Arrow !in right
    ensures FromText(left + [Arrow] + right) == Trim(left)
    ensures ToText(left + [Arrow] + right) == Some(Trim(right))
  {
    var fb := left + [Arrow] + right;
    assert '"' !in fb;
    NoQuoteNoCapture(fb, "\"");
    NoQuoteNoCapture(fb, ArrowQuote);
    SplitJoin([left, right], Arrow);
    assert Join([left, right], [Arrow]) == fb;
  }

  /** Without a `"` neither regex matches. */
  lemma NoQuoteNoCapture(fb: string, open: string)
    requires '"' !in fb
    ensures FirstCapture(fb, open, '"').None?
  {
  }

  /**
   * The `"from" → "to"` form: two quoted phrases around an arrow give their
   * contents, provided the left one holds no arrow.
   */
  lemma QuotedFeedback(section: string, index: nat, left: string, right: string)
    requires left != [] && right != []
    requires '"' !in left && '"' !in right && Arrow !in left
    requires forall k :: 0 <= k < |left| ==> !IsLineTerminator(left[k])
    requires forall k :: 0 <= k < |right| ==> !IsLineTerminator(right[k])
    ensures var fb := "\"" + left + "\" " + ArrowQuote + right + "\"";
            Candidate(section, index, fb) == Some(Suggestion(Id(section, index), section, left, right, fb))
  {
    var fb := "\"" + left + "\" " + ArrowQuote + right + "\"";
    QuotedLeft(fb, left, right);
    QuotedRight(fb, left, right);
  }

  lemma QuotedLeft(fb: string, left: string, right: string)
    requires fb == "\"" + left + "\" " + ArrowQuote + right + "\""
    requires '"' !in left
    requires forall k :: 0 <= k < |left| ==> !IsLineTerminator(left[k])
    ensures Quoted(fb) == Some(left)
  {
    var e := |left| + 1;
    assert fb[1..e] == left;
    assert fb[e] == '"';
    assert OccursAt(fb, "\"", 0) by { assert fb[0..1] == "\""; }
    CaptureAt(fb, "\"", '"', 0, e);
  }

  lemma QuotedRight(fb: string, left: string, right: string)
    requires fb == "\"" + left + "\" " + ArrowQuote + right + "\""
    requires '"' !in right && Arrow !in left
    requires forall k :: 0 <= k < |right| ==> !IsLineTerminator(right[k])
    ensures ArrowQuoted(fb) == Some(right)
  {
    var b := |left| + 3;
    var e := b + 3 + |right|;
    assert fb[b..b + 3] == ArrowQuote;
    assert fb[b + 3..e] == right;
    assert fb[e] == '"';
    forall p: nat | p < b
      ensures !OccursAt(fb, ArrowQuote, p)
    {
      assert p + 3 <= |fb| ==> fb[p..p + 3][0] == fb[p];
      if 1 <= p <= |left| {
        assert fb[p] == left[p - 1];
      }
    }
    CaptureAt(fb, ArrowQuote, '"', b, e);
  }

  // ---------------------------------------------------------------------------
  // Ids

  /** A decimal index holds no dash. */
  lemma DecimalHasNoDash(n: nat)
    ensures '-' !in NatToDecimal(n)
  {
  }

  /** In `a + "-" + d` with a dash-free `d`, the dash before `d` is the last one. */
  lemma LastDash(x: string, a: string, d: string)
    requires x == a + "-" + d && '-' !in d
    ensures x[|x| - |d| - 1] == '-'
    ensures forall k :: |x| - |d| <= k < |x| ==> x[k] != '-'
  {
    forall k | |x| - |d| <= k < |x|
      ensures x[k] != '-'
    {
      assert x[k] == d[k - (|x| - |d|)];
    }
  }

  /** An id names its section and index: the last dash separates them. */
  lemma IdInjective(s1: string, i1: nat, s2: string, i2: nat)
    requires Id(s1, i1) == Id(s2, i2)
    ensures s1 == s2 && i1 == i2
  {
    var x := Id(s1, i1);
    var d1, d2 := NatToDecimal(i1), NatToDecimal(i2);
    DecimalHasNoDash(i1);
    DecimalHasNoDash(i2);
    LastDash(x, s1, d1);
    LastDash(x, s2, d2);
    assert |d1| == |d2|;
    assert d1 == x[|x| - |d1|..] == d2;
    NatToDecimalInjective(i1, i2);
    assert s1 == x[..|s1|] == s2;
  }

  /** The same, read the other way: a different section or position gives a different id. */
  lemma IdsDiffer(s1: string, i1: nat, s2: string, i2: nat)
    requires s1 != s2 || i1 != i2
    ensures Id(s1, i1) != Id(s2, i2)
  {
    if Id(s1, i1) == Id(s2, i2) {
      IdInjective(s1, i1, s2, i2);
    }
  }

  // ---------------------------------------------------------------------------
  // The suggestion list

  /** What the `forEach` over one section's feedback considers: one candidate per position. */
  function Candidates(section: string, fbs: seq<string>): (cs: seq<Option<Suggestion>>)
    ensures |cs| == |fbs|
    ensures forall k :: 0 <= k < |fbs| ==> cs[k] == Candidate(section, k, fbs[k])
  {
    seq(|fbs|, k requires 0 <= k < |fbs| => Candidate(section, k, fbs[k]))
  }

  /** The present candidates among the first `n`, in order. */
  function Emitted(cs: seq<Option<Suggestion>>, n: nat): (r: seq<Suggestion>)
    requires n <= |cs|
    ensures |r| <= n
  {
    if n == 0 then []
    else if cs[n - 1].Some? then Emitted(cs, n - 1) + [cs[n - 1].value]
    else Emitted(cs, n - 1)
  }

  /**
   * `mine` is the present candidates among the first `n`, in order: `pos`
   * gives, for each, the strictly increasing position it came from, and
   * every present position is used.
   */
  predicate PresentInOrder(cs: seq<Option<Suggestion>>, n: nat, mine: seq<Suggestion>, pos: seq<nat>)
    requires n <= |cs|
  {
    && |pos| == |mine|
    && (forall p :: 0 <= p < |pos| ==> pos[p] < n && cs[pos[p]] == Some(mine[p]))
    && (forall p, q :: 0 <= p < q < |pos| ==> pos[p] < pos[q])
    && (forall k :: 0 <= k < n && cs[k].Some? ==> k in pos)
  }

  /** Where each of `Emitted(cs, n)` comes from: the positions of the present candidates. */
  function Positions(cs: seq<Option<Suggestion>>, n: nat): seq<nat>
    requires n <= |cs|
  {
    if n == 0 then []
    else if cs[n - 1].Some? then Positions(cs, n - 1) + [n - 1]
    else Positions(cs, n - 1)
  }

  /** So a section's suggestions keep the order of its feedback and miss none. */
  lemma {:induction false} PositionsInOrder(cs: seq<Option<Suggestion>>, n: nat)
    requires n <= |cs|
    ensures PresentInOrder(cs, n, Emitted(cs, n), Positions(cs, n))
  {
    if n > 0 {
      PositionsInOrder(cs, n - 1);
      if cs[n - 1].Some? {
        KeepInOrder(cs, n - 1, Emitted(cs, n - 1), Positions(cs, n - 1));
        assert Emitted(cs, n) == Emitted(cs, n - 1) + [cs[n - 1].value];
      } else {
        SkipInOrder(cs, n - 1, Emitted(cs, n - 1), Positions(cs, n - 1));
        assert Emitted(cs, n) == Emitted(cs, n - 1);
      }
    }
  }

  /** Only present candidates are emitted, and every one of them is. */
  lemma EmittedMembers(cs: seq<Option<Suggestion>>, n: nat)
    requires n <= |cs|
    ensures forall x :: x in Emitted(cs, n) ==> exists k :: 0 <= k < n && cs[k] == Some(x)
    ensures forall k :: 0 <= k < n && cs[k].Some? ==> cs[k].value in Emitted(cs, n)
  {
    var mine, pos := Emitted(cs, n), Positions(cs, n);
    PositionsInOrder(cs, n);
    forall x | x in mine
      ensures exists k :: 0 <= k < n && cs[k] == Some(x)
    {
      var p :| 0 <= p < |mine| && mine[p] == x;
      assert cs[pos[p]] == Some(x);
    }
    forall k | 0 <= k < n && cs[k].Some?
      ensures cs[k].value in mine
    {
      var p :| 0 <= p < |pos| && pos[p] == k;
      assert mine[p] == cs[k].value;
    }
  }

  /** Taking one more present position keeps the order. */
  lemma KeepInOrder(cs: seq<Option<Suggestion>>, n: nat, mine: seq<Suggestion>, pos: seq<nat>)
    requires n < |cs| && cs[n].Some?
    requires PresentInOrder(cs, n, mine, pos)
    ensures PresentInOrder(cs, n + 1, mine + [cs[n].value], pos + [n])
  {
    var mine', pos' := mine + [cs[n].value], pos + [n];
    forall p | 0 <= p < |pos'|
      ensures pos'[p] < n + 1 && cs[pos'[p]] == Some(mine'[p])
    {
      if p < |pos| {
        assert pos'[p] == pos[p] && mine'[p] == mine[p];
      }
    }
    forall p, q | 0 <= p < q < |pos'|
      ensures pos'[p] < pos'[q]
    {
      assert pos'[p] == pos[p];
    }
    forall k | 0 <= k < n + 1 && cs[k].Some?
      ensures k in pos'
    {
      if k < n {
        assert k in pos;
      }
    }
  }

  /** Skipping an absent position keeps the order. */
  lemma SkipInOrder(cs: seq<Option<Suggestion>>, n: nat, mine: seq<Suggestion>, pos: seq<nat>)
    requires n < |cs| && cs[n].None?
    requires PresentInOrder(cs, n, mine, pos)
    ensures PresentInOrder(cs, n + 1, mine, pos)
  {
  }

  /** Each section's candidates, in the order of `Object.entries`. */
  function CandidateTable(entries: seq<(string, seq<string>)>): (table: seq<seq<Option<Suggestion>>>)
    ensures |table| == |entries|
    ensures forall j :: 0 <= j < |entries| ==> table[j] == Candidates(entries[j].0, entries[j].1)
  {
    seq(|entries|, j requires 0 <= j < |entries| => Candidates(entries[j].0, entries[j].1))
  }

  /** The suggestions of the first `m` sections, section by section, each in feedback order. */
  function Flatten(table: seq<seq<Option<Suggestion>>>, m: nat): seq<Suggestion>
    requires m <= |table|
  {
    if m == 0 then [] else Flatten(table, m - 1) + Emitted(table[m - 1], |table[m - 1]|)
  }

  /** Section `a.0` comes before section `b.0`, or it is the same section and position `a.1` comes first. */
  predicate Precedes(a: (nat, nat), b: (nat, nat)) {
    a.0 < b.0 || (a.0 == b.0 && a.1 < b.1)
  }

  /**
   * `all` is the present candidates of the first `m` sections, by section
   * and then by position: `src` gives the (section, position) each came
   * from, strictly increasing, and every present candidate is used.
   */
  predicate SourcedInOrder(table: seq<seq<Option<Suggestion>>>, m: nat, all: seq<Suggestion>, src: seq<(nat, nat)>)
    requires m <= |table|
  {
    && |src| == |all|
    && (forall p :: 0 <= p < |src| ==>
          src[p].0 < m && src[p].1 < |table[src[p].0]| && table[src[p].0][src[p].1] == Some(all[p]))
    && (forall p, q :: 0 <= p < q < |src| ==> Precedes(src[p], src[q]))
    && (forall j, k :: 0 <= j < m && 0 <= k < |table[j]| && table[j][k].Some? ==> (j, k) in src)
  }

  /** Positions within section `j`, as (section, position) pairs. */
  function Tag(j: nat, pos: seq<nat>): (r: seq<(nat, nat)>)
    ensures |r| == |pos|
    ensures forall p :: 0 <= p < |pos| ==> r[p] == (j, pos[p])
  {
    seq(|pos|, p requires 0 <= p < |pos| => (j, pos[p]))
  }

  /** Where each of `Flatten(table, m)` comes from: each section's positions, section after section. */
  function Sources(table: seq<seq<Option<Suggestion>>>, m: nat): seq<(nat, nat)>
    requires m <= |table|
  {
    if m == 0 then [] else Sources(table, m - 1) + Tag(m - 1, Positions(table[m - 1], |table[m - 1]|))
  }

  /** So the flattened list is ordered by section, then by position, and misses nothing. */
  lemma {:induction false} SourcesInOrder(table: seq<seq<Option<Suggestion>>>, m: nat)
    requires m <= |table|
    ensures SourcedInOrder(table, m, Flatten(table, m), Sources(table, m))
  {
    if m > 0 {
      var cs := table[m - 1];
      SourcesInOrder(table, m - 1);
      PositionsInOrder(cs, |cs|);
      AppendSection(table, m - 1, Flatten(table, m - 1), Sources(table, m - 1), Emitted(cs, |cs|), Positions(cs, |cs|));
      assert Flatten(table, m) == Flatten(table, m - 1) + Emitted(cs, |cs|);
    }
  }

  /** The flattened list holds the present candidates of the first `m` sections and nothing else. */
  lemma FlattenMembers(table: seq<seq<Option<Suggestion>>>, m: nat)
    requires m <= |table|
    ensures forall x :: x in Flatten(table, m) ==>
              exists j, k :: 0 <= j < m && 0 <= k < |table[j]| && table[j][k] == Some(x)
    ensures forall j, k :: 0 <= j < m && 0 <= k < |table[j]| && table[j][k].Some? ==> table[j][k].value in Flatten(table, m)
  {
    var all, src := Flatten(table, m), Sources(table, m);
    SourcesInOrder(table, m);
    forall x | x in all
      ensures exists j, k :: 0 <= j < m && 0 <= k < |table[j]| && table[j][k] == Some(x)
    {
      var p :| 0 <= p < |all| && all[p] == x;
      assert table[src[p].0][src[p].1] == Some(x);
    }
    forall j, k | 0 <= j < m && 0 <= k < |table[j]| && table[j][k].Some?
      ensures table[j][k].value in all
    {
      var p :| 0 <= p < |src| && src[p] == (j, k);
      assert all[p] == table[j][k].value;
    }
  }

  /** A further section's candidates, in order, come after all earlier ones. */
  lemma AppendSection(table: seq<seq<Option<Suggestion>>>, m: nat, all: seq<Suggestion>, src: seq<(nat, nat)>,
                      mine: seq<Suggestion>, pos: seq<nat>)
    requires m < |table|
    requires SourcedInOrder(table, m, all, src)
    requires PresentInOrder(table[m], |table[m]|, mine, pos)
    ensures SourcedInOrder(table, m + 1, all + mine, src + Tag(m, pos))
  {
    var all', src' := all + mine, src + Tag(m, pos);
    forall p | 0 <= p < |src'|
      ensures src'[p].0 < m + 1 && src'[p].1 < |table[src'[p].0]| && table[src'[p].0][src'[p].1] == Some(all'[p])
    {
      if p < |src| {
        assert src'[p] == src[p] && all'[p] == all[p];
      } else {
        assert src'[p] == (m, pos[p - |src|]) && all'[p] == mine[p - |src|];
      }
    }
    forall p, q | 0 <= p < q < |src'|
      ensures Precedes(src'[p], src'[q])
    {
      if q < |src| {
        assert src'[p] == src[p] && src'[q] == src[q];
      } else if p < |src| {
        assert src'[p] == src[p];
      } else {
        assert src'[p] == (m, pos[p - |src|]) && src'[q] == (m, pos[q - |src|]);
      }
    }
    forall j, k | 0 <= j < m + 1 && 0 <= k < |table[j]| && table[j][k].Some?
      ensures (j, k) in src'
    {
      if j < m {
        var p :| 0 <= p < |src| && src[p] == (j, k);
        assert src'[p] == (j, k);
      } else {
        var p :| 0 <= p < |pos| && pos[p] == k;
        assert src'[|src| + p] == (j, k);
      }
    }
  }

  /** `allSuggestions`. */
  function AllSuggestions(entries: seq<(string, seq<string>)>): seq<Suggestion> {
    Flatten(CandidateTable(entries), |entries|)
  }

  predicate DistinctSections(entries: seq<(string, seq<string>)>) {
    forall i, j :: 0 <= i < j < |entries| ==> entries[i].0 != entries[j].0
  }

  predicate DistinctIds(r: seq<Suggestion>) {
    forall p, q :: 0 <= p < q < |r| ==> r[p].id != r[q].id
  }

  /** Candidates carry the id of their own section and position. */
  predicate IdsByPosition(cs: seq<Option<Suggestion>>, section: string) {
    forall k :: 0 <= k < |cs| && cs[k].Some? ==> cs[k].value.id == Id(section, k)
  }

  /** Present candidates at distinct positions have distinct ids. */
  lemma {:induction false} EmittedIdsDistinct(cs: seq<Option<Suggestion>>, section: string, n: nat)
    requires n <= |cs|
    requires IdsByPosition(cs, section)
    ensures DistinctIds(Emitted(cs, n))
  {
    if n > 0 {
      EmittedIdsDistinct(cs, section, n - 1);
      EmittedMembers(cs, n - 1);
      if cs[n - 1].Some? {
        var prev := Emitted(cs, n - 1);
        var x := cs[n - 1].value;
        forall y | y in prev
          ensures y.id != x.id
        {
          var k :| 0 <= k < n - 1 && cs[k] == Some(y);
          assert Id(section, k) != Id(section, n - 1);
        }
        DistinctIdsAppend(prev, x);
      }
    }
  }

  lemma DistinctIdsAppend(prev: seq<Suggestion>, x: Suggestion)
    requires DistinctIds(prev)
    requires forall y :: y in prev ==> y.id != x.id
    ensures DistinctIds(prev + [x])
  {
    var r := prev + [x];
    forall p, q | 0 <= p < q < |r|
      ensures r[p].id != r[q].id
    {
      assert r[p] == prev[p];
      if q < |prev| {
        assert r[q] == prev[q];
      }
    }
  }

  /** Sections with distinct names whose candidates are identified by position give distinct ids. */
  lemma {:induction false} FlattenIdsDistinct(table: seq<seq<Option<Suggestion>>>, names: seq<string>, m: nat)
    requires m <= |table| == |names|
    requires forall i, j :: 0 <= i < j < |names| ==> names[i] != names[j]
    requires forall j :: 0 <= j < |table| ==> IdsByPosition(table[j], names[j])
    ensures DistinctIds(Flatten(table, m))
  {
    if m > 0 {
      FlattenIdsDistinct(table, names, m - 1);
      var prev := Flatten(table, m - 1);
      var mine := Emitted(table[m - 1], |table[m - 1]|);
      EmittedIdsDistinct(table[m - 1], names[m - 1], |table[m - 1]|);
      FlattenMembers(table, m - 1);
      EmittedMembers(table[m - 1], |table[m - 1]|);
      forall y, x | y in prev && x in mine
        ensures y.id != x.id
      {
        var j, k :| 0 <= j < m - 1 && 0 <= k < |table[j]| && table[j][k] == Some(y);
        var k' :| 0 <= k' < |table[m - 1]| && table[m - 1][k'] == Some(x);
        IdsDiffer(names[j], k, names[m - 1], k');
      }
      assert Flatten(table, m) == prev + mine;
    }
  }

  /** A candidate's id is its section name and position. */
  lemma CandidateIds(section: string, fbs: seq<string>)
    ensures IdsByPosition(Candidates(section, fbs), section)
  {
  }

  /** With distinct section names (as object keys are), all ids are distinct. */
  lemma AllIdsDistinct(entries: seq<(string, seq<string>)>)
    requires DistinctSections(entries)
    ensures DistinctIds(AllSuggestions(entries))
  {
    var table := CandidateTable(entries);
    var names := seq(|entries|, j requires 0 <= j < |entries| => entries[j].0);
    forall j | 0 <= j < |table|
      ensures IdsByPosition(table[j], names[j])
    {
      CandidateIds(entries[j].0, entries[j].1);
    }
    FlattenIdsDistinct(table, names, |entries|);
  }

  /**
   * The list holds one suggestion for each feedback string whose two sides
   * are non-empty, and nothing else.
   */
  lemma AllSuggestionsExact(entries: seq<(string, seq<string>)>, j: nat, k: nat)
    requires j < |entries| && k < |entries[j].1|
    ensures var (section, fb) := (entries[j].0, entries[j].1[k]);
            FromText(fb) != [] && Filled(ToText(fb)) ==>
              Suggestion(Id(section, k), section, FromText(fb), ToText(fb).value, fb) in AllSuggestions(entries)
  {
    var table := CandidateTable(entries);
    FlattenMembers(table, |entries|);
    assert table[j][k] == Candidate(entries[j].0, k, entries[j].1[k]);
  }

  /** Every listed suggestion comes from some section's feedback at some position. */
  lemma AllSuggestionsSound(entries: seq<(string, seq<string>)>, x: Suggestion)
    requires x in AllSuggestions(entries)
    ensures exists j, k :: 0 <= j < |entries| && 0 <= k < |entries[j].1|
              && Candidate(entries[j].0, k, entries[j].1[k]) == Some(x)
  {
    var table := CandidateTable(entries);
    FlattenMembers(table, |entries|);
    var j, k :| 0 <= j < |entries| && 0 <= k < |table[j]| && table[j][k] == Some(x);
    assert Candidate(entries[j].0, k, entries[j].1[k]) == Some(x);
  }

  /** The suggestion `x` is the one made from the feedback at `at` = (section, position). */
  predicate FromFeedback(entries: seq<(string, seq<string>)>, at: (nat, nat), x: Suggestion) {
    && at.0 < |entries| && at.1 < |entries[at.0].1|
    && Candidate(entries[at.0].0, at.1, entries[at.0].1[at.1]) == Some(x)
  }

  /**
   * The list is ordered by section, then by position within the section:
   * each suggestion comes from the feedback at its (section, position), and
   * a later suggestion comes from a later section, or from a later position
   * of the same section.
   */
  lemma AllSuggestionsOrdered(entries: seq<(string, seq<string>)>)
    ensures var all, src := AllSuggestions(entries), Sources(CandidateTable(entries), |entries|);
            && |src| == |all|
            && (forall p :: 0 <= p < |all| ==> FromFeedback(entries, src[p], all[p]))
            && (forall p, q :: 0 <= p < q < |all| ==> Precedes(src[p], src[q]))
  {
    var table := CandidateTable(entries);
    var all, src := AllSuggestions(entries), Sources(table, |entries|);
    SourcesInOrder(table, |entries|);
    forall p | 0 <= p < |all|
      ensures FromFeedback(entries, src[p], all[p])
    {
      var (j, k) := src[p];
      assert table[j][k] == Candidate(entries[j].0, k, entries[j].1[k]);
    }
  }

  /**
   * The inner `forEach`: keep each present candidate, in order; `pos` is
   * where each kept one stands in `cs`.
   */
  method KeepPresent(cs: seq<Option<Suggestion>>) returns (mine: seq<Suggestion>, pos: seq<nat>)
    ensures PresentInOrder(cs, |cs|, mine, pos)
    ensures mine == Emitted(cs, |cs|)
  {
    mine, pos := [], [];
    var k := 0;
    while k < |cs|
      invariant k <= |cs|
      invariant mine == Emitted(cs, k) && pos == Positions(cs, k)
    {
      if cs[k].Some? {
        mine, pos := mine + [cs[k].value], pos + [k];
      }
      k := k + 1;
    }
    PositionsInOrder(cs, |cs|);
  }

  /** The outer `forEach`: each section's present candidates, section after section. */
  method KeepPresentAll(table: seq<seq<Option<Suggestion>>>) returns (all: seq<Suggestion>, src: seq<(nat, nat)>)
    ensures SourcedInOrder(table, |table|, all, src)
    ensures all == Flatten(table, |table|)
  {
    all, src := [], [];
    var j := 0;
    while j < |table|
      invariant j <= |table|
      invariant SourcedInOrder(table, j, all, src)
      invariant all == Flatten(table, j)
    {
      var mine, pos := KeepPresent(table[j]);
      AppendSection(table, j, all, src, mine, pos);
      all, src := all + mine, src + Tag(j, pos);
      j := j + 1;
    }
  }

  /**
   * The suggestion list, built with the two nested `forEach` loops, with the
   * (section, position) each suggestion came from.
   */
  method CollectSuggestions(entries: seq<(string, seq<string>)>) returns (all: seq<Suggestion>, src: seq<(nat, nat)>)
    ensures all == AllSuggestions(entries)
    ensures |src| == |all|
    ensures forall p :: 0 <= p < |all| ==> FromFeedback(entries, src[p], all[p])
    ensures forall p, q :: 0 <= p < q < |all| ==> Precedes(src[p], src[q])
    ensures DistinctSections(entries) ==> DistinctIds(all)
  {
    var table := CandidateTable(entries);
    all, src := KeepPresentAll(table);
    forall p | 0 <= p < |all|
      ensures FromFeedback(entries, src[p], all[p])
    {
      var (j, k) := src[p];
      assert table[j][k] == Candidate(entries[j].0, k, entries[j].1[k]);
    }
    if DistinctSections(entries) {
      AllIdsDistinct(entries);
    }
  }

  // ---------------------------------------------------------------------------
  // The editor state

  datatype Editor = Editor(text: string, active: Option<Suggestion>, applied: seq<string>)

  function Init(originalText: string): Editor {
    Editor(originalText, None, [])
  }

  /**
   * `applySuggestion`: the first occurrence of `fromText` becomes `toText`
   * (the text is unchanged when there is none), the id is recorded and the
   * highlighted suggestion is cleared.
   */
  function Apply(ed: Editor, s: Suggestion): (r: Editor)
    ensures r.applied == ed.applied + [s.id] && r.active.None?
    ensures (forall j: nat :: !OccursAt(ed.text, s.fromText, j)) ==> r.text == ed.text
    ensures forall i: nat :: IsFirstOccurrence(ed.text, s.fromText, i) ==>
              r.text == ed.text[..i] + s.toText + ed.text[i + |s.fromText|..]
  {
    var t := ReplaceFirst(ed.text, s.fromText, s.toText);
    forall i: nat | IsFirstOccurrence(ed.text, s.fromText, i)
      ensures t == ed.text[..i] + s.toText + ed.text[i + |s.fromText|..]
    {
      assert t == t[..i] + t[i..i + |s.toText|] + t[i + |s.toText|..];
    }
    Editor(t, None, ed.applied + [s.id])
  }

  /** The Show/Hide button: hides `s` when it is the highlighted one, otherwise highlights it. */
  function Toggle(ed: Editor, s: Suggestion): (r: Editor)
    ensures r.text == ed.text && r.applied == ed.applied
    ensures r.active.Some? <==> !(ed.active.Some? && ed.active.value.id == s.id)
    ensures r.active.Some? ==> r.active.value == s
  {
    if ed.active.Some? && ed.active.value.id == s.id then ed.(active := None)
    else ed.(active := Some(s))
  }

  datatype Event = EditText(t: string) | ClickApply(s: Suggestion) | ClickToggle(s: Suggestion)

  /**
   * One user action. The two buttons exist only for listed suggestions that
   * are not applied yet; a click on anything else does nothing.
   */
  function Step(ed: Editor, listed: seq<Suggestion>, ev: Event): (r: Editor)
    ensures !ev.ClickApply? ==> r.applied == ed.applied
    ensures ev.ClickApply? ==>
              if ev.s in listed && ev.s.id !in ed.applied then r.applied == ed.applied + [ev.s.id] && r.active.None?
              else r == ed
    ensures ev.EditText? ==> r.text == ev.t && r.active == ed.active
    ensures ev.ClickToggle? ==> r.text == ed.text
  {
    match ev
    case EditText(t) => ed.(text := t)
    case ClickApply(s) => if s in listed && s.id !in ed.applied then Apply(ed, s) else ed
    case ClickToggle(s) => if s in listed && s.id !in ed.applied then Toggle(ed, s) else ed
  }

  /**
   * A sequence of actions. The applied list only grows, by at most one id
   * per action, and every id it gains is a listed suggestion's.
   */
  function Run(ed: Editor, listed: seq<Suggestion>, evs: seq<Event>): (r: Editor)
    ensures |ed.applied| <= |r.applied| <= |ed.applied| + |evs|
    ensures r.applied[..|ed.applied|] == ed.applied
    ensures forall p :: |ed.applied| <= p < |r.applied| ==> IsListedId(listed, r.applied[p])
    decreases |evs|
  {
    if |evs| == 0 then ed
    else
      var next := Step(ed, listed, evs[0]);
      var r := Run(next, listed, evs[1..]);
      assert next.applied[..|ed.applied|] == ed.applied;
      assert r.applied[..|ed.applied|] == r.applied[..|next.applied|][..|ed.applied|];
      assert forall p :: |ed.applied| <= p < |r.applied| ==> IsListedId(listed, r.applied[p]) by {
        forall p | |ed.applied| <= p < |next.applied|
          ensures IsListedId(listed, r.applied[p])
        {
          assert r.applied[p] == r.applied[..|next.applied|][p] == next.applied[p] == evs[0].s.id;
        }
      }
      r
  }

  /** Some listed suggestion has this id. */
  predicate IsListedId(listed: seq<Suggestion>, id: string) {
    exists s :: s in listed && s.id == id
  }

  /** Every applied id belongs to a listed suggestion, and none is recorded twice. */
  predicate AppliedOk(ed: Editor, listed: seq<Suggestion>) {
    && (forall p, q :: 0 <= p < q < |ed.applied| ==> ed.applied[p] != ed.applied[q])
    && (forall p :: 0 <= p < |ed.applied| ==> IsListedId(listed, ed.applied[p]))
  }

  /** Through the buttons each suggestion is applied at most once. */
  lemma {:induction false} ButtonsApplyOnce(ed: Editor, listed: seq<Suggestion>, evs: seq<Event>)
    requires AppliedOk(ed, listed)
    ensures AppliedOk(Run(ed, listed, evs), listed)
    decreases |evs|
  {
    if |evs| > 0 {
      var next := Step(ed, listed, evs[0]);
      if evs[0].ClickApply? && evs[0].s in listed && evs[0].s.id !in ed.applied {
        assert next == Apply(ed, evs[0].s);
        RecordKeepsOk(ed, listed, evs[0].s, next);
      } else {
        SameAppliedOk(ed, listed, next);
      }
      ButtonsApplyOnce(next, listed, evs[1..]);
    }
  }

  /** Any other step leaves the applied list as it was. */
  lemma SameAppliedOk(ed: Editor, listed: seq<Suggestion>, next: Editor)
    requires AppliedOk(ed, listed)
    requires next.applied == ed.applied
    ensures AppliedOk(next, listed)
  {
  }

  /** Recording the id of a listed suggestion not applied yet keeps the applied list sound. */
  lemma RecordKeepsOk(ed: Editor, listed: seq<Suggestion>, s: Suggestion, next: Editor)
    requires AppliedOk(ed, listed)
    requires s in listed && s.id !in ed.applied
    requires next.applied == ed.applied + [s.id]
    ensures AppliedOk(next, listed)
  {
    var a := next.applied;
    forall p, q | 0 <= p < q < |a|
      ensures a[p] != a[q]
    {
      assert a[p] == ed.applied[p];
      if q < |ed.applied| {
        assert a[q] == ed.applied[q];
      }
    }
    forall p | 0 <= p < |a|
      ensures IsListedId(listed, a[p])
    {
      if p == |ed.applied| {
        assert s in listed && s.id == a[p];
      } else {
        assert a[p] == ed.applied[p];
      }
    }
  }

  /** The editor as the user first sees it satisfies that, so every run from it does. */
  lemma EditorRunsApplyOnce(originalText: string, entries: seq<(string, seq<string>)>, evs: seq<Event>)
    ensures AppliedOk(Run(Init(originalText), AllSuggestions(entries), evs), AllSuggestions(entries))
  {
    ButtonsApplyOnce(Init(originalText), AllSuggestions(entries), evs);
  }

  /** Calling `applySuggestion` itself twice records the id twice: only the hidden button prevents it. */
  lemma DirectApplyTwice(ed: Editor, s: Suggestion)
    ensures Apply(Apply(ed, s), s).applied == ed.applied + [s.id, s.id]
  {
  }
}
