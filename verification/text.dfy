/**
 * String primitives the application relies on, modelled on `seq<char>`:
 * JavaScript's whitespace class and `trim`, `substring(0, n)`, `split` on a
 * single character, `join`, the first-occurrence `replace`, the `\s+` to
 * single-space collapse, and decimal rendering of array indices.
 */
module Text {
  import opened Wrappers

  /** The characters a JavaScript `.` does not match (ECMAScript LineTerminator). */
  predicate IsLineTerminator(c: char) {
    c == '\n' || c == '\r' || c == '\U{2028}' || c == '\U{2029}'
  }

  /** JavaScript's `\s` class, which is also what `String.prototype.trim` strips. */
  predicate IsSpace(c: char) {
    || IsLineTerminator(c)
    || c == ' ' || c == '\t' || c == '\U{000B}' || c == '\U{000C}'
    || c == '\U{00A0}' || c == '\U{1680}' || ('\U{2000}' <= c <= '\U{200A}')
    || c == '\U{202F}' || c == '\U{205F}' || c == '\U{3000}' || c == '\U{FEFF}'
  }

  predicate IsDigit(c: char) {
    '0' <= c <= '9'
  }

  predicate AllDigits(s: string) {
    forall i :: 0 <= i < |s| ==> IsDigit(s[i])
  }

  function Min(a: nat, b: nat): nat {
    if a <= b then a else b
  }

  /** `s.substring(0, n)`: the first `n` characters, or all of `s` when it is shorter. */
  function Take(s: string, n: nat): (r: string)
    ensures |r| == Min(|s|, n)
    ensures r == s[..|r|]
  {
    if |s| <= n then s else s[..n]
  }

  /** The number of occurrences of `c` in `s`. */
  function Count(s: string, c: char): nat {
    if |s| == 0 then 0 else (if s[0] == c then 1 else 0) + Count(s[1..], c)
  }

  lemma CountAppend(a: string, b: string, c: char)
    ensures Count(a + b, c) == Count(a, c) + Count(b, c)
  {
    if |a| > 0 {
      assert (a + b)[0] == a[0];
      assert (a + b)[1..] == a[1..] + b;
      CountAppend(a[1..], b, c);
    } else {
      assert a + b == b;
    }
  }

  lemma CountAbsent(s: string, c: char)
    requires c !in s
    ensures Count(s, c) == 0
  {
    if |s| > 0 {
      assert c !in s[1..];
    }
  }

  /** The index of the first `c` in `s`, if any. */
  function IndexOf(s: string, c: char): (r: Option<nat>)
    ensures r.None? <==> c !in s
    ensures r.Some? ==> r.value < |s| && s[r.value] == c && forall j :: 0 <= j < r.value ==> s[j] != c
  {
    if |s| == 0 then None
    else if s[0] == c then Some(0)
    else match IndexOf(s[1..], c)
      case None => None
      case Some(i) => Some(i + 1)
  }

  /** `s.indexOf(c, k)`: the first position at or after `k` holding `c`. */
  function IndexFrom(s: string, c: char, k: nat): (r: Option<nat>)
    requires k <= |s|
    ensures r.None? <==> forall j :: k <= j < |s| ==> s[j] != c
    ensures r.Some? ==> k <= r.value < |s| && s[r.value] == c && forall j :: k <= j < r.value ==> s[j] != c
    decreases |s| - k
  {
    if k == |s| then None
    else if s[k] == c then Some(k)
    else IndexFrom(s, c, k + 1)
  }

  /** The leading run of whitespace removed (`trimStart`). */
  function DropSpaces(s: string): (r: string)
    ensures |r| <= |s| && r == s[|s| - |r|..]
    ensures |r| == 0 || !IsSpace(r[0])
    ensures forall i :: 0 <= i < |s| - |r| ==> IsSpace(s[i])
  {
    if |s| > 0 && IsSpace(s[0]) then DropSpaces(s[1..]) else s
  }

  /** The first position at or after `i` that is not whitespace (what a greedy `\s*` consumes). */
  function SpacesEnd(s: string, i: nat): (j: nat)
    requires i <= |s|
    ensures i <= j <= |s|
    ensures forall k :: i <= k < j ==> IsSpace(s[k])
    ensures j == |s| || !IsSpace(s[j])
    decreases |s| - i
  {
    if i < |s| && IsSpace(s[i]) then SpacesEnd(s, i + 1) else i
  }

  /** The start of the run of whitespace that ends at `j`, going back no further than `i`. */
  function SpacesStart(s: string, i: nat, j: nat): (k: nat)
    requires i <= j <= |s|
    ensures i <= k <= j
    ensures forall m :: k <= m < j ==> IsSpace(s[m])
    ensures k == i || !IsSpace(s[k - 1])
    decreases j - i
  {
    if i < j && IsSpace(s[j - 1]) then SpacesStart(s, i, j - 1) else j
  }

  /** `r` is `s[i..i + |r|]` and everything of `s` around it is whitespace. */
  predicate SpaceBoundedSlice(s: string, r: string, i: nat) {
    && i + |r| <= |s| && r == s[i..i + |r|]
    && (forall k :: 0 <= k < i ==> IsSpace(s[k]))
    && (forall k :: i + |r| <= k < |s| ==> IsSpace(s[k]))
  }

  /** Neither starts nor ends with whitespace. */
  predicate TrimmedEnds(r: string) {
    |r| == 0 || (!IsSpace(r[0]) && !IsSpace(r[|r| - 1]))
  }

  /** `s.trim()`: the slice of `s` between its leading and trailing whitespace. */
  function Trim(s: string): (r: string)
    ensures exists i: nat :: SpaceBoundedSlice(s, r, i)
    ensures TrimmedEnds(r)
  {
    var i := SpacesEnd(s, 0);
    var j := SpacesStart(s, i, |s|);
    assert SpaceBoundedSlice(s, s[i..j], i);
    s[i..j]
  }

  /** A whitespace-bounded slice that neither starts nor ends with whitespace is the trimmed text. */
  lemma TrimUnique(s: string, r: string, i: nat)
    requires SpaceBoundedSlice(s, r, i) && TrimmedEnds(r)
    ensures r == Trim(s)
  {
    var t := Trim(s);
    var j: nat :| SpaceBoundedSlice(s, t, j);
    if |r| > 0 && |t| > 0 {
      assert s[i] == r[0] && s[j] == t[0];
      assert i == j;
      assert s[i + |r| - 1] == r[|r| - 1] && s[j + |t| - 1] == t[|t| - 1];
      assert |r| == |t|;
    }
  }

  /** Trimming keeps a character out if it was out. */
  lemma TrimAvoids(s: string, c: char)
    requires c !in s
    ensures c !in Trim(s)
  {
    var r := Trim(s);
    var i: nat :| SpaceBoundedSlice(s, r, i);
    forall k | 0 <= k < |r|
      ensures r[k] != c
    {
      assert r[k] == s[i + k];
    }
  }

  /** Whitespace occurs only as single spaces, never two in a row. */
  ghost predicate SingleSpaced(s: string) {
    && (forall i :: 0 <= i < |s| && IsSpace(s[i]) ==> s[i] == ' ')
    && (forall i, j {:trigger s[i], s[j]} :: 0 <= i && j == i + 1 && j < |s| && s[i] == ' ' ==> s[j] != ' ')
  }

  /**
   * `s.replace(/\s+/g, ' ')`: every maximal run of whitespace becomes one space.
   */
  function Collapse(s: string): (r: string)
    ensures |r| == 0 <==> |s| == 0
    ensures |s| > 0 && !IsSpace(s[0]) ==> r[0] == s[0]
    ensures |s| > 0 && IsSpace(s[0]) ==> r[0] == ' '
    ensures SingleSpaced(r)
    decreases |s|
  {
    if |s| == 0 then []
    else if IsSpace(s[0]) then [' '] + Collapse(DropSpaces(s))
    else [s[0]] + Collapse(s[1..])
  }

  /** `a` is empty or ends with a non-whitespace character: a cut after it splits no run. */
  predicate CutAfterVisible(a: string) {
    |a| == 0 || !IsSpace(a[|a| - 1])
  }

  /** A whitespace run that starts `a` ends inside it, so appending text leaves it alone. */
  lemma {:induction false} DropSpacesAppend(a: string, t: string)
    requires |a| > 0 && CutAfterVisible(a)
    ensures DropSpaces(a + t) == DropSpaces(a) + t
    ensures |DropSpaces(a)| > 0 && CutAfterVisible(DropSpaces(a))
    decreases |a|
  {
    if IsSpace(a[0]) {
      assert (a + t)[1..] == a[1..] + t;
      DropSpacesAppend(a[1..], t);
    }
  }

  /** A run of whitespace followed by a visible character (or nothing) is dropped entirely. */
  lemma {:induction false} DropSpacesRun(w: string, b: string)
    requires forall i :: 0 <= i < |w| ==> IsSpace(w[i])
    requires |b| == 0 || !IsSpace(b[0])
    ensures DropSpaces(w + b) == b
    decreases |w|
  {
    if |w| > 0 {
      assert (w + b)[1..] == w[1..] + b;
      DropSpacesRun(w[1..], b);
    } else {
      assert w + b == b;
    }
  }

  /** One step of `Collapse` on text that starts with whitespace. */
  lemma CollapseSpaceHead(s: string)
    requires |s| > 0 && IsSpace(s[0])
    ensures Collapse(s) == [' '] + Collapse(DropSpaces(s))
  {
  }

  /** One step of `Collapse` on text that starts with a visible character. */
  lemma CollapseVisibleHead(s: string)
    requires |s| > 0 && !IsSpace(s[0])
    ensures Collapse(s) == [s[0]] + Collapse(s[1..])
  {
  }

  /** Collapsing text cut just after a visible character collapses the two parts separately. */
  lemma {:induction false} CollapseAppend(a: string, t: string)
    requires CutAfterVisible(a)
    ensures Collapse(a + t) == Collapse(a) + Collapse(t)
    decreases |a|
  {
    if |a| == 0 {
      assert a + t == t;
    } else if IsSpace(a[0]) {
      DropSpacesAppend(a, t);
      CollapseAppend(DropSpaces(a), t);
      CollapseAppendSpaceStep(a, t);
    } else {
      CollapseAppend(a[1..], t);
      CollapseAppendVisibleStep(a, t);
    }
  }

  /** The step of `CollapseAppend` past a leading whitespace run. */
  lemma CollapseAppendSpaceStep(a: string, t: string)
    requires |a| > 0 && IsSpace(a[0])
    requires DropSpaces(a + t) == DropSpaces(a) + t
    requires Collapse(DropSpaces(a) + t) == Collapse(DropSpaces(a)) + Collapse(t)
    ensures Collapse(a + t) == Collapse(a) + Collapse(t)
  {
    CollapseSpaceHead(a + t);
    CollapseSpaceHead(a);
    PrependAppend([' '], Collapse(a + t), Collapse(a), Collapse(DropSpaces(a) + t), Collapse(DropSpaces(a)), Collapse(t));
  }

  /** The step of `CollapseAppend` past a leading visible character. */
  lemma CollapseAppendVisibleStep(a: string, t: string)
    requires |a| > 0 && !IsSpace(a[0])
    requires Collapse(a[1..] + t) == Collapse(a[1..]) + Collapse(t)
    ensures Collapse(a + t) == Collapse(a) + Collapse(t)
  {
    TailOfAppend(a, t);
    CollapseVisibleHead(a + t);
    CollapseVisibleHead(a);
    PrependAppend([a[0]], Collapse(a + t), Collapse(a), Collapse(a[1..] + t), Collapse(a[1..]), Collapse(t));
  }

  lemma TailOfAppend(a: string, t: string)
    requires |a| > 0
    ensures (a + t)[0] == a[0] && (a + t)[1..] == a[1..] + t
  {
  }

  /** If `p` is `h` before `q`, `x` is `h` before `y`, and `q` is `y` before `z`, then `p` is `x` before `z`. */
  lemma PrependAppend(h: string, p: string, x: string, q: string, y: string, z: string)
    requires p == h + q && x == h + y && q == y + z
    ensures p == x + z
  {
  }

  /**
   * A maximal whitespace run, however long and wherever it stands, becomes
   * exactly one space, and the text on either side collapses on its own.
   */
  lemma CollapseRun(a: string, w: string, b: string)
    requires CutAfterVisible(a)
    requires |w| > 0 && forall i :: 0 <= i < |w| ==> IsSpace(w[i])
    requires |b| == 0 || !IsSpace(b[0])
    ensures Collapse(a + w + b) == Collapse(a) + " " + Collapse(b)
  {
    var wb := w + b;
    AppendAssoc(a, w, b);
    CollapseAppend(a, wb);
    CollapseOfRun(w, b);
    SpaceBetween(Collapse(a + wb), Collapse(a), Collapse(wb), Collapse(b));
  }

  /** A whitespace run at the front collapses to one space. */
  lemma CollapseOfRun(w: string, b: string)
    requires |w| > 0 && forall i :: 0 <= i < |w| ==> IsSpace(w[i])
    requires |b| == 0 || !IsSpace(b[0])
    ensures Collapse(w + b) == [' '] + Collapse(b)
  {
    DropSpacesRun(w, b);
    CollapseSpaceHead(w + b);
  }

  lemma AppendAssoc(a: string, w: string, b: string)
    ensures a + w + b == a + (w + b)
  {
  }

  lemma SpaceBetween(p: string, x: string, q: string, y: string)
    requires p == x + q && q == [' '] + y
    ensures p == x + " " + y
  {
  }

  /** The non-whitespace characters of `s`, in order. */
  function Visible(s: string): string {
    if |s| == 0 then []
    else if IsSpace(s[0]) then Visible(s[1..])
    else [s[0]] + Visible(s[1..])
  }

  lemma VisibleOfSpaces(s: string, n: nat)
    requires n <= |s|
    requires forall i :: 0 <= i < n ==> IsSpace(s[i])
    ensures Visible(s) == Visible(s[n..])
  {
    if n > 0 {
      VisibleOfSpaces(s[1..], n - 1);
      assert s[1..][n - 1..] == s[n..];
    }
  }

  /** Collapsing whitespace keeps every other character, in order. */
  lemma {:induction false} CollapseKeepsVisible(s: string)
    ensures Visible(Collapse(s)) == Visible(s)
    decreases |s|
  {
    if |s| == 0 {
    } else if IsSpace(s[0]) {
      var d := DropSpaces(s);
      CollapseKeepsVisible(d);
      VisibleOfSpaces(s, |s| - |d|);
      assert s[|s| - |d|..] == d;
      assert ([' '] + Collapse(d))[1..] == Collapse(d);
    } else {
      CollapseKeepsVisible(s[1..]);
      assert ([s[0]] + Collapse(s[1..]))[1..] == Collapse(s[1..]);
    }
  }

  lemma VisibleMembership(s: string, c: char)
    requires !IsSpace(c)
    ensures c in Visible(s) <==> c in s
  {
    if |s| > 0 {
      VisibleMembership(s[1..], c);
      assert s == [s[0]] + s[1..];
    }
  }

  /** A non-whitespace character occurs in the collapsed text iff it occurs in the text. */
  lemma CollapseMembership(s: string, c: char)
    requires !IsSpace(c)
    ensures c in Collapse(s) <==> c in s
  {
    CollapseKeepsVisible(s);
    VisibleMembership(s, c);
    VisibleMembership(Collapse(s), c);
  }

  /** Collapsed text has no line terminator, so a regex `.` matches every character of it. */
  lemma CollapseHasNoLineTerminator(s: string)
    ensures forall i :: 0 <= i < |Collapse(s)| ==> !IsLineTerminator(Collapse(s)[i])
  {
  }

  /** Text that already has single spaces only is left alone, so collapsing is idempotent. */
  lemma {:induction false} CollapseFixpoint(s: string)
    requires SingleSpaced(s)
    ensures Collapse(s) == s
    decreases |s|
  {
    if |s| > 0 {
      SingleSpacedTail(s);
      CollapseFixpoint(s[1..]);
      if IsSpace(s[0]) {
        LoneSpace(s);
        assert Collapse(s) == [' '] + s[1..];
      } else {
        assert Collapse(s) == [s[0]] + s[1..];
      }
      assert s == [s[0]] + s[1..];
    }
  }

  /** In single-spaced text a leading space is the whole whitespace run. */
  lemma LoneSpace(s: string)
    requires SingleSpaced(s)
    requires |s| > 0 && IsSpace(s[0])
    ensures s[0] == ' ' && DropSpaces(s) == s[1..]
  {
    if |s| > 1 {
      assert s[0] == ' ' && s[1] != ' ';
      assert s[1..][0] == s[1];
    }
  }

  lemma SingleSpacedTail(s: string)
    requires |s| > 0 && SingleSpaced(s)
    ensures SingleSpaced(s[1..])
  {
    var t := s[1..];
    forall i, j | 0 <= i && j == i + 1 && j < |t| && t[i] == ' '
      ensures t[j] != ' '
    {
      assert s[i + 1] == t[i] && s[j + 1] == t[j];
    }
  }

  lemma CollapseIdempotent(s: string)
    ensures Collapse(Collapse(s)) == Collapse(s)
  {
    CollapseFixpoint(Collapse(s));
  }

  /** `parts.join(sep)`. */
  function Join(parts: seq<string>, sep: string): string
    decreases |parts|
  {
    if |parts| == 0 then []
    else if |parts| == 1 then parts[0]
    else parts[0] + sep + Join(parts[1..], sep)
  }

  /**
   * `s.split(c)` for a one-character separator: the pieces between
   * consecutive occurrences of `c`, always at least one.
   */
  function SplitOn(s: string, c: char): (parts: seq<string>)
    ensures |parts| == Count(s, c) + 1
    ensures forall k :: 0 <= k < |parts| ==> c !in parts[k]
    ensures Join(parts, [c]) == s
    decreases |s|
  {
    match IndexOf(s, c)
    case None =>
      CountAbsent(s, c);
      [s]
    case Some(i) =>
      var rest := SplitOn(s[i + 1..], c);
      assert s == s[..i] + [c] + s[i + 1..];
      CountAppend(s[..i] + [c], s[i + 1..], c);
      CountAppend(s[..i], [c], c);
      CountAbsent(s[..i], c);
      assert ([s[..i]] + rest)[1..] == rest;
      [s[..i]] + rest
  }

  /** Splitting undoes joining: the pieces are the only separator-free ones that join to `s`. */
  lemma {:induction false} SplitJoin(parts: seq<string>, c: char)
    requires |parts| >= 1
    requires forall k :: 0 <= k < |parts| ==> c !in parts[k]
    ensures SplitOn(Join(parts, [c]), c) == parts
    decreases |parts|
  {
    if |parts| > 1 {
      var s := Join(parts, [c]);
      var tail := Join(parts[1..], [c]);
      var i := |parts[0]|;
      assert s == parts[0] + [c] + tail;
      IndexOfFirst(parts[0], c, tail);
      assert s[..i] == parts[0];
      assert s[i + 1..] == tail;
      assert SplitOn(s, c) == [parts[0]] + SplitOn(tail, c);
      SplitJoin(parts[1..], c);
      assert parts == [parts[0]] + parts[1..];
    } else {
      assert IndexOf(parts[0], c) == None;
    }
  }

  /** The first `c` of `a + [c] + b`, when `a` has none, is the one after `a`. */
  lemma {:induction false} IndexOfFirst(a: string, c: char, b: string)
    requires c !in a
    ensures IndexOf(a + [c] + b, c) == Some(|a|)
    decreases |a|
  {
    if |a| > 0 {
      IndexOfFirst(a[1..], c, b);
      assert (a + [c] + b)[1..] == a[1..] + [c] + b;
    }
  }

  /** The text before the first `c`, or all of `s` when there is none. */
  function Before(s: string, c: char): (r: string)
    ensures |r| <= |s| && r == s[..|r|] && c !in r
    ensures |r| < |s| ==> s[|r|] == c
  {
    match IndexOf(s, c)
    case None => s
    case Some(i) => s[..i]
  }

  /**
   * The first piece of `s.split(c)` is the text before the first `c`; when
   * there is a `c`, the second piece is the text between it and the next one.
   */
  lemma SplitPieces(s: string, c: char)
    ensures SplitOn(s, c)[0] == Before(s, c)
    ensures |SplitOn(s, c)| > 1 <==> c in s
    ensures c in s ==> SplitOn(s, c)[1] == Before(s[|Before(s, c)| + 1..], c)
  {
    if c in s {
      var i := IndexOf(s, c).value;
      assert SplitOn(s, c) == [s[..i]] + SplitOn(s[i + 1..], c);
    } else {
      CountAbsent(s, c);
    }
  }

  /** `s` holds `pat` starting at index `i`. */
  predicate OccursAt(s: string, pat: string, i: nat) {
    i + |pat| <= |s| && s[i..i + |pat|] == pat
  }

  /** `i` is where the first occurrence of `pat` in `s` starts. */
  predicate IsFirstOccurrence(s: string, pat: string, i: nat) {
    OccursAt(s, pat, i) && forall j: nat :: j < i ==> !OccursAt(s, pat, j)
  }

  /** `s.indexOf(pat, from)`, as an option. */
  function FindFrom(s: string, pat: string, from: nat): (r: Option<nat>)
    ensures r.Some? ==> from <= r.value && OccursAt(s, pat, r.value)
                        && forall j: nat :: from <= j < r.value ==> !OccursAt(s, pat, j)
    ensures r.None? ==> forall j: nat :: from <= j ==> !OccursAt(s, pat, j)
    decreases |s| - from
  {
    if from + |pat| > |s| then None
    else if s[from..from + |pat|] == pat then Some(from)
    else FindFrom(s, pat, from + 1)
  }

  /**
   * `s.replace(pat, rep)` with a string pattern: only the first occurrence of
   * `pat` is replaced, and `s` is returned unchanged when `pat` does not occur.
   */
  function ReplaceFirst(s: string, pat: string, rep: string): (r: string)
    ensures (forall j: nat :: !OccursAt(s, pat, j)) ==> r == s
    ensures forall i: nat :: IsFirstOccurrence(s, pat, i) ==>
              |r| == |s| - |pat| + |rep| && r[..i] == s[..i] && r[i..i + |rep|] == rep && r[i + |rep|..] == s[i + |pat|..]
  {
    match FindFrom(s, pat, 0)
    case None => s
    case Some(i) =>
      assert forall k: nat :: IsFirstOccurrence(s, pat, k) ==> k == i by {
        forall k: nat | IsFirstOccurrence(s, pat, k)
          ensures k == i
        {
        }
      }
      s[..i] + rep + s[i + |pat|..]
  }

  function DigitChar(d: nat): (c: char)
    requires d < 10
    ensures IsDigit(c)
  {
    ('0' as int + d) as char
  }

  function DigitValue(c: char): (d: nat)
    requires IsDigit(c)
    ensures d < 10
  {
    (c as int) - ('0' as int)
  }

  /** The number a string of decimal digits denotes. */
  function DecimalValue(s: string): nat
    requires AllDigits(s)
    decreases |s|
  {
    if |s| == 0 then 0 else 10 * DecimalValue(s[..|s| - 1]) + DigitValue(s[|s| - 1])
  }

  /** `String(n)` for a natural number: its shortest decimal rendering. */
  function NatToDecimal(n: nat): (r: string)
    ensures |r| >= 1 && AllDigits(r)
    ensures DecimalValue(r) == n
    ensures |r| > 1 ==> r[0] != '0'
    decreases n
  {
    if n < 10 then [DigitChar(n)]
    else
      var prefix := NatToDecimal(n / 10);
      var r := prefix + [DigitChar(n % 10)];
      assert r[..|r| - 1] == prefix;
      r
  }

  /** Distinct numbers render differently. */
  lemma NatToDecimalInjective(a: nat, b: nat)
    requires NatToDecimal(a) == NatToDecimal(b)
    ensures a == b
  {
  }
}
