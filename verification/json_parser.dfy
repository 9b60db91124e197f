/**
 * `JSON.parse` (RFC 8259) as a partial function on text: a recursive-descent
 * parser over character positions. Objects are built member by member with
 * `Json.Put`, so a repeated name keeps its first position and its last value,
 * as `JSON.parse` does.
 */
module JsonParser {
  import opened Wrappers
  import opened Text
  import opened Json

  /** The four whitespace characters RFC 8259 allows between tokens. */
  predicate IsJsonSpace(c: char) {
    c == ' ' || c == '\t' || c == '\n' || c == '\r'
  }

  function SkipWs(s: string, i: nat): (j: nat)
    requires i <= |s|
    ensures i <= j <= |s|
    ensures forall k :: i <= k < j ==> IsJsonSpace(s[k])
    ensures j == |s| || !IsJsonSpace(s[j])
    decreases |s| - i
  {
    if i < |s| && IsJsonSpace(s[i]) then SkipWs(s, i + 1) else i
  }

  /** `s` holds the word `w` at position `i`. */
  predicate HasWordAt(s: string, i: nat, w: string) {
    i + |w| <= |s| && s[i..i + |w|] == w
  }

  /** The end of the run of decimal digits starting at `i`. */
  function DigitsEnd(s: string, i: nat): (j: nat)
    requires i <= |s|
    ensures i <= j <= |s|
    ensures AllDigits(s[i..j])
    ensures j == |s| || !IsDigit(s[j])
    decreases |s| - i
  {
    if i < |s| && IsDigit(s[i]) then DigitsEnd(s, i + 1) else i
  }

  function Pow10(n: nat): (r: nat)
    ensures r >= 1
  {
    if n == 0 then 1 else 10 * Pow10(n - 1)
  }

  function HexValue(c: char): (r: Option<nat>)
    ensures r.Some? ==> r.value < 16
  {
    if '0' <= c <= '9' then Some((c as int) - ('0' as int))
    else if 'a' <= c <= 'f' then Some((c as int) - ('a' as int) + 10)
    else if 'A' <= c <= 'F' then Some((c as int) - ('A' as int) + 10)
    else None
  }

  /** The code unit of four hexadecimal digits at `i`. */
  function Hex4(s: string, i: nat): (r: Option<nat>)
    ensures r.Some? ==> i + 4 <= |s| && r.value < 0x1_0000
  {
    if i + 4 > |s| then None
    else
      var a :- HexValue(s[i]);
      var b :- HexValue(s[i + 1]);
      var c :- HexValue(s[i + 2]);
      var d :- HexValue(s[i + 3]);
      Some(((a * 16 + b) * 16 + c) * 16 + d)
  }

  /** The character an escape denotes; `i` is just after the backslash. */
  function Unescape(s: string, i: nat): (r: Option<(char, nat)>)
    requires i < |s|
    ensures r.Some? ==> i < r.value.1 <= |s|
  {
    var c := s[i];
    if c == '"' then Some(('"', i + 1))
    else if c == '\\' then Some(('\\', i + 1))
    else if c == '/' then Some(('/', i + 1))
    else if c == 'b' then Some(('\U{0008}', i + 1))
    else if c == 'f' then Some(('\U{000C}', i + 1))
    else if c == 'n' then Some(('\n', i + 1))
    else if c == 'r' then Some(('\r', i + 1))
    else if c == 't' then Some(('\t', i + 1))
    else if c == 'u' then
      UnicodeEscape(s, i + 1)
    else None
  }

  /**
   * The character of a `\u` escape whose hex digits start at `i`: a code
   * unit outside the surrogate range as it is, or a leading surrogate half
   * together with the trailing-half escape right after it.
   */
  function UnicodeEscape(s: string, i: nat): (r: Option<(char, nat)>)
    ensures r.Some? ==> i + 4 <= r.value.1 <= |s|
  {
    match Hex4(s, i)
    case None => None
    case Some(code) =>
      if code < 0xD800 || 0xE000 <= code < 0x11_0000 then Some((code as char, i + 4))
      else if code < 0xDC00 then
        match LowSurrogateAt(s, i + 4)
        case None => None
        case Some(low) => Some((Combine(code, low) as char, i + 10))
      else None
  }

  /** A `\uDC00`–`\uDFFF` escape at `i`: the trailing half of a surrogate pair. */
  function LowSurrogateAt(s: string, i: nat): (r: Option<nat>)
    ensures r.Some? ==> i + 6 <= |s| && 0xDC00 <= r.value < 0xE000
  {
    if i + 6 <= |s| && s[i] == '\\' && s[i + 1] == 'u' then
      match Hex4(s, i + 2)
      case Some(low) => if 0xDC00 <= low < 0xE000 then Some(low) else None
      case None => None
    else None
  }

  /** The code point a surrogate pair stands for, as UTF-16 defines it. */
  function Combine(high: nat, low: nat): (r: nat)
    requires 0xD800 <= high < 0xDC00 && 0xDC00 <= low < 0xE000
    ensures 0x1_0000 <= r < 0x11_0000
    ensures (r - 0x1_0000) / 0x400 == high - 0xD800 && (r - 0x1_0000) % 0x400 == low - 0xDC00
  {
    0x1_0000 + (high - 0xD800) * 0x400 + (low - 0xDC00)
  }

  /** The escapes of a surrogate pair decode to the one character they encode together. */
  lemma SurrogatePairDecodes(s: string, i: nat, high: nat, low: nat)
    requires i < |s| && s[i] == 'u'
    requires Hex4(s, i + 1) == Some(high) && 0xD800 <= high < 0xDC00
    requires LowSurrogateAt(s, i + 5) == Some(low)
    ensures Unescape(s, i) == Some((Combine(high, low) as char, i + 11))
  {
  }

  /** A leading half with no trailing half after it cannot be decoded. */
  lemma LoneHighSurrogateFails(s: string, i: nat, high: nat)
    requires i < |s| && s[i] == 'u'
    requires Hex4(s, i + 1) == Some(high) && 0xD800 <= high < 0xDC00
    requires LowSurrogateAt(s, i + 5).None?
    ensures Unescape(s, i).None?
  {
  }

  /** `"\ud83d\ude00"` is the grinning-face emoji, U+1F600. */
  lemma EmojiEscape()
    ensures ParseStringBody("\\ud83d\\ude00\"", 0) == Some(("\U{1F600}", 13))
  {
    var s := "\\ud83d\\ude00\"";
    assert Hex4(s, 2) == Some(0xD83D);
    assert Hex4(s, 8) == Some(0xDE00);
    assert LowSurrogateAt(s, 6) == Some(0xDE00);
    assert Combine(0xD83D, 0xDE00) == 0x1F600;
    assert Unescape(s, 1) == Some(('\U{1F600}', 12));
    assert ParseStringBody(s, 12) == Some(([], 13));
    assert ParseStringBody(s, 0) == Some((['\U{1F600}'] + [], 13));
    assert ['\U{1F600}'] + [] == "\U{1F600}";
  }

  /** The characters of a string literal up to its closing quote; `i` is just after the opening quote. */
  function ParseStringBody(s: string, i: nat): (r: Option<(string, nat)>)
    requires i <= |s|
    ensures r.Some? ==> i < r.value.1 <= |s|
    decreases |s| - i
  {
    if i == |s| then None
    else if s[i] == '"' then Some(([], i + 1))
    else if s[i] == '\\' then
      if i + 1 == |s| then None
      else
        match Unescape(s, i + 1)
        case None => None
        case Some((c, next)) =>
          match ParseStringBody(s, next)
          case None => None
          case Some((rest, end)) => Some(([c] + rest, end))
    else if (s[i] as int) < 0x20 then None
    else
      match ParseStringBody(s, i + 1)
      case None => None
      case Some((rest, end)) => Some(([s[i]] + rest, end))
  }

  /** The optional fraction `.digits` at `i`: its value and where it ends. */
  function ParseFraction(s: string, i: nat): (r: Option<(real, nat)>)
    requires i <= |s|
    ensures r.Some? ==> i <= r.value.1 <= |s|
  {
    if i < |s| && s[i] == '.' then
      var e := DigitsEnd(s, i + 1);
      if e == i + 1 then None
      else Some((DecimalValue(s[i + 1..e]) as real / Pow10(e - i - 1) as real, e))
    else Some((0.0, i))
  }

  /** The optional exponent `e[+-]digits` at `i`: the factor it scales by and where it ends. */
  function ParseExponent(s: string, i: nat): (r: Option<(real, nat)>)
    requires i <= |s|
    ensures r.Some? ==> i <= r.value.1 <= |s|
  {
    if i < |s| && (s[i] == 'e' || s[i] == 'E') then
      var neg := i + 1 < |s| && s[i + 1] == '-';
      var p := if i + 1 < |s| && (s[i + 1] == '+' || s[i + 1] == '-') then i + 2 else i + 1;
      var e := DigitsEnd(s, p);
      if e == p then None
      else
        var scale := Pow10(DecimalValue(s[p..e])) as real;
        Some((if neg then 1.0 / scale else scale, e))
    else Some((1.0, i))
  }

  /** A number `-?(0|[1-9][0-9]*)(.[0-9]+)?([eE][+-]?[0-9]+)?` at `i`. */
  function ParseNumber(s: string, i: nat): (r: Option<(Json, nat)>)
    requires i < |s|
    ensures r.Some? ==> i < r.value.1 <= |s| && r.value.0.JNumber?
  {
    var neg := s[i] == '-';
    var p := if neg then i + 1 else i;
    if p == |s| || !IsDigit(s[p]) then None
    else
      var intEnd := if s[p] == '0' then p + 1 else DigitsEnd(s, p);
      assert AllDigits(s[p..intEnd]);
      var whole := DecimalValue(s[p..intEnd]) as real;
      match ParseFraction(s, intEnd)
      case None => None
      case Some((frac, fracEnd)) =>
        match ParseExponent(s, fracEnd)
        case None => None
        case Some((scale, end)) =>
          var magnitude := (whole + frac) * scale;
          Some((JNumber(if neg then -magnitude else magnitude), end))
  }

  /** The text read up to `end` closes with a brace. */
  predicate ClosesWithBrace(s: string, end: nat) {
    0 < end <= |s| && s[end - 1] == '}'
  }

  /** One JSON value starting exactly at `i`: the value and the position after it. */
  function ParseValue(s: string, i: nat): (r: Option<(Json, nat)>)
    requires i <= |s|
    ensures r.Some? ==> i < r.value.1 <= |s|
    ensures r.Some? ==> (r.value.0.JObject? <==> s[i] == '{')
    ensures r.Some? ==> (r.value.0.JArray? <==> s[i] == '[')
    ensures r.Some? && r.value.0.JObject? ==> ClosesWithBrace(s, r.value.1)
    decreases |s| - i, 0
  {
    if i == |s| then None
    else if s[i] == '{' then
      var j := SkipWs(s, i + 1);
      if j < |s| && s[j] == '}' then Some((JObject([]), j + 1))
      else ParseMembers(s, j, [])
    else if s[i] == '[' then
      var j := SkipWs(s, i + 1);
      if j < |s| && s[j] == ']' then Some((JArray([]), j + 1))
      else ParseElements(s, j, [])
    else if s[i] == '"' then
      match ParseStringBody(s, i + 1)
      case None => None
      case Some((text, end)) => Some((JString(text), end))
    else if HasWordAt(s, i, "true") then Some((JBool(true), i + 4))
    else if HasWordAt(s, i, "false") then Some((JBool(false), i + 5))
    else if HasWordAt(s, i, "null") then Some((JNull, i + 4))
    else if s[i] == '-' || IsDigit(s[i]) then ParseNumber(s, i)
    else None
  }

  /** One `"name": value` pair at `i`: the name, the value and the position after the value. */
  function ParseMember(s: string, i: nat): (r: Option<(string, Json, nat)>)
    requires i <= |s|
    ensures r.Some? ==> i < r.value.2 <= |s|
    ensures r.Some? && r.value.1.JObject? ==> ClosesWithBrace(s, r.value.2)
    decreases |s| - i, 0
  {
    if i == |s| || s[i] != '"' then None
    else
      match ParseStringBody(s, i + 1)
      case None => None
      case Some((key, afterKey)) =>
        var colon := SkipWs(s, afterKey);
        if colon == |s| || s[colon] != ':' then None
        else
          match ParseValue(s, SkipWs(s, colon + 1))
          case None => None
          case Some((v, afterValue)) => Some((key, v, afterValue))
  }

  /** Object members from `i` on, after `acc` has been read; ends at the closing brace. */
  function ParseMembers(s: string, i: nat, acc: seq<Member>): (r: Option<(Json, nat)>)
    requires i <= |s|
    ensures r.Some? ==> i < r.value.1 <= |s| && r.value.0.JObject?
    ensures r.Some? ==> ClosesWithBrace(s, r.value.1)
    decreases |s| - i, 1
  {
    match ParseMember(s, i)
    case None => None
    case Some((key, v, afterValue)) =>
      var sep := SkipWs(s, afterValue);
      assert i < sep;
      MembersAfter(s, sep, Put(acc, key, v))
  }

  /** After a member, at `sep`: the closing brace, or a comma and more members. */
  function MembersAfter(s: string, sep: nat, members: seq<Member>): (r: Option<(Json, nat)>)
    requires sep <= |s|
    ensures r.Some? ==> sep < r.value.1 <= |s| && r.value.0.JObject?
    ensures r.Some? ==> ClosesWithBrace(s, r.value.1)
    decreases |s| - sep, 0
  {
    if sep == |s| then None
    else if s[sep] == '}' then Some((JObject(members), sep + 1))
    else if s[sep] != ',' then None
    else
      var next := SkipWs(s, sep + 1);
      assert sep < next;
      var r := ParseMembers(s, next, members);
      r
  }

  /** Array elements from `i` on, after `acc` has been read; ends at the closing bracket. */
  function ParseElements(s: string, i: nat, acc: seq<Json>): (r: Option<(Json, nat)>)
    requires i <= |s|
    ensures r.Some? ==> i < r.value.1 <= |s| && r.value.0.JArray?
    decreases |s| - i, 1
  {
    match ParseValue(s, i)
    case None => None
    case Some((v, afterValue)) =>
      var items := acc + [v];
      var sep := SkipWs(s, afterValue);
      if sep == |s| then None
      else if s[sep] == ']' then Some((JArray(items), sep + 1))
      else if s[sep] == ',' then ParseElements(s, SkipWs(s, sep + 1), items)
      else None
  }

  /** `JSON.parse(s)`: one value, surrounded by nothing but whitespace. */
  function Parse(s: string): Option<Json> {
    var start := SkipWs(s, 0);
    match ParseValue(s, start)
    case None => None
    case Some((v, end)) => if SkipWs(s, end) == |s| then Some(v) else None
  }

  /** A text whose first character is `{` parses, if at all, to an object. */
  lemma BraceTextParsesToObject(s: string)
    requires |s| > 0 && s[0] == '{'
    ensures Parse(s).Some? ==> Parse(s).value.JObject?
  {
    assert SkipWs(s, 0) == 0;
  }

  /** Only a text containing `{` can parse to an object. */
  lemma ObjectNeedsBrace(s: string)
    requires Parse(s).Some? && Parse(s).value.JObject?
    ensures '{' in s
  {
  }

  /** Only a text containing `{` or `[` can parse to an object or an array. */
  lemma ContainerNeedsBracket(s: string)
    requires Parse(s).Some? && (Parse(s).value.JObject? || Parse(s).value.JArray?)
    ensures '{' in s || '[' in s
  {
  }

  /** An object's text ends with its closing brace. */
  lemma ObjectEndsWithBrace(s: string, i: nat)
    requires i <= |s|
    requires ParseValue(s, i).Some? && ParseValue(s, i).value.0.JObject?
    ensures s[ParseValue(s, i).value.1 - 1] == '}'
  {
  }

  /** No `}` in `s[a..b]`. */
  predicate NoCloseBrace(s: string, a: nat, b: nat) {
    forall k :: a <= k < b && k < |s| ==> s[k] != '}'
  }

  /**
   * An object read from text that has no `}` before its closing brace has
   * no object-valued member: a nested object would have brought its own `}`.
   */
  lemma {:induction false} MembersFlat(s: string, i: nat, acc: seq<Member>)
    requires i <= |s|
    requires ParseMembers(s, i, acc).Some? && FlatMembers(acc)
    requires NoCloseBrace(s, i, ParseMembers(s, i, acc).value.1 - 1)
    ensures FlatMembers(ParseMembers(s, i, acc).value.0.members)
    decreases |s| - i, 1
  {
    var m := ParseMember(s, i).value;
    var sep := SkipWs(s, m.2);
    var members := Put(acc, m.0, m.1);
    assert ParseMembers(s, i, acc) == MembersAfter(s, sep, members);
    PutFlat(acc, m.0, m.1);
    MembersAfterFlat(s, sep, members);
  }

  lemma {:induction false} MembersAfterFlat(s: string, sep: nat, members: seq<Member>)
    requires sep <= |s|
    requires MembersAfter(s, sep, members).Some? && FlatMembers(members)
    requires NoCloseBrace(s, sep, MembersAfter(s, sep, members).value.1 - 1)
    ensures FlatMembers(MembersAfter(s, sep, members).value.0.members)
    decreases |s| - sep, 0
  {
    if s[sep] == ',' {
      MembersFlat(s, SkipWs(s, sep + 1), members);
    }
  }

  /** A text with a single `}`, its last character, parses to an object without nested objects. */
  lemma SingleBraceObjectIsFlat(s: string)
    requires |s| > 0 && s[0] == '{'
    requires NoCloseBrace(s, 0, |s| - 1)
    requires Parse(s).Some?
    ensures Parse(s).value.JObject? && FlatMembers(Parse(s).value.members)
  {
    assert SkipWs(s, 0) == 0;
    var j := SkipWs(s, 1);
    if !(j < |s| && s[j] == '}') {
      var end := ParseMembers(s, j, []).value.1;
      assert s[end - 1] == '}';
      MembersFlat(s, j, []);
    }
  }
}
