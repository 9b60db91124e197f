/**
 * JSON values as the application sees them after `JSON.parse`: objects keep
 * their members in insertion order, a property read sees the last member
 * written under that name, and a property write overwrites in place or
 * appends, as JavaScript objects do.
 */
module Json {
  import opened Wrappers

  datatype Json =
    | JNull
    | JBool(b: bool)
    | JNumber(n: real)
    | JString(s: string)
    | JArray(items: seq<Json>)
    | JObject(members: seq<Member>)

  datatype Member = Member(key: string, value: Json)

  /** Property names in member order (`Object.keys`). */
  function Keys(ms: seq<Member>): (r: seq<string>)
    ensures |r| == |ms|
    ensures forall i :: 0 <= i < |ms| ==> r[i] == ms[i].key
  {
    seq(|ms|, i requires 0 <= i < |ms| => ms[i].key)
  }

  lemma KeysAppend(ms: seq<Member>, m: Member)
    ensures Keys(ms + [m]) == Keys(ms) + [m.key]
  {
  }

  lemma KeysPrefix(ms: seq<Member>, n: nat)
    requires n <= |ms|
    ensures Keys(ms[..n]) == Keys(ms)[..n]
  {
  }

  /** No property name occurs twice, as in every JavaScript object. */
  predicate UniqueKeys(ms: seq<Member>) {
    forall i, j :: 0 <= i < j < |ms| ==> ms[i].key != ms[j].key
  }

  /** `obj[k]`: the value of the last member named `k`, or `undefined`. */
  function Get(ms: seq<Member>, k: string): (r: Option<Json>)
    ensures r.None? <==> k !in Keys(ms)
  {
    if |ms| == 0 then None
    else if ms[|ms| - 1].key == k then Some(ms[|ms| - 1].value)
    else
      var r := Get(ms[..|ms| - 1], k);
      assert Keys(ms) == Keys(ms[..|ms| - 1]) + [ms[|ms| - 1].key];
      r
  }

  lemma GetAppend(ms: seq<Member>, m: Member, k: string)
    ensures Get(ms + [m], k) == if m.key == k then Some(m.value) else Get(ms, k)
  {
    assert (ms + [m])[..|ms|] == ms;
  }

  /** With unique names, the value read is the one stored at the name's position. */
  lemma GetUnique(ms: seq<Member>, i: nat)
    requires UniqueKeys(ms)
    requires i < |ms|
    ensures Get(ms, ms[i].key) == Some(ms[i].value)
  {
    if i < |ms| - 1 {
      GetUnique(ms[..|ms| - 1], i);
    }
  }

  /** Every member named `k` gets value `v`; order and names are kept. */
  function ReplaceValues(ms: seq<Member>, k: string, v: Json): (r: seq<Member>)
    ensures Keys(r) == Keys(ms)
    ensures forall k' :: k' != k ==> Get(r, k') == Get(ms, k')
    ensures k in Keys(ms) ==> Get(r, k) == Some(v)
    ensures forall i :: 0 <= i < |ms| ==> r[i] == if ms[i].key == k then Member(k, v) else ms[i]
    decreases |ms|
  {
    if |ms| == 0 then []
    else
      var init := ms[..|ms| - 1];
      var last := ms[|ms| - 1];
      var m := if last.key == k then Member(k, v) else last;
      var r := ReplaceValues(init, k, v) + [m];
      assert ms == init + [last];
      KeysAppend(init, last);
      KeysAppend(ReplaceValues(init, k, v), m);
      forall k' ensures Get(r, k') == (if k' == k && k in Keys(ms) then Some(v) else Get(ms, k')) {
        GetAppend(ReplaceValues(init, k, v), m, k');
        GetAppend(init, last, k');
      }
      r
  }

  /**
   * `obj[k] = v`: a member already named `k` keeps its position and takes the
   * new value; otherwise the member is appended.
   */
  function Put(ms: seq<Member>, k: string, v: Json): (r: seq<Member>)
    ensures Get(r, k) == Some(v)
    ensures forall k' :: k' != k ==> Get(r, k') == Get(ms, k')
    ensures k in Keys(ms) ==> Keys(r) == Keys(ms)
    ensures k !in Keys(ms) ==> Keys(r) == Keys(ms) + [k]
    ensures UniqueKeys(ms) ==> UniqueKeys(r)
  {
    if k in Keys(ms) then
      var r := ReplaceValues(ms, k, v);
      assert forall i :: 0 <= i < |r| ==> r[i].key == Keys(r)[i];
      r
    else
      var r := ms + [Member(k, v)];
      KeysAppend(ms, Member(k, v));
      forall k' ensures Get(r, k') == (if k' == k then Some(v) else Get(ms, k')) {
        GetAppend(ms, Member(k, v), k');
      }
      assert forall i :: 0 <= i < |ms| ==> ms[i].key == Keys(ms)[i];
      r
  }

  /** Where `Put` writes: in place over every member named `k`, or at the end. */
  lemma PutShape(ms: seq<Member>, k: string, v: Json)
    ensures k !in Keys(ms) ==> Put(ms, k, v) == ms + [Member(k, v)]
    ensures k in Keys(ms) ==> |Put(ms, k, v)| == |ms|
    ensures k in Keys(ms) ==> forall i :: 0 <= i < |ms| ==>
              Put(ms, k, v)[i] == if ms[i].key == k then Member(k, v) else ms[i]
  {
  }

  /** Every member after a `Put` was there before or carries the written value. */
  lemma PutValues(ms: seq<Member>, k: string, v: Json)
    ensures forall m :: m in Put(ms, k, v) ==> m in ms || m.value == v
  {
    PutShape(ms, k, v);
  }

  /** No member holds an object: the value has no nested object one level down. */
  predicate FlatMembers(ms: seq<Member>) {
    forall m :: m in ms ==> !m.value.JObject?
  }

  /** Writing a non-object into a flat member list keeps it flat. */
  lemma PutFlat(ms: seq<Member>, k: string, v: Json)
    requires FlatMembers(ms) && !v.JObject?
    ensures FlatMembers(Put(ms, k, v))
  {
    PutValues(ms, k, v);
  }

  /** JavaScript truthiness of a value (`if (v)`); JSON cannot produce `NaN`. */
  predicate Truthy(v: Json) {
    match v
    case JNull => false
    case JBool(b) => b
    case JNumber(n) => n != 0.0
    case JString(s) => |s| > 0
    case JArray(_) => true
    case JObject(_) => true
  }

  /** Truthiness of a property read, where a missing property is `undefined`. */
  predicate TruthyOpt(v: Option<Json>) {
    v.Some? && Truthy(v.value)
  }

  /** `typeof v === 'number'` for a property read. */
  predicate IsNumber(v: Option<Json>) {
    v.Some? && v.value.JNumber?
  }

  /** What a relational comparison (`v >= 80`) sees after JavaScript's `ToNumber`. */
  datatype Numeric = Num(x: real) | NaN | Uncoerced

  /**
   * `ToNumber` of a property read: `undefined` is NaN, `null` is 0, booleans
   * are 0 and 1. Strings, arrays and objects go through string parsing, which
   * is not part of this model.
   */
  function ToNumber(v: Option<Json>): (r: Numeric)
    ensures v.None? ==> r == NaN
    ensures v == Some(JNull) ==> r == Num(0.0)
    ensures v.Some? && v.value.JBool? ==> r == Num(if v.value.b then 1.0 else 0.0)
    ensures IsNumber(v) ==> r == Num(v.value.n)
    ensures r.Uncoerced? <==> v.Some? && (v.value.JString? || v.value.JArray? || v.value.JObject?)
  {
    match v
    case None => NaN
    case Some(JNull) => Num(0.0)
    case Some(JBool(b)) => Num(if b then 1.0 else 0.0)
    case Some(JNumber(n)) => Num(n)
    case Some(_) => Uncoerced
  }

  /** The items of a property that holds an array. */
  function ArrayItems(v: Option<Json>): Option<seq<Json>> {
    if v.Some? && v.value.JArray? then Some(v.value.items) else None
  }
}
