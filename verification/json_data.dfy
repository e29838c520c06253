/** The already-parsed JSON values that `json.load` hands to the loaders, and
    the two Python operations the loaders apply to them: `isinstance(x, (int, float))`
    and the membership test `key in value`. */
module JsonData {
  import opened Results

  /** A parsed JSON value. Objects are maps because a JSON object read by
      Python keeps one value per key. */
  datatype Json =
    | JNull
    | JBool(b: bool)
    | JInt(i: int)
    | JFloat(f: real)
    | JStr(s: string)
    | JArr(items: seq<Json>)
    | JObj(fields: map<string, Json>)

  /** A value that `isinstance(x, (int, float))` admits. In Python `bool` is a
      subclass of `int`, so `true` and `false` pass the check as well. */
  datatype Number = Int(i: int) | Float(f: real) | Bool(b: bool)

  /** The JSON value a number was read from. */
  function NumberToJson(n: Number): Json
  {
    match n
    case Int(i) => JInt(i)
    case Float(f) => JFloat(f)
    case Bool(b) => JBool(b)
  }

  /** The numeric check: succeeds exactly on the values Python calls numeric,
      and then gives back the very value it was applied to. */
  function AsNumber(j: Json): (r: Option<Number>)
    ensures r.Some? <==> (j.JInt? || j.JFloat? || j.JBool?)
    ensures r.Some? ==> NumberToJson(r.value) == j
  {
    match j
    case JInt(i) => Some(Int(i))
    case JFloat(f) => Some(Float(f))
    case JBool(b) => Some(Bool(b))
    case _ => None
  }

  /** Python's `k in s` on strings, as the search it performs: `k` matches
      at the front of `s`, or somewhere further on. */
  predicate IsSubstring(k: string, s: string)
    decreases |s|
  {
    k <= s || (|s| > 0 && IsSubstring(k, s[1..]))
  }

  /** `k` occupies the positions `i` to `i + |k|` of `s`. */
  ghost predicate OccursAt(k: string, s: string, i: nat)
  {
    i + |k| <= |s| && s[i..i + |k|] == k
  }

  /** The search finds `k` exactly when `k` occurs at some position of `s`. */
  lemma {:induction false} IsSubstringFindsOccurrence(k: string, s: string)
    ensures IsSubstring(k, s) <==> exists i: nat :: OccursAt(k, s, i)
    decreases |s|
  {
    if k <= s {
      assert s[0..|k|] == k;
      assert OccursAt(k, s, 0);
    } else {
      assert !OccursAt(k, s, 0);
      if |s| == 0 {
        forall i: nat
          ensures !OccursAt(k, s, i)
        {
          if i > 0 {
            assert i + |k| > |s|;
          }
        }
      } else {
        IsSubstringFindsOccurrence(k, s[1..]);
        forall i: nat | OccursAt(k, s[1..], i)
          ensures OccursAt(k, s, i + 1)
        {
          assert s[i + 1..i + 1 + |k|] == s[1..][i..i + |k|];
        }
        forall i: nat | i > 0 && OccursAt(k, s, i)
          ensures OccursAt(k, s[1..], i - 1)
        {
          assert s[1..][i - 1..i - 1 + |k|] == s[i..i + |k|];
        }
        if exists i: nat :: OccursAt(k, s, i) {
          var i: nat :| OccursAt(k, s, i);
          assert i > 0;
          assert OccursAt(k, s[1..], i - 1);
        }
      }
    }
  }

  /** The outcome of evaluating `key in value`: true, false, or a raised TypeError. */
  datatype Membership = Present | Absent | NotIterable

  /** Python's `key in value`: a key test on a dict, an element test on a list,
      a substring search on a string; on null, booleans and numbers the test raises. */
  function Contains(value: Json, key: string): (r: Membership)
    ensures r == NotIterable <==> !(value.JObj? || value.JArr? || value.JStr?)
    ensures value.JObj? ==> (r == Present <==> key in value.fields)
    ensures value.JArr? ==> (r == Present <==> exists i :: 0 <= i < |value.items| && value.items[i] == JStr(key))
    ensures value.JStr? ==> (r == Present <==> exists i: nat :: OccursAt(key, value.s, i))
  {
    match value
    case JObj(m) => if key in m then Present else Absent
    case JArr(xs) => if JStr(key) in xs then Present else Absent
    case JStr(s) =>
      IsSubstringFindsOccurrence(key, s);
      if IsSubstring(key, s) then Present else Absent
    case _ => NotIterable
  }

  /** Whether `key in value` raises depends on the value alone, never on the
      key; this is why `all(...)` over several keys raises at its first test
      or not at all. */
  lemma RaisingDoesNotDependOnKey(value: Json, k1: string, k2: string)
    ensures Contains(value, k1) == NotIterable <==> Contains(value, k2) == NotIterable
  {
  }

  /** `all(k in value for k in keys)`: stops at the first key that is absent,
      and raises at the first key when the value cannot be searched at all. */
  function ContainsAll(value: Json, keys: seq<string>): (r: Membership)
    ensures r == Present <==> forall i :: 0 <= i < |keys| ==> Contains(value, keys[i]) == Present
    ensures r == NotIterable <==> |keys| > 0 && Contains(value, keys[0]) == NotIterable
  {
    if keys == [] then Present
    else
      match Contains(value, keys[0])
      case NotIterable => NotIterable
      case Absent => Absent
      case Present => ContainsAll(value, keys[1..])
  }
}
