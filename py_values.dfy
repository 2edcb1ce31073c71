/** The Python values the collector and the graph builder handle: values
    decoded from the API's JSON bodies, their `str()`, the `in` operator on
    them and list slicing with a possibly negative end. */
module PyValues {
  import opened Wrappers
  import Decimal

  /** A value produced by decoding a JSON body: None, bool, int, str, list
      or dict. JSON numbers with a fraction are not part of this model. */
  datatype Json =
    | JNull
    | JBool(b: bool)
    | JInt(i: int)
    | JStr(s: string)
    | JArr(items: seq<Json>)
    | JObj(fields: map<string, Json>)

  /** `str(v)` (also what an f-string placeholder renders). The scalars are
      rendered as Python renders them; a list or a dict is rendered by a fixed
      marker instead of its repr. */
  function PyStr(v: Json): (s: string)
    ensures v.JStr? ==> s == v.s
    ensures v.JInt? ==> s == Decimal.IntToString(v.i)
    ensures v.JNull? ==> s == "None"
  {
    match v
    case JNull => "None"
    case JBool(b) => if b then "True" else "False"
    case JInt(i) => Decimal.IntToString(i)
    case JStr(s) => s
    case JArr(_) => "[...]"
    case JObj(_) => "{...}"
  }

  /** `s` occurs in `t` starting at offset `k`. */
  predicate OccursAt(s: string, t: string, k: int) {
    0 <= k <= |t| - |s| && t[k..k + |s|] == s
  }

  /** `s` occurs in `t` somewhere, searched from the left. */
  predicate IsSubstring(s: string, t: string)
    decreases |t|
  {
    s <= t || (|t| > 0 && IsSubstring(s, t[1..]))
  }

  lemma {:induction false} IsSubstringAt(s: string, t: string)
    ensures IsSubstring(s, t) <==> exists k :: OccursAt(s, t, k)
    decreases |t|
  {
    if s <= t {
      assert OccursAt(s, t, 0);
    } else if |t| > 0 {
      IsSubstringAt(s, t[1..]);
      if IsSubstring(s, t[1..]) {
        var k :| OccursAt(s, t[1..], k);
        assert t[k + 1..k + 1 + |s|] == t[1..][k..k + |s|];
        assert OccursAt(s, t, k + 1);
      }
      if exists k :: OccursAt(s, t, k) {
        var k :| OccursAt(s, t, k);
        assert k != 0;
        assert t[1..][k - 1..k - 1 + |s|] == t[k..k + |s|];
        assert OccursAt(s, t[1..], k - 1);
      }
    }
  }

  /** Python's `s in container` for a string `s`: element membership in a
      list (a str equals only an equal str), key membership in a dict, and
      substring search in a str; any other container raises TypeError. */
  function Member(s: string, container: Json): (r: Outcome<bool>)
    ensures container.JArr? ==> r == Returned(JStr(s) in container.items)
    ensures container.JObj? ==> r == Returned(s in container.fields)
    ensures container.JStr? ==> r.Returned? && (r.value <==> exists k :: OccursAt(s, container.s, k))
    ensures r.Raised? <==> container.JNull? || container.JBool? || container.JInt?
  {
    match container
    case JArr(items) => Returned(JStr(s) in items)
    case JObj(fields) => Returned(s in fields)
    case JStr(t) => IsSubstringAt(s, t); Returned(IsSubstring(s, t))
    case _ => Raised
  }

  /** `s[:stop]`: a negative `stop` counts from the end (so -1 drops the last
      element), and an out-of-range `stop` is clamped. */
  function PrefixSlice<T>(s: seq<T>, stop: int): (r: seq<T>)
    ensures r <= s
    ensures stop >= 0 ==> |r| == if stop < |s| then stop else |s|
    ensures stop < 0 ==> |r| == if |s| + stop > 0 then |s| + stop else 0
  {
    var k := if stop < 0 then (if |s| + stop > 0 then |s| + stop else 0)
             else (if stop < |s| then stop else |s|);
    s[..k]
  }
}
