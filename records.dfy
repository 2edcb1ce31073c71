/** A friend record is a Python dict from field names to decoded values.
    `dict.get` and the two strings every component derives from a record,
    its node key and its display name. */
module Records {
  import opened PyValues
  import Decimal

  type Record = map<string, Json>

  /** `d.get(k)`: the value, or None when the key is absent. */
  function Get(d: map<string, Json>, k: string): (v: Json)
    ensures k !in d ==> v == JNull
    ensures k in d ==> v == d[k]
  {
    if k in d then d[k] else JNull
  }

  /** `d.get(k, default)`. Only an ABSENT key gives the default; a key that
      is present with value None gives None. */
  function GetOr(d: map<string, Json>, k: string, default: Json): (v: Json)
    ensures k !in d ==> v == default
    ensures k in d ==> v == d[k]
  {
    if k in d then d[k] else default
  }

  /** `str(friend.get('id'))`: the key for a record's graph node and the
      subject id under which its own friend list is requested. */
  function IdOf(r: Record): (s: string)
    ensures "id" !in r ==> s == "None"
    ensures "id" in r && r["id"].JStr? ==> s == r["id"].s
    ensures "id" in r && r["id"].JInt? ==> s == Decimal.IntToString(r["id"].i)
  {
    PyStr(Get(r, "id"))
  }

  /** `f"{friend.get('first_name', 'Unknown')} {friend.get('last_name', 'Unknown')}"`. */
  function DisplayName(r: Record): (s: string)
    ensures "first_name" !in r ==> |s| >= 8 && s[..8] == "Unknown "
    ensures "last_name" !in r ==> |s| >= 8 && s[|s| - 8..] == " Unknown"
    ensures Get(r, "first_name").JStr? && Get(r, "last_name").JStr? ==>
              s == r["first_name"].s + " " + r["last_name"].s
  {
    PyStr(GetOr(r, "first_name", JStr("Unknown"))) + " " + PyStr(GetOr(r, "last_name", JStr("Unknown")))
  }

  /** 'Unknown' stands in for a missing name field only when the key is absent:
      a key present with value None is rendered "None". */
  lemma DisplayNameCases(r: Record, first: string, last: string)
    ensures "first_name" !in r && "last_name" !in r ==> DisplayName(r) == "Unknown Unknown"
    ensures Get(r, "first_name") == JStr(first) && Get(r, "last_name") == JStr(last) ==>
              DisplayName(r) == first + " " + last
    ensures "first_name" in r && r["first_name"] == JNull ==> DisplayName(r)[..5] == "None "
  {
  }
}
