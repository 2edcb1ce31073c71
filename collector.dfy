/** The collector of code/get_friends.py: turning a friends.get response into
    friend records (`fetch_friends`) and annotating every friend with the ids
    of its own friends (`fetch_friends_of_each_friend`). The HTTP request is a
    function parameter from subject id to response. */
module Collector {
  import opened Wrappers
  import opened PyValues
  import opened Records

  /** What the HTTP GET gives `fetch_friends`: the request itself raised
      (connection failure and the like), the body is not JSON, or the
      decoded body. */
  datatype Response = TransportError | NotJson | Body(data: Json)

  /** The fields every friend record carries, in the order the code lists them. */
  const FriendFields: seq<string> := [
    "first_name", "last_name", "id", "sex", "bdate", "country",
    "city", "photo_id", "status", "can_post", "can_see_all_posts",
    "can_write_private_message", "contacts", "domain", "education",
    "has_mobile", "timezone", "last_seen", "nickname", "online",
    "relation", "universities"
  ]

  /** The record built for one API item: every key of FriendFields, each
      mapped to the item's value or to None. */
  function FriendRecord(item: map<string, Json>): (r: Record)
    ensures forall k :: k in r <==> k in FriendFields
    ensures "id" in r && r["id"] == Get(item, "id")
  {
    map k | k in FriendFields :: Get(item, k)
  }

  /** `rec` is the record of `item`: exactly the FriendFields keys, each
      holding what the item has under it, None where the item lacks it. */
  ghost predicate IsRecordOf(rec: Record, item: Json) {
    && item.JObj?
    && (forall k :: k in rec <==> k in FriendFields)
    && (forall k :: k in FriendFields ==> rec[k] == Get(item.fields, k))
  }

  /** The elements `for friend in friends` visits before `friend.get` is
      called on them. A list yields its elements. A str yields one-character
      strs and a dict yields its str keys, none of which has `.get`, so only
      the empty ones get through; None, bool and int are not iterable. */
  function Iterate(items: Json): (r: Outcome<seq<Json>>)
    ensures items.JArr? ==> r == Returned(items.items)
    ensures r.Returned? ==> forall k :: 0 <= k < |r.value| ==> r.value[k] in ValuesOf(items)
  {
    match items
    case JArr(l) => Returned(l)
    case JObj(m) => if m == map[] then Returned([]) else Raised
    case JStr(s) => if s == "" then Returned([]) else Raised
    case _ => Raised
  }

  /** The members of a list (nothing for any other value). */
  function ValuesOf(v: Json): set<Json> {
    if v.JArr? then set k | 0 <= k < |v.items| :: v.items[k] else {}
  }

  /** The list comprehension over the items: it raises on the first item
      that is not a dict, otherwise gives one record per item, in order. */
  function RecordsOf(items: seq<Json>): (r: Outcome<seq<Record>>)
    ensures r.Returned? <==> forall k :: 0 <= k < |items| ==> items[k].JObj?
    ensures r.Returned? ==> |r.value| == |items| && forall k :: 0 <= k < |items| ==> IsRecordOf(r.value[k], items[k])
  {
    if items == [] then Returned([])
    else if !items[0].JObj? then Raised
    else
      match RecordsOf(items[1..])
      case Raised => Raised
      case Returned(rest) => Returned([FriendRecord(items[0].fields)] + rest)
  }

  /** The envelope is a dict carrying an API error that is itself a dict. */
  predicate IsErrorEnvelope(data: Json) {
    data.JObj? && "error" in data.fields && data.fields["error"].JObj?
  }

  /** The decoded envelope `{"response": {"items": [...]}}` as far as
      `fetch_friends` relies on it: a dict without an error, whose response
      is a dict and whose items value is a list. */
  predicate HasItemList(data: Json) {
    && data.JObj? && "error" !in data.fields
    && GetOr(data.fields, "response", JObj(map[])).JObj?
    && GetOr(GetOr(data.fields, "response", JObj(map[])).fields, "items", JArr([])).JArr?
  }

  function ItemList(data: Json): seq<Json>
    requires HasItemList(data)
  {
    GetOr(GetOr(data.fields, "response", JObj(map[])).fields, "items", JArr([])).items
  }

  /** `fetch_friends` after decoding: an error envelope gives [], a body of
      the expected shape gives one record per item, and anything that is not
      a dict raises (`in`, `[]` or `.get` on it fail). */
  function FromEnvelope(data: Json): (r: Outcome<seq<Record>>)
    ensures IsErrorEnvelope(data) ==> r == Returned([])
    ensures !data.JObj? ==> r == Raised
    ensures data.JObj? && "error" !in data.fields && "response" !in data.fields ==> r == Returned([])
    ensures HasItemList(data) ==>
              (r.Returned? <==> forall k :: 0 <= k < |ItemList(data)| ==> ItemList(data)[k].JObj?)
    ensures HasItemList(data) && r.Returned? ==>
              |r.value| == |ItemList(data)| &&
              forall k :: 0 <= k < |r.value| ==> IsRecordOf(r.value[k], ItemList(data)[k])
  {
    match data
    case JObj(m) =>
      if "error" in m then
        // printing `error.get('error_msg', ...)` needs the error to be a dict
        if m["error"].JObj? then Returned([]) else Raised
      else
        var response := GetOr(m, "response", JObj(map[]));
        if !response.JObj? then Raised
        else
          var items := Iterate(GetOr(response.fields, "items", JArr([])));
          if items.Raised? then Raised
          else
            assert HasItemList(data) ==> items.value == ItemList(data);
            RecordsOf(items.value)
    case _ => Raised
  }

  /** `fetch_friends(user_id, token)` given what the GET returned: an
      undecodable body gives [], a failed request raises. */
  function FetchFriends(response: Response): (r: Outcome<seq<Record>>)
    ensures response.NotJson? ==> r == Returned([])
    ensures response.TransportError? ==> r == Raised
    ensures response.Body? ==> r == FromEnvelope(response.data)
  {
    match response
    case TransportError => Raised
    case NotJson => Returned([])
    case Body(data) => FromEnvelope(data)
  }

  /** Every record `fetch_friends` returns has an "id" key. */
  lemma FetchedRecordsHaveIds(response: Response, k: nat)
    requires FetchFriends(response).Returned? && k < |FetchFriends(response).value|
    ensures "id" in FetchFriends(response).value[k]
  {
    var data := response.data;
    if IsErrorEnvelope(data) {
    } else {
      var items := Iterate(GetOr(GetOr(data.fields, "response", JObj(map[])).fields, "items", JArr([]))).value;
      assert IsRecordOf(FetchFriends(response).value[k], items[k]);
      assert "id" in FriendFields;
    }
  }

  /** `[str(f.get('id')) for f in friends_of_friend]`. */
  function FriendIds(friendsOfFriend: seq<Record>): (ids: seq<Json>)
    ensures |ids| == |friendsOfFriend|
    ensures forall k :: 0 <= k < |ids| ==> ids[k] == JStr(IdOf(friendsOfFriend[k]))
  {
    seq(|friendsOfFriend|, k requires 0 <= k < |friendsOfFriend| => JStr(IdOf(friendsOfFriend[k])))
  }

  /** A copy of `friend` with `friends_ids` and `friends_count` added. */
  function Annotate(friend: Record, friendsOfFriend: seq<Record>): (r: Record)
    ensures r.Keys == friend.Keys + {"friends_ids", "friends_count"}
    ensures forall k :: k in friend && k != "friends_ids" && k != "friends_count" ==> r[k] == friend[k]
    ensures r["friends_ids"].JArr? && r["friends_count"] == JInt(|r["friends_ids"].items|)
    ensures |r["friends_ids"].items| == |friendsOfFriend|
    ensures forall k :: 0 <= k < |friendsOfFriend| ==> r["friends_ids"].items[k] == JStr(IdOf(friendsOfFriend[k]))
  {
    var ids := FriendIds(friendsOfFriend);
    friend["friends_ids" := JArr(ids)]["friends_count" := JInt(|ids|)]
  }

  /** The fetch of this friend's own list raises. */
  predicate FetchRaises(friend: Record, fetch: string -> Response) {
    FetchFriends(fetch(IdOf(friend))).Raised?
  }

  /** What the loop of `fetch_friends_of_each_friend` appends for one friend. */
  function AnnotateOne(friend: Record, fetch: string -> Response): seq<Record> {
    match FetchFriends(fetch(IdOf(friend)))
    case Raised => []
    case Returned(friendsOfFriend) => [Annotate(friend, friendsOfFriend)]
  }

  /** `processed_friends` after the loop has visited all of `friends`. */
  function AnnotateAll(friends: seq<Record>, fetch: string -> Response): (r: seq<Record>)
    ensures |r| <= |friends|
  {
    if friends == [] then []
    else AnnotateAll(friends[..|friends| - 1], fetch) + AnnotateOne(friends[|friends| - 1], fetch)
  }

  /** Positions (ascending) of the friends whose fetch does not raise. */
  function Kept(friends: seq<Record>, fetch: string -> Response): seq<nat> {
    if friends == [] then []
    else Kept(friends[..|friends| - 1], fetch) +
         (if FetchRaises(friends[|friends| - 1], fetch) then [] else [|friends| - 1])
  }

  /** Kept lists positions of `friends` in ascending order. */
  lemma {:induction false} KeptAscending(friends: seq<Record>, fetch: string -> Response)
    ensures forall k :: 0 <= k < |Kept(friends, fetch)| ==> Kept(friends, fetch)[k] < |friends|
    ensures forall k, l :: 0 <= k < l < |Kept(friends, fetch)| ==> Kept(friends, fetch)[k] < Kept(friends, fetch)[l]
  {
    if friends != [] {
      var init := friends[..|friends| - 1];
      KeptAscending(init, fetch);
      var kept, kept0 := Kept(friends, fetch), Kept(init, fetch);
      var tail: seq<nat> := if FetchRaises(friends[|friends| - 1], fetch) then [] else [|friends| - 1];
      assert kept == kept0 + tail;
      assert forall k :: 0 <= k < |kept0| ==> kept0[k] < |init|;
      forall k | 0 <= k < |kept| ensures kept[k] < |friends| {
        if k < |kept0| { assert kept[k] == kept0[k]; }
      }
      forall k, l | 0 <= k < l < |kept| ensures kept[k] < kept[l] {
        if l < |kept0| { assert kept[k] == kept0[k] && kept[l] == kept0[l]; }
        else { assert kept[k] == kept0[k]; }
      }
    }
  }

  /** A position is kept exactly when that friend's fetch does not raise. */
  lemma {:induction false} KeptIffNotRaised(friends: seq<Record>, fetch: string -> Response)
    ensures forall i :: 0 <= i < |friends| ==> (i in Kept(friends, fetch) <==> !FetchRaises(friends[i], fetch))
  {
    if friends != [] {
      var init := friends[..|friends| - 1];
      KeptIffNotRaised(init, fetch);
      KeptAscending(init, fetch);
      var last := |friends| - 1;
      var kept, kept0 := Kept(friends, fetch), Kept(init, fetch);
      var tail := if FetchRaises(friends[last], fetch) then [] else [last];
      assert kept == kept0 + tail;
      assert last !in kept0;
      forall i | 0 <= i < |friends|
        ensures i in kept <==> !FetchRaises(friends[i], fetch)
      {
        assert i in kept <==> i in kept0 || i in tail;
        if i < last {
          assert friends[i] == init[i];
        }
      }
    }
  }

  /** The k-th annotated record is the annotation of the friend at the k-th
      kept position. */
  lemma {:induction false} AnnotateAllAtKept(friends: seq<Record>, fetch: string -> Response)
    ensures |AnnotateAll(friends, fetch)| == |Kept(friends, fetch)|
    ensures forall k :: 0 <= k < |Kept(friends, fetch)| ==>
              Kept(friends, fetch)[k] < |friends| &&
              [AnnotateAll(friends, fetch)[k]] == AnnotateOne(friends[Kept(friends, fetch)[k]], fetch)
  {
    if friends != [] {
      var init := friends[..|friends| - 1];
      AnnotateAllAtKept(init, fetch);
      var out, kept := AnnotateAll(friends, fetch), Kept(friends, fetch);
      var out0, kept0 := AnnotateAll(init, fetch), Kept(init, fetch);
      forall k | 0 <= k < |kept|
        ensures kept[k] < |friends| && [out[k]] == AnnotateOne(friends[kept[k]], fetch)
      {
        if k < |kept0| {
          assert out[k] == out0[k] && kept[k] == kept0[k];
          assert friends[kept0[k]] == init[kept0[k]];
        }
      }
    }
  }

  /** The annotated list is the friends whose fetch did not raise, in their
      original order, each annotated with what its own fetch returned; exactly
      the friends whose fetch raised are missing. */
  lemma AnnotateAllSelects(friends: seq<Record>, fetch: string -> Response)
    ensures |AnnotateAll(friends, fetch)| == |Kept(friends, fetch)|
    ensures forall k :: 0 <= k < |Kept(friends, fetch)| ==> Kept(friends, fetch)[k] < |friends|
    ensures forall k, l :: 0 <= k < l < |Kept(friends, fetch)| ==> Kept(friends, fetch)[k] < Kept(friends, fetch)[l]
    ensures forall i :: 0 <= i < |friends| ==> (i in Kept(friends, fetch) <==> !FetchRaises(friends[i], fetch))
    ensures forall k :: 0 <= k < |Kept(friends, fetch)| ==>
              [AnnotateAll(friends, fetch)[k]] == AnnotateOne(friends[Kept(friends, fetch)[k]], fetch)
  {
    KeptAscending(friends, fetch);
    KeptIffNotRaised(friends, fetch);
    AnnotateAllAtKept(friends, fetch);
  }

  /** When no fetch raises, every friend is kept, in place. */
  /** A friend whose fetch does not raise contributes exactly one record. */
  lemma AnnotateOneKept(friend: Record, fetch: string -> Response)
    requires !FetchRaises(friend, fetch)
    ensures |AnnotateOne(friend, fetch)| == 1
  {
  }

  lemma {:induction false} AnnotateAllKeepsAll(friends: seq<Record>, fetch: string -> Response)
    requires forall i :: 0 <= i < |friends| ==> !FetchRaises(friends[i], fetch)
    ensures |AnnotateAll(friends, fetch)| == |friends|
    ensures forall i :: 0 <= i < |friends| ==> [AnnotateAll(friends, fetch)[i]] == AnnotateOne(friends[i], fetch)
  {
    if friends != [] {
      var init := friends[..|friends| - 1];
      AnnotateAllKeepsAll(init, fetch);
      var last := friends[|friends| - 1];
      var front := AnnotateAll(init, fetch);
      var tail := AnnotateOne(last, fetch);
      assert AnnotateAll(friends, fetch) == front + tail;
      AnnotateOneKept(last, fetch);
      forall i | 0 <= i < |friends|
        ensures [(front + tail)[i]] == AnnotateOne(friends[i], fetch)
      {
        if i < |init| {
          assert friends[i] == init[i];
          assert (front + tail)[i] == front[i];
        } else {
          assert (front + tail)[i] == tail[0];
        }
      }
    }
  }

  /** The record lists its friends' ids as a list of strs and counts them. */
  predicate ListsFriendIds(r: Record) {
    && "friends_ids" in r && r["friends_ids"].JArr?
    && "friends_count" in r && r["friends_count"] == JInt(|r["friends_ids"].items|)
    && forall j :: 0 <= j < |r["friends_ids"].items| ==> r["friends_ids"].items[j].JStr?
  }

  /** Every annotated record lists its friends as a list of strs and counts them. */
  lemma {:induction false} AnnotatedRecordsShape(friends: seq<Record>, fetch: string -> Response, k: nat)
    requires k < |AnnotateAll(friends, fetch)|
    ensures ListsFriendIds(AnnotateAll(friends, fetch)[k])
  {
    var init := friends[..|friends| - 1];
    if k < |AnnotateAll(init, fetch)| {
      AnnotatedRecordsShape(init, fetch, k);
    }
  }

  /** One more visited friend appends what the loop body gives for it. */
  lemma AnnotateAllStep(friends: seq<Record>, i: nat, fetch: string -> Response)
    requires i < |friends|
    ensures AnnotateAll(friends[..i + 1], fetch) == AnnotateAll(friends[..i], fetch) + AnnotateOne(friends[i], fetch)
  {
    assert friends[..i + 1][..i] == friends[..i];
  }

  /** `fetch_friends_of_each_friend(user_id, token)`: the primary list is
      fetched (an exception there propagates), an empty list gives [], and
      then every friend whose own fetch does not raise is annotated and
      appended; a friend whose fetch raises is skipped. */
  method FetchFriendsOfEachFriend(userId: string, fetch: string -> Response) returns (r: Outcome<seq<Record>>)
    ensures FetchFriends(fetch(userId)).Raised? ==> r == Raised
    ensures FetchFriends(fetch(userId)) == Returned([]) ==> r == Returned([])
    ensures FetchFriends(fetch(userId)).Returned? ==>
              r == Returned(AnnotateAll(FetchFriends(fetch(userId)).value, fetch))
  {
    var primary := FetchFriends(fetch(userId));
    if primary.Raised? {
      return Raised;
    }
    var friends := primary.value;
    if |friends| == 0 {
      return Returned([]);
    }
    var processed: seq<Record> := [];
    for i := 0 to |friends|
      invariant processed == AnnotateAll(friends[..i], fetch)
    {
      var friend := friends[i];
      AnnotateAllStep(friends, i, fetch);
      var friendsOfFriend := FetchFriends(fetch(IdOf(friend)));
      if friendsOfFriend.Returned? {
        processed := processed + [Annotate(friend, friendsOfFriend.value)];
      }
    }
    assert friends[..|friends|] == friends;
    return Returned(processed);
  }
}
