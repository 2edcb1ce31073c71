/** The graph builder of code/get_friends.py (`create_friends_network_graph`):
    one node per stringified record id, then an undirected edge for every pair
    of positions i < j whose records list each other. */
module FriendsGraph {
  import opened Wrappers
  import opened PyValues
  import opened Records
  import Collector

  /** A node's attribute dict. */
  type Attrs = map<string, Json>

  /** An undirected edge: the set of its endpoints ({u} for a self-loop). */
  type Edge = set<string>

  /** The node table after `add_node(n, **attrs)`: a new node gets `attrs`;
      an existing node keeps its other attributes and has these overwritten. */
  function NodeAdded(nodes: map<string, Attrs>, n: string, attrs: Attrs): (r: map<string, Attrs>)
    ensures r.Keys == nodes.Keys + {n}
    ensures forall k :: k in nodes && k != n ==> r[k] == nodes[k]
    ensures forall a :: a in attrs ==> a in r[n] && r[n][a] == attrs[a]
    ensures n in nodes ==> forall a :: a in nodes[n] && a !in attrs ==> a in r[n] && r[n][a] == nodes[n][a]
    ensures n !in nodes ==> r[n] == attrs
  {
    nodes[n := (if n in nodes then nodes[n] else map[]) + attrs]
  }

  /** The node table after `add_edge` has made sure endpoint `n` exists. */
  function WithNode(nodes: map<string, Attrs>, n: string): (r: map<string, Attrs>)
    ensures r.Keys == nodes.Keys + {n}
    ensures n in nodes ==> r == nodes
    ensures n !in nodes ==> r[n] == map[] && forall k :: k in nodes ==> r[k] == nodes[k]
  {
    if n in nodes then nodes else nodes[n := map[]]
  }

  /** An undirected simple graph with node attributes, as the parts of
      `nx.Graph` the builder uses. */
  class Graph {
    var nodes: map<string, Attrs>
    var edges: set<Edge>

    constructor ()
      ensures nodes == map[] && edges == {}
    {
      nodes := map[];
      edges := {};
    }

    /** `G.add_node(n, **attrs)`. */
    method AddNode(n: string, attrs: Attrs)
      modifies this
      ensures nodes == NodeAdded(old(nodes), n, attrs) && edges == old(edges)
    {
      nodes := NodeAdded(nodes, n, attrs);
    }

    /** `G.add_edge(u, v)`: missing endpoints are added without attributes;
      adding an edge that is already there changes nothing. */
    method AddEdge(u: string, v: string)
      modifies this
      ensures nodes == WithNode(WithNode(old(nodes), u), v)
      ensures edges == old(edges) + {{u, v}}
    {
      nodes := WithNode(WithNode(nodes, u), v);
      edges := edges + {{u, v}};
    }

    /** `G.number_of_nodes()`. */
    function NumberOfNodes(): (n: nat)
      reads this
      ensures n == 0 <==> nodes == map[]
    {
      |nodes|
    }

    /** `G.number_of_edges()`. */
    function NumberOfEdges(): (n: nat)
      reads this
      ensures n == 0 <==> edges == {}
    {
      |edges|
    }
  }

  /** The attributes the builder gives a record's node. `first_name` and
      `last_name` are stored even when they are None. */
  function NodeAttrsOf(r: Record): (a: Attrs)
    ensures a.Keys == {"name", "first_name", "last_name"}
  {
    map["name" := JStr(DisplayName(r)), "first_name" := Get(r, "first_name"), "last_name" := Get(r, "last_name")]
  }

  /** The node table after `add_node(ids[k], **attrs[k])` for k = 0, 1, ... in turn. */
  function NodeTable(ids: seq<string>, attrs: seq<Attrs>): map<string, Attrs>
    requires |ids| == |attrs|
  {
    if ids == [] then map[]
    else NodeAdded(NodeTable(ids[..|ids| - 1], attrs[..|ids| - 1]), ids[|ids| - 1], attrs[|ids| - 1])
  }

  /** The node keys of the records, in order. */
  function IdsOf(friends: seq<Record>): (ids: seq<string>)
    ensures |ids| == |friends| && forall i :: 0 <= i < |friends| ==> ids[i] == IdOf(friends[i])
  {
    seq(|friends|, i requires 0 <= i < |friends| => IdOf(friends[i]))
  }

  /** The node attributes of the records, in order. */
  function AttrsOf(friends: seq<Record>): (attrs: seq<Attrs>)
    ensures |attrs| == |friends| && forall i :: 0 <= i < |friends| ==> attrs[i] == NodeAttrsOf(friends[i])
  {
    seq(|friends|, i requires 0 <= i < |friends| => NodeAttrsOf(friends[i]))
  }

  /** The node table after the first loop has added the nodes of `friends`. */
  function NodesOf(friends: seq<Record>): map<string, Attrs> {
    NodeTable(IdsOf(friends), AttrsOf(friends))
  }

  /** `s in r.get('friends_ids', [])`. */
  function Listed(r: Record, s: string): (b: Outcome<bool>)
    ensures "friends_ids" !in r ==> b == Returned(false)
    ensures "friends_ids" in r && r["friends_ids"].JArr? ==> b == Returned(JStr(s) in r["friends_ids"].items)
    ensures b.Raised? <==> "friends_ids" in r && (r["friends_ids"].JNull? || r["friends_ids"].JBool? || r["friends_ids"].JInt?)
  {
    Member(s, GetOr(r, "friends_ids", JArr([])))
  }

  /** The condition of the pair scan: `friend2_id in friend1.get('friends_ids', [])
      and friend1_id in friend2.get('friends_ids', [])`, with `and` evaluating
      its right side only when the left one is true. */
  function MutualCheck(friend1: Record, friend2: Record): (b: Outcome<bool>)
    ensures b == Returned(true) <==>
              Listed(friend1, IdOf(friend2)) == Returned(true) && Listed(friend2, IdOf(friend1)) == Returned(true)
    ensures b.Raised? <==>
              Listed(friend1, IdOf(friend2)).Raised? ||
              (Listed(friend1, IdOf(friend2)) == Returned(true) && Listed(friend2, IdOf(friend1)).Raised?)
  {
    match Listed(friend1, IdOf(friend2))
    case Raised => Raised
    case Returned(first) => if first then Listed(friend2, IdOf(friend1)) else Returned(false)
  }

  /** The pair at positions i < j gets an edge. */
  predicate IsEdgeAt(friends: seq<Record>, i: nat, j: nat)
    requires i < j < |friends|
  {
    MutualCheck(friends[i], friends[j]) == Returned(true)
  }

  /** The edge the pair at positions i, j would add. */
  function PairEdge(friends: seq<Record>, i: nat, j: nat): Edge
    requires i < |friends| && j < |friends|
  {
    {IdOf(friends[i]), IdOf(friends[j])}
  }

  /** Edges the inner loop of row i has added once it reaches column j. */
  function RowEdges(friends: seq<Record>, i: nat, j: nat): set<Edge>
    requires i < j <= |friends|
    decreases j
  {
    if j == i + 1 then {}
    else RowEdges(friends, i, j - 1) + (if IsEdgeAt(friends, i, j - 1) then {PairEdge(friends, i, j - 1)} else {})
  }

  /** Edges the scan has added once rows 0 .. i-1 are done. */
  function ScanEdges(friends: seq<Record>, i: nat): set<Edge>
    requires i <= |friends|
  {
    if i == 0 then {} else ScanEdges(friends, i - 1) + RowEdges(friends, i - 1, |friends|)
  }

  /** All edges of the built graph. */
  function MutualEdges(friends: seq<Record>): (r: set<Edge>)
    ensures |friends| <= 1 ==> r == {}
  {
    assert |friends| == 1 ==> ScanEdges(friends, 1) == ScanEdges(friends, 0) + RowEdges(friends, 0, 1);
    ScanEdges(friends, |friends|)
  }

  /** The inner loop of row i raised before reaching column j. */
  predicate RowRaises(friends: seq<Record>, i: nat, j: nat)
    requires i < j <= |friends|
    decreases j
  {
    j > i + 1 && (RowRaises(friends, i, j - 1) || MutualCheck(friends[i], friends[j - 1]).Raised?)
  }

  /** The scan raised in one of the rows 0 .. i-1. */
  predicate ScanRaises(friends: seq<Record>, i: nat)
    requires i <= |friends|
  {
    i > 0 && (ScanRaises(friends, i - 1) || RowRaises(friends, i - 1, |friends|))
  }

  /** Evaluating the condition raises for no pair i < j. */
  ghost predicate NeverRaises(friends: seq<Record>) {
    forall a, b :: 0 <= a < b < |friends| ==> !MutualCheck(friends[a], friends[b]).Raised?
  }

  /** The table has no more nodes than ids were added. */
  lemma {:induction false} NodeTableSize(ids: seq<string>, attrs: seq<Attrs>)
    requires |ids| == |attrs|
    ensures |NodeTable(ids, attrs)| <= |ids|
  {
    if ids != [] {
      var n := |ids| - 1;
      var t := NodeTable(ids[..n], attrs[..n]);
      NodeTableSize(ids[..n], attrs[..n]);
      assert NodeTable(ids, attrs).Keys == t.Keys + {ids[n]};
      assert |t.Keys + {ids[n]}| <= |t.Keys| + 1;
    }
  }

  /** The table's keys are the ids added. */
  lemma {:induction false} NodeTableKeys(ids: seq<string>, attrs: seq<Attrs>, n: string)
    requires |ids| == |attrs|
    ensures n in NodeTable(ids, attrs) <==> n in ids
  {
    if ids != [] {
      var k := |ids| - 1;
      NodeTableKeys(ids[..k], attrs[..k], n);
      assert ids == ids[..k] + [ids[k]];
    }
  }

  /** The last position of `n` in `ids`. */
  function LastPos(ids: seq<string>, n: string): (p: nat)
    requires n in ids
    ensures p < |ids| && ids[p] == n
    ensures forall j :: p < j < |ids| ==> ids[j] != n
  {
    var k := |ids| - 1;
    if ids[k] == n then k
    else
      assert ids == ids[..k] + [ids[k]];
      LastPos(ids[..k], n)
  }

  /** When every attribute dict added has the same keys, a node holds the
      attributes added at the last position of its id. */
  lemma {:induction false} NodeTableLastWins(ids: seq<string>, attrs: seq<Attrs>, keys: set<string>, n: string)
    requires |ids| == |attrs| && n in ids
    requires forall i :: 0 <= i < |attrs| ==> attrs[i].Keys == keys
    ensures n in NodeTable(ids, attrs) && NodeTable(ids, attrs)[n] == attrs[LastPos(ids, n)]
  {
    var k := |ids| - 1;
    var table0 := NodeTable(ids[..k], attrs[..k]);
    NodeTableKeys(ids[..k], attrs[..k], n);
    if ids[k] == n {
      if n in table0 {
        NodeTableLastWins(ids[..k], attrs[..k], keys, n);
        assert table0[n] + attrs[k] == attrs[k];
      } else {
        assert map[] + attrs[k] == attrs[k];
      }
    } else {
      assert ids == ids[..k] + [ids[k]];
      NodeTableLastWins(ids[..k], attrs[..k], keys, n);
    }
  }

  /** A string is a node exactly when some record's stringified id is it. */
  lemma NodeIff(friends: seq<Record>, n: string)
    ensures n in NodesOf(friends) <==> exists i :: 0 <= i < |friends| && IdOf(friends[i]) == n
  {
    NodeTableKeys(IdsOf(friends), AttrsOf(friends), n);
  }

  /** The node set is the set of stringified ids of the records; records
      with equal ids give one node. */
  lemma NodesOfKeys(friends: seq<Record>)
    ensures NodesOf(friends).Keys == set i | 0 <= i < |friends| :: IdOf(friends[i])
  {
    forall n ensures n in NodesOf(friends) <==> n in set i | 0 <= i < |friends| :: IdOf(friends[i]) {
      NodeIff(friends, n);
    }
  }

  /** The graph has at most one node per record. */
  lemma NodesOfSize(friends: seq<Record>)
    ensures |NodesOf(friends)| <= |friends|
  {
    NodeTableSize(IdsOf(friends), AttrsOf(friends));
  }

  /** Every record's id is a node. */
  lemma NodeOfEveryRecord(friends: seq<Record>, i: nat)
    requires i < |friends|
    ensures IdOf(friends[i]) in NodesOf(friends)
  {
    NodeIff(friends, IdOf(friends[i]));
  }

  /** A node's attributes are those of the LAST record with that id (a
      duplicate id collapses into one node and the later record wins), and
      they are exactly `name`, `first_name` and `last_name`. */
  lemma NodesOfLastWins(friends: seq<Record>, n: string)
    requires n in NodesOf(friends)
    ensures exists i :: 0 <= i < |friends| && IdOf(friends[i]) == n && NodesOf(friends)[n] == NodeAttrsOf(friends[i]) &&
              forall j :: i < j < |friends| ==> IdOf(friends[j]) != n
    ensures NodesOf(friends)[n].Keys == {"name", "first_name", "last_name"}
  {
    var ids, attrs := IdsOf(friends), AttrsOf(friends);
    NodeTableKeys(ids, attrs, n);
    NodeTableLastWins(ids, attrs, {"name", "first_name", "last_name"}, n);
    var i := LastPos(ids, n);
    assert IdOf(friends[i]) == n && NodesOf(friends)[n] == NodeAttrsOf(friends[i]);
  }

  /** The row's edges are exactly the pairs (i, j') with j' < j that pass the check. */
  lemma {:induction false} RowEdgesIff(friends: seq<Record>, i: nat, j: nat, e: Edge)
    requires i < j <= |friends|
    ensures e in RowEdges(friends, i, j) <==> exists b :: i < b < j && IsEdgeAt(friends, i, b) && e == PairEdge(friends, i, b)
    decreases j
  {
    if j > i + 1 {
      RowEdgesIff(friends, i, j - 1, e);
    }
  }

  /** The scan's edges are exactly the pairs in rows before i that pass the check. */
  lemma {:induction false} ScanEdgesIff(friends: seq<Record>, i: nat, e: Edge)
    requires i <= |friends|
    ensures e in ScanEdges(friends, i) <==>
              exists a, b :: 0 <= a < i && a < b < |friends| && IsEdgeAt(friends, a, b) && e == PairEdge(friends, a, b)
  {
    if i > 0 {
      ScanEdgesIff(friends, i - 1, e);
      RowEdgesIff(friends, i - 1, |friends|, e);
    }
  }

  /** An edge is in the graph iff some pair of positions i < j passes the
      mutual check and the edge joins their ids. */
  lemma MutualEdgesIff(friends: seq<Record>, e: Edge)
    ensures e in MutualEdges(friends) <==>
              exists i, j :: 0 <= i < j < |friends| && IsEdgeAt(friends, i, j) && e == PairEdge(friends, i, j)
  {
    ScanEdgesIff(friends, |friends|, e);
  }

  /** Adds the nodes `ids[k]` with attributes `attrs[k]` in order. */
  method AddTable(g: Graph, ids: seq<string>, attrs: seq<Attrs>)
    requires |ids| == |attrs|
    requires g.nodes == map[] && g.edges == {}
    modifies g
    ensures g.nodes == NodeTable(ids, attrs) && g.edges == {}
  {
    for k := 0 to |ids|
      invariant g.nodes == NodeTable(ids[..k], attrs[..k]) && g.edges == {}
    {
      g.AddNode(ids[k], attrs[k]);
      assert ids[..k + 1][..k] == ids[..k] && attrs[..k + 1][..k] == attrs[..k];
    }
    assert ids[..|ids|] == ids && attrs[..|ids|] == attrs;
  }

  /** The builder's first loop: `G.add_node(str(id), name=..., first_name=..., last_name=...)`
      for every record in order. */
  method AddNodes(g: Graph, friends: seq<Record>)
    requires g.nodes == map[] && g.edges == {}
    modifies g
    ensures g.nodes == NodesOf(friends) && g.edges == {}
  {
    AddTable(g, IdsOf(friends), AttrsOf(friends));
  }

  /** Every edge of the built graph has one or two endpoints, and they are
      nodes (adding the edge never had to create an endpoint). */
  lemma EdgesWithinNodes(friends: seq<Record>, e: Edge)
    requires e in MutualEdges(friends)
    ensures 1 <= |e| <= 2 && e <= NodesOf(friends).Keys
  {
    var i, j := EdgeEndpoints(friends, e);
    NodeOfEveryRecord(friends, i);
    NodeOfEveryRecord(friends, j);
    PairSize(IdOf(friends[i]), IdOf(friends[j]));
  }

  /** The positions of two records whose pair gave edge `e`. */
  lemma EdgeEndpoints(friends: seq<Record>, e: Edge) returns (i: nat, j: nat)
    requires e in MutualEdges(friends)
    ensures i < j < |friends| && e == PairEdge(friends, i, j)
  {
    MutualEdgesIff(friends, e);
    i, j :| 0 <= i < j < |friends| && IsEdgeAt(friends, i, j) && e == PairEdge(friends, i, j);
  }

  lemma PairSize(u: string, v: string)
    ensures 1 <= |{u, v}| <= 2
  {
    if u == v {
      assert {u, v} == {u};
    }
  }

  /** `friends_ids` is absent or a list, as in every record the collector produces. */
  predicate HasIdList(r: Record) {
    "friends_ids" !in r || r["friends_ids"].JArr?
  }

  /** `r.get('friends_ids', [])` for such a record. */
  function IdList(r: Record): seq<Json>
    requires HasIdList(r)
  {
    if "friends_ids" in r then r["friends_ids"].items else []
  }

  /** For records whose `friends_ids` is absent or a list, the condition
      never raises, and holds exactly when each record lists the other's id
      as a str; a missing `friends_ids` lists nobody. */
  lemma MutualCheckOfLists(friend1: Record, friend2: Record)
    requires HasIdList(friend1) && HasIdList(friend2)
    ensures MutualCheck(friend1, friend2) ==
              Returned(JStr(IdOf(friend2)) in IdList(friend1) && JStr(IdOf(friend1)) in IdList(friend2))
  {
  }

  /** An edge joins the pair at positions i < j exactly when each lists the other. */
  lemma EdgeIffMutual(friends: seq<Record>, i: nat, j: nat)
    requires i < j < |friends| && HasIdList(friends[i]) && HasIdList(friends[j])
    ensures IsEdgeAt(friends, i, j) <==>
              JStr(IdOf(friends[j])) in IdList(friends[i]) && JStr(IdOf(friends[i])) in IdList(friends[j])
    ensures !MutualCheck(friends[i], friends[j]).Raised?
  {
    MutualCheckOfLists(friends[i], friends[j]);
  }

  /** When every record's `friends_ids` is absent or a list the build never
      aborts, and its edges are exactly the pairs listing each other. */
  lemma ListsNeverRaise(friends: seq<Record>)
    requires forall k :: 0 <= k < |friends| ==> HasIdList(friends[k])
    ensures NeverRaises(friends)
  {
    forall a, b | 0 <= a < b < |friends| ensures !MutualCheck(friends[a], friends[b]).Raised? {
      MutualCheckOfLists(friends[a], friends[b]);
    }
  }

  /** The records the collector produces never make the scan raise. */
  lemma AnnotatedNeverRaise(friends: seq<Record>, fetch: string -> Collector.Response)
    ensures NeverRaises(Collector.AnnotateAll(friends, fetch))
  {
    var out := Collector.AnnotateAll(friends, fetch);
    forall k | 0 <= k < |out| ensures HasIdList(out[k]) {
      Collector.AnnotatedRecordsShape(friends, fetch, k);
    }
    ListsNeverRaise(out);
  }

  /** A self-loop {n} needs two positions carrying the same id n: a record
      that lists its own id is never compared with itself. */
  lemma SelfLoopNeedsDuplicate(friends: seq<Record>, n: string)
    requires {n} in MutualEdges(friends)
    ensures exists i, j :: 0 <= i < j < |friends| && IdOf(friends[i]) == n && IdOf(friends[j]) == n
  {
    MutualEdgesIff(friends, {n});
    var i, j :| 0 <= i < j < |friends| && IsEdgeAt(friends, i, j) && {n} == PairEdge(friends, i, j);
    assert IdOf(friends[i]) in {n} && IdOf(friends[j]) in {n};
  }

  /** A record with str id `id` and the given `friends_ids` list. */
  function Person(id: string, ids: seq<Json>): (r: Record)
    ensures IdOf(r) == id && HasIdList(r) && IdList(r) == ids
  {
    map["id" := JStr(id), "friends_ids" := JArr(ids)]
  }

  /** An edge set is exactly `edges` when its members are exactly the pairs
      of positions that pass the check. */
  lemma EdgesAre(friends: seq<Record>, edges: set<Edge>)
    requires forall e :: e in edges ==> exists i, j :: 0 <= i < j < |friends| && IsEdgeAt(friends, i, j) && e == PairEdge(friends, i, j)
    requires forall i, j :: 0 <= i < j < |friends| && IsEdgeAt(friends, i, j) ==> PairEdge(friends, i, j) in edges
    ensures MutualEdges(friends) == edges
  {
    forall e ensures e in MutualEdges(friends) <==> e in edges {
      MutualEdgesIff(friends, e);
    }
  }

  /** A lists B, B lists A and C, C lists B: the edges are A-B and B-C, and
      A-C, listed by neither, is not one of them. */
  lemma ChainExample()
    ensures MutualEdges([Person("A", [JStr("B")]), Person("B", [JStr("A"), JStr("C")]), Person("C", [JStr("B")])])
            == {{"A", "B"}, {"B", "C"}}
  {
    var f := [Person("A", [JStr("B")]), Person("B", [JStr("A"), JStr("C")]), Person("C", [JStr("B")])];
    EdgeIffMutual(f, 0, 1);
    EdgeIffMutual(f, 0, 2);
    EdgeIffMutual(f, 1, 2);
    assert PairEdge(f, 0, 1) == {"A", "B"} && PairEdge(f, 1, 2) == {"B", "C"};
    EdgesAre(f, {{"A", "B"}, {"B", "C"}});
  }

  /** A single record listing its own id gets a node but no edge. */
  lemma SelfListingExample()
    ensures MutualEdges([Person("A", [JStr("A")])]) == {}
  {
    EdgesAre([Person("A", [JStr("A")])], {});
  }

  /** Two records with the same id that list it both add the self-loop {A}. */
  lemma DuplicateIdExample()
    ensures MutualEdges([Person("A", [JStr("A")]), Person("A", [JStr("A")])]) == {{"A"}}
  {
    var f := [Person("A", [JStr("A")]), Person("A", [JStr("A")])];
    EdgeIffMutual(f, 0, 1);
    assert PairEdge(f, 0, 1) == {"A"};
    EdgesAre(f, {{"A"}});
  }

  /** Two records with the same id land on one node. */
  lemma DuplicateIdOneNode(friends: seq<Record>)
    requires |friends| == 2 && IdOf(friends[0]) == IdOf(friends[1])
    ensures NodesOf(friends).Keys == {IdOf(friends[0])}
  {
    NodeTableOneId(IdsOf(friends), AttrsOf(friends), IdOf(friends[0]));
  }

  /** A table built from one repeated id has that id as its only key. */
  lemma NodeTableOneId(ids: seq<string>, attrs: seq<Attrs>, id: string)
    requires |ids| == |attrs| && |ids| > 0
    requires forall i :: 0 <= i < |ids| ==> ids[i] == id
    ensures NodeTable(ids, attrs).Keys == {id}
  {
    forall n ensures n in NodeTable(ids, attrs) <==> n == id {
      NodeTableKeys(ids, attrs, n);
    }
  }

  /** Row i raises before column j exactly when some pair (i, b) with b < j raises. */
  lemma {:induction false} RowRaisesIff(friends: seq<Record>, i: nat, j: nat)
    requires i < j <= |friends|
    ensures RowRaises(friends, i, j) <==> exists b :: i < b < j && MutualCheck(friends[i], friends[b]).Raised?
    decreases j
  {
    if j > i + 1 {
      RowRaisesIff(friends, i, j - 1);
    }
  }

  /** A pair that raises makes its row raise. */
  lemma RaiseAbortsRow(friends: seq<Record>, i: nat, j: nat)
    requires i < j < |friends| && MutualCheck(friends[i], friends[j]).Raised?
    ensures RowRaises(friends, i, |friends|)
  {
    RowRaisesIff(friends, i, |friends|);
  }

  /** The scan raises in the rows before i exactly when some pair in them raises. */
  lemma {:induction false} ScanRaisesIff(friends: seq<Record>, i: nat)
    requires i <= |friends|
    ensures ScanRaises(friends, i) <==>
              exists a, b :: 0 <= a < i && a < b < |friends| && MutualCheck(friends[a], friends[b]).Raised?
  {
    if i > 0 {
      ScanRaisesIff(friends, i - 1);
      RowRaisesIff(friends, i - 1, |friends|);
    }
  }

  /** The scan completes exactly when the condition raises for no pair. */
  lemma NeverRaisesIff(friends: seq<Record>)
    ensures NeverRaises(friends) <==> !ScanRaises(friends, |friends|)
  {
    ScanRaisesIff(friends, |friends|);
  }

  /** Every record's id is a node of the table. */
  ghost predicate HasAllIds(nodes: map<string, Attrs>, friends: seq<Record>) {
    forall b :: 0 <= b < |friends| ==> IdOf(friends[b]) in nodes
  }

  /** After the first loop every record's id is a node. */
  lemma NodesOfHasAllIds(friends: seq<Record>)
    ensures HasAllIds(NodesOf(friends), friends)
  {
    forall b | 0 <= b < |friends| ensures IdOf(friends[b]) in NodesOf(friends) {
      NodeOfEveryRecord(friends, b);
    }
  }

  /** One step of the inner loop: evaluate the condition for the pair (i, j)
      and add the edge when it holds. `done` is the edge set before row i. */
  method ScanPair(g: Graph, friends: seq<Record>, i: nat, j: nat, ghost done: set<Edge>) returns (check: Outcome<bool>)
    requires i < j < |friends| && HasAllIds(g.nodes, friends)
    requires g.edges == done + RowEdges(friends, i, j) && !RowRaises(friends, i, j)
    modifies g
    ensures g.nodes == old(g.nodes)
    ensures check.Raised? <==> RowRaises(friends, i, j + 1)
    ensures check.Raised? ==> RowRaises(friends, i, |friends|)
    ensures g.edges == done + RowEdges(friends, i, j + 1)
  {
    check := MutualCheck(friends[i], friends[j]);
    if check == Returned(true) {
      g.AddEdge(IdOf(friends[i]), IdOf(friends[j]));
    }
    if check.Raised? {
      RaiseAbortsRow(friends, i, j);
    }
  }

  /** The inner loop for row i: record i against every later record. `ok`
      is false when the condition raised, which ends the scan. */
  method ScanRow(g: Graph, friends: seq<Record>, i: nat) returns (ok: bool)
    requires i < |friends| && HasAllIds(g.nodes, friends)
    modifies g
    ensures g.nodes == old(g.nodes)
    ensures ok <==> !RowRaises(friends, i, |friends|)
    ensures ok ==> g.edges == old(g.edges) + RowEdges(friends, i, |friends|)
  {
    for j := i + 1 to |friends|
      invariant g.nodes == old(g.nodes)
      invariant g.edges == old(g.edges) + RowEdges(friends, i, j)
      invariant !RowRaises(friends, i, j)
    {
      var check := ScanPair(g, friends, i, j, old(g.edges));
      if check.Raised? {
        return false;
      }
    }
    ok := true;
  }

  /** `create_friends_network_graph(processed_friends)`: the node loop, then
      the scan over positions i < j. `ok` is false when evaluating the
      condition raised, which aborts the build. */
  method CreateFriendsNetworkGraph(friends: seq<Record>) returns (g: Graph, ok: bool)
    ensures fresh(g)
    ensures ok <==> NeverRaises(friends)
    ensures ok ==> g.nodes == NodesOf(friends) && g.edges == MutualEdges(friends)
  {
    g := new Graph();
    AddNodes(g, friends);
    NodesOfHasAllIds(friends);
    for i := 0 to |friends|
      invariant g.nodes == NodesOf(friends)
      invariant g.edges == ScanEdges(friends, i)
      invariant !ScanRaises(friends, i)
    {
      var rowOk := ScanRow(g, friends, i);
      if !rowOk {
        RowRaisesIff(friends, i, |friends|);
        return g, false;
      }
    }
    NeverRaisesIff(friends);
    ok := true;
  }
}
