# VK friend network: a verified model of its core

This project models the data path of a small VK social-network analysis tool in Dafny:

- **Collecting friends.** `fetch_friends` turns a VK API response into friend records. `fetch_friends_of_each_friend` attaches to every friend the list of ids of that friend's own friends and its count. A friend whose fetch raises is skipped.
- **Building the graph.** `create_friends_network_graph` builds an undirected graph.
  - There is one node per friend id. This is the string form of the `id` field, with the display name and the two name attributes.
  - There is an edge between two friends when each one lists the other.
- **Comparing graphs.** `calculate_difference` compares a real graph with a random model. There are two versions:
  - one compares degree histograms;
  - one compares largest-component diameters.
  - Both compare the clustering and the average shortest path. The path is compared only when both graphs are connected.
- **Summary text.** `graph_summary` returns a text with the node and edge counts.
- **Drawing helpers.**
  - `find_top_nodes` picks the `number` highest-valued nodes with a stable descending sort and looks up their `domain`.
  - `get_node_labels` labels the rows of `df[:number]`, one label per row key. With the default `number = -1` the last row is left out, and a key repeated in the rows keeps the label of its last row.
  - The column selection in `create_df_with_param` pops the columns the frame lacks while enumerating the list.

**Modules:**
- `Wrappers`: `Option` and `Outcome`. `Outcome.Raised` stands for a Python exception.
- `Decimal`: `str()` of an int.
- `PyValues`:
  - decoded JSON values;
  - `str()` of them;
  - Python's `in`;
  - slicing with a possibly negative stop.
- `Records`: `dict.get`.
- `Collector`: the two fetch functions. The HTTP call becomes a `fetch` parameter from a user id to a response.
- `FriendsGraph`:
  - the graph as a class with `nodes` and `edges` fields;
  - the builder as a method with the original nested loops;
  - the specification functions the builder is proved against.
- `Differences`, `Analysis` and `ScriptAnalysis`: the two `calculate_difference` versions and `graph_summary`.
- `NodeRanking`: `find_top_nodes` and `get_node_labels`.
- `ColumnFilter`: the pop-while-enumerating loop.

**Where the code and its description differ, the model follows the code:**
- **Missing name attributes.** A missing `first_name` or `last_name` is stored on the node as `None`. It is not dropped.
- **Self-loops.** The builder never compares a friend with itself, so a single self-listing adds no edge. Two records with the same id that list that id do produce a self-loop. See `SelfLoopNeedsDuplicate` and `DuplicateIdExample`.
- **Friends lists.** A `friends_ids` that is a string is tested by substring. A dict is tested by key. Any other non-list raises. The builder raises only on such records, and `NeverRaisesIff` and `CreateFriendsNetworkGraph` state when.
- **Duplicate ids.** The last record with a given id fixes the node's attributes.
- **Sorting.** `sorted` is modelled as insertion of each entry after all entries with a value at least its own. Its result is proved to be the only stable descending order (`SortIsTheStableSort`), so it is the result Python's sort gives.

## Model

| member | source | states |
|---|---|---|
| `Decimal.NatToString` | code/get_friends.py:157 | `str()` of a natural number is a non-empty digit string, with at least two digits exactly from 10 up |
| `Decimal.IntToString` | code/get_friends.py:157 | `str()` of an int starts with `-` exactly for negative numbers and is all digits otherwise |
| `Decimal.ParseNatToString` | code/get_friends.py:157 | reading the decimal text of `n` back gives `n` |
| `Decimal.IntToStringInjective` | code/get_friends.py:168-169 | distinct integer ids give distinct node names |
| `PyValues.PyStr` | code/get_friends.py:157 | `str(x)` of a str is itself, of an int its decimal text, of `None` the text `None` |
| `PyValues.IsSubstringAt` | code/get_friends.py:171 | `in` on two strings holds exactly when the first occurs at some offset of the second |
| `PyValues.Member` | code/get_friends.py:171-172 | `in` on a list tests element equality, on a dict key presence, on a str substring, and raises TypeError on None, int and bool |
| `PyValues.PrefixSlice` | code/utils.py:13 | `s[0:stop]` is a prefix of `s` of length `min(stop, len)`, or `len + stop` clipped at 0 for a negative stop |
| `Records.Get` | code/get_friends.py:77-98 | `d.get(k)` is the stored value, or `None` for a missing key |
| `Records.GetOr` | code/get_friends.py:158 | `d.get(k, default)` is the stored value, or the default for a missing key |
| `Records.IdOf` | code/get_friends.py:125 | `str(friend.get('id'))` is `None` without an `id` key, the str itself for a str id, and the decimal text for an int id |
| `Records.DisplayName` | code/get_friends.py:126 | the display name starts with `Unknown ` without `first_name`, ends with ` Unknown` without `last_name`, and is `first last` for two str names |
| `Records.DisplayNameCases` | code/get_friends.py:158 | the display name is `Unknown Unknown` without name keys, `first last` for two str names, and starts with `None ` for a stored `None` first name |
| `Collector.Iterate` | code/get_friends.py:100 | iterating a list gives its items, and whatever is iterated yields only values found inside the iterated value |
| `Collector.FriendRecord` | code/get_friends.py:76-99 | a friend record has exactly the 22 listed keys, and its `id` is the item's `id` or `None` |
| `Collector.RecordsOf` | code/get_friends.py:75-101 | the comprehension returns exactly when every item is a dict, and then gives, per item in order, the record of the 22 listed fields read with `.get` |
| `Collector.FromEnvelope` | code/get_friends.py:69-101 | an `error` envelope gives [], a non-dict raises, a dict without `error` and `response` gives [], and an item list gives one record per item |
| `Collector.FetchFriends` | code/get_friends.py:62-67 | a body that is not JSON gives [], a transport failure raises, and a JSON body is read as an envelope |
| `Collector.FetchedRecordsHaveIds` | code/get_friends.py:79 | every fetched record has an `id` key |
| `Collector.FriendIds` | code/get_friends.py:132 | `friends_ids` has one entry per fetched friend, the str of its id |
| `Collector.Annotate` | code/get_friends.py:131-133 | the copy keeps every other field, adds `friends_ids` and `friends_count`, and the count is the length of the id list |
| `Collector.KeptAscending` | code/get_friends.py:124-137 | the indices of the friends kept are in range and strictly increasing |
| `Collector.KeptIffNotRaised` | code/get_friends.py:129-137 | a friend is kept exactly when fetching its friends does not raise |
| `Collector.AnnotateAll` | code/get_friends.py:122-141 | the loop never adds more records than there are friends |
| `Collector.AnnotateAllStep` | code/get_friends.py:124-137 | one more friend appends exactly that friend's annotation, or nothing when its fetch raises |
| `Collector.AnnotateOneKept` | code/get_friends.py:129-134 | a friend whose fetch does not raise appends exactly one record |
| `Collector.AnnotateAllAtKept` | code/get_friends.py:124-137 | the k-th processed record is the annotation of the k-th kept friend |
| `Collector.AnnotateAllSelects` | code/get_friends.py:122-141 | the result is, in input order, the annotation of exactly the friends whose fetch does not raise |
| `Collector.AnnotateAllKeepsAll` | code/get_friends.py:124-134 | when no fetch raises, every friend is annotated in order |
| `Collector.AnnotatedRecordsShape` | code/get_friends.py:132-133 | every processed record has a list of str ids as `friends_ids` and its length as `friends_count` |
| `Collector.FetchFriendsOfEachFriend` | code/get_friends.py:116-141 | the loop method returns the primary fetch's exception, [] for no friends, and otherwise the annotation of every friend whose fetch does not raise |
| `FriendsGraph.NodeAdded` | code/get_friends.py:159-164 | adding a node adds its key; a new node gets the given attributes, an existing one has them overwritten and keeps its others; other nodes are unchanged |
| `FriendsGraph.Graph.constructor` | code/get_friends.py:154 | a new graph has no nodes and no edges |
| `FriendsGraph.Graph.AddNode` | code/get_friends.py:159-164 | `add_node` sets the node's attributes and leaves the edges unchanged |
| `FriendsGraph.Graph.AddEdge` | code/get_friends.py:173 | `add_edge` adds the unordered pair and creates missing endpoint nodes without attributes |
| `FriendsGraph.WithNode` | code/get_friends.py:173 | `add_edge` creates a missing endpoint with no attributes and leaves an existing node and all other nodes unchanged |
| `FriendsGraph.Graph.NumberOfNodes` | code/utils_for_analysis.py:10 | `number_of_nodes()` is 0 exactly for a graph without nodes |
| `FriendsGraph.Graph.NumberOfEdges` | code/utils_for_analysis.py:10 | `number_of_edges()` is 0 exactly for a graph without edges |
| `FriendsGraph.NodeAttrsOf` | code/get_friends.py:158-164 | a node carries exactly `name`, `first_name` and `last_name` |
| `FriendsGraph.NodeTableKeys` | code/get_friends.py:156-164 | the node table has a key exactly for each id added |
| `FriendsGraph.NodeTableLastWins` | code/get_friends.py:156-164 | a node's attributes are those of the last record with its id |
| `FriendsGraph.NodeIff` | code/get_friends.py:156-164 | the graph has node `n` exactly when some record's id is `n` |
| `FriendsGraph.NodeTableSize` | code/get_friends.py:156-164 | the node table has no more nodes than ids were added |
| `FriendsGraph.NodesOfSize` | code/get_friends.py:156-164 | the graph has at most one node per record |
| `FriendsGraph.NodesOfKeys` | code/get_friends.py:156-164 | the node set is the set of the records' ids |
| `FriendsGraph.NodeOfEveryRecord` | code/get_friends.py:156-157 | every record's id is a node |
| `FriendsGraph.NodesOfLastWins` | code/get_friends.py:156-164 | every node's attributes come from the last record with its id, and are always the three name attributes |
| `FriendsGraph.AddTable` | code/get_friends.py:156-164 | the node loop leaves the graph holding exactly the node table of the ids and attributes, with no edges |
| `FriendsGraph.AddNodes` | code/get_friends.py:156-164 | the first loop gives the graph the nodes of the records and no edges |
| `FriendsGraph.Listed` | code/get_friends.py:171-172 | `s in r.get('friends_ids', [])` is False without the key, list membership for a list, and raises exactly for None, bool and int |
| `FriendsGraph.MutualCheck` | code/get_friends.py:171-172 | the `and` holds exactly when both memberships hold, and raises exactly when the first raises or the first holds and the second raises |
| `FriendsGraph.MutualEdges` | code/get_friends.py:166-173 | no or one record gives no edge |
| `FriendsGraph.EdgeEndpoints` | code/get_friends.py:166-173 | every edge is the pair of two records at positions `i < j` |
| `FriendsGraph.RowEdgesIff` | code/get_friends.py:167-173 | one row of the inner loop adds exactly the pairs of record `i` with a later mutual record |
| `FriendsGraph.ScanEdgesIff` | code/get_friends.py:166-173 | the first `i` rows add exactly the edges of the mutual pairs whose first member is among them |
| `FriendsGraph.MutualEdgesIff` | code/get_friends.py:166-173 | the edges are exactly the pairs of records at positions `a < b` that list each other |
| `FriendsGraph.EdgesWithinNodes` | code/get_friends.py:166-173 | every edge has one or two endpoints and both are nodes of the graph |
| `FriendsGraph.MutualCheckOfLists` | code/get_friends.py:171-172 | for records with id lists the condition is list membership in both directions |
| `FriendsGraph.EdgeIffMutual` | code/get_friends.py:171-173 | for records with id lists an edge is added exactly when each lists the other's id, and the test never raises |
| `FriendsGraph.ListsNeverRaise` | code/get_friends.py:171-172 | records whose `friends_ids` are lists never make the builder raise |
| `FriendsGraph.AnnotatedNeverRaise` | code/get_friends.py:132 | records produced by `fetch_friends_of_each_friend` never make the builder raise |
| `FriendsGraph.SelfLoopNeedsDuplicate` | code/get_friends.py:166-173 | a self-loop needs two records with the same id |
| `FriendsGraph.EdgesAre` | code/get_friends.py:166-173 | a set holding an edge for each mutual pair and none other is the edge set |
| `FriendsGraph.ChainExample` | code/get_friends.py:166-173 | A–B and B–C list each other and A does not list C, so there are exactly two edges |
| `FriendsGraph.SelfListingExample` | code/get_friends.py:167 | a single record listing itself gives no edge |
| `FriendsGraph.DuplicateIdExample` | code/get_friends.py:166-173 | two records with id A that list A give a self-loop on A |
| `FriendsGraph.DuplicateIdOneNode` | code/get_friends.py:156-164 | any two records with the same id give one node |
| `FriendsGraph.NodeTableOneId` | code/get_friends.py:156-164 | adding one id any number of times gives a table with that id as its only key |
| `FriendsGraph.RowRaisesIff` | code/get_friends.py:167-173 | a row raises exactly when some pair in it raises |
| `FriendsGraph.RaiseAbortsRow` | code/get_friends.py:167-173 | a raising pair makes its whole row count as raising |
| `FriendsGraph.ScanRaisesIff` | code/get_friends.py:166-173 | the first `i` rows raise exactly when some pair starting among them raises |
| `FriendsGraph.NeverRaisesIff` | code/get_friends.py:166-173 | the builder finishes exactly when no pair's condition raises |
| `FriendsGraph.NodesOfHasAllIds` | code/get_friends.py:156-157 | after the node loop, every record's id is a node |
| `FriendsGraph.ScanPair` | code/get_friends.py:168-173 | one inner step adds the pair's edge when the ids are mutual, leaves the nodes alone, and reports a raise exactly when the row raises |
| `FriendsGraph.ScanRow` | code/get_friends.py:167-173 | a row of the inner loop finishes exactly when none of its pairs raises, and then adds exactly that row's edges |
| `FriendsGraph.CreateFriendsNetworkGraph` | code/get_friends.py:144-175 | the builder succeeds exactly when no pair's condition raises, and then the graph holds the records' nodes and the mutual-pair edges |
| `Differences.IntAbs` | scripts/utils_for_analysis.py:96 | `abs` of an int is the value or its negation, never negative |
| `Differences.RealAbs` | code/utils_for_analysis.py:120 | `abs` of a float is the value or its negation, never negative |
| `Differences.PathDiff` | code/utils_for_analysis.py:121-123 | the path difference is 0 when either side is the not-connected sentinel, and otherwise the distance of the averages |
| `Differences.PathDiffSymmetric` | code/utils_for_analysis.py:121-123 | the path difference does not depend on the order of the two sides |
| `Differences.PathDiffZeroIff` | code/utils_for_analysis.py:121-123 | the path difference is 0 exactly when a side is not connected or the averages agree |
| `Differences.RealAbsDiff` | code/utils_for_analysis.py:120 | `abs(a - b)` is symmetric and 0 exactly for equal values |
| `Differences.IntAbsDiff` | scripts/utils_for_analysis.py:96 | `abs(a - b)` of ints is symmetric and 0 exactly for equal values |
| `Analysis.HistogramOf` | code/utils_for_analysis.py:76-77 | the Counter is empty exactly for a graph without nodes |
| `Analysis.HistogramCounts` | code/utils_for_analysis.py:76-77 | the Counter has a key exactly for each degree that occurs, and its count is that degree's multiplicity |
| `Analysis.HistogramTotal` | code/utils_for_analysis.py:76-77 | the counts add up to the number of nodes |
| `Analysis.HistogramPositive` | code/utils_for_analysis.py:77 | every stored count is positive |
| `Analysis.DegreeDiff` | code/utils_for_analysis.py:119 | the sum of squared count differences is never negative |
| `Analysis.DegreeDiffZero` | code/utils_for_analysis.py:119 | the squared-count difference is never negative, and is 0 exactly when every degree has the same count on both sides |
| `Analysis.DegreeDiffSymmetric` | code/utils_for_analysis.py:119 | the degree difference does not depend on the order of the two sides |
| `Analysis.EqualCounts` | code/utils_for_analysis.py:119 | for Counters without zero counts, `.get(deg, 0)` agrees everywhere exactly when the Counters are equal |
| `Analysis.DegreeDiffZeroIff` | code/utils_for_analysis.py:76-77 | the degree difference of two degree lists is 0 exactly when their Counters are equal, which holds exactly when the lists hold the same degrees with the same multiplicity |
| `Analysis.CalculateDifference` | code/utils_for_analysis.py:118-124 | all three differences are non-negative, and each is 0 exactly when its property agrees (the path also when a side is not connected) |
| `Analysis.CalculateDifferenceSymmetric` | code/utils_for_analysis.py:118-124 | swapping the real graph and the model gives the same triple |
| `Analysis.SummaryText` | code/utils_for_analysis.py:10 | the summary starts with its fixed heading and holds at least one digit for each count |
| `Analysis.GraphSummary` | code/utils_for_analysis.py:9-10 | the summary text determines the graph's node and edge counts: reading it back gives both |
| `Analysis.SummaryParses` | code/utils_for_analysis.py:9-10 | the summary of any two counts reads back as those counts |
| `ScriptAnalysis.CalculateDifference` | scripts/utils_for_analysis.py:95-101 | the diameter difference is the distance of the diameters, the clustering difference its distance, and the path difference 0 unless both sides are connected |
| `ScriptAnalysis.CalculateDifferenceSymmetric` | scripts/utils_for_analysis.py:95-101 | swapping the two sides gives the same triple |
| `ScriptAnalysis.CalculateDifferenceSelf` | scripts/utils_for_analysis.py:95-101 | a graph compared with itself gives zeros, connected or not |
| `ScriptAnalysis.CalculateDifferenceZeroIff` | scripts/utils_for_analysis.py:95-101 | the triple is all zeros exactly when the diameters and clustering agree and the paths agree or a side is not connected |
| `NodeRanking.WithValueConcat` | code/utils.py:11 | the entries with a given value in a concatenation are those of each part, in order |
| `NodeRanking.Insert` | code/utils.py:11 | inserting adds one entry |
| `NodeRanking.SortDesc` | code/utils.py:11 | the sorted list has the input's length |
| `NodeRanking.InsertPermutes` | code/utils.py:11 | inserting adds exactly the new entry |
| `NodeRanking.InsertSorted` | code/utils.py:11 | inserting into a descending sequence keeps it descending |
| `NodeRanking.SortSortsAndPermutes` | code/utils.py:11 | the sorted list is descending by value and a permutation of the input |
| `NodeRanking.InsertStable` | code/utils.py:11 | inserting puts the new entry after all earlier entries of equal value |
| `NodeRanking.SortStable` | code/utils.py:11 | entries of equal value keep their input order |
| `NodeRanking.SortedUnique` | code/utils.py:11 | two descending sequences with the same entries of each value in the same order are equal |
| `NodeRanking.SortIsTheStableSort` | code/utils.py:11 | any descending order of the input that keeps equal values in input order is the sorted list |
| `NodeRanking.Top` | code/utils.py:13 | `sorted_values[0:number]` is a prefix of the sorted list with at most `number` entries |
| `NodeRanking.TopDominates` | code/utils.py:11-13 | at most `number` entries are chosen; each is valued at least as high as every entry left out; chosen plus left out is the input |
| `NodeRanking.IdSetIff` | code/utils.py:13 | the ids of the chosen entries are exactly their first components |
| `NodeRanking.AllHaveDomainIff` | code/utils.py:13 | every chosen id has a node with a `domain` exactly when each position does |
| `NodeRanking.DomainsOf` | code/utils.py:13 | the comprehension raises KeyError exactly when a chosen id has no node or no `domain`; otherwise its keys are the chosen ids and each value is that node's `domain` |
| `NodeRanking.DomainsOfKeys` | code/utils.py:13 | the result has no more entries than chosen entries, and a key exactly for each chosen id |
| `NodeRanking.FindTopNodes` | code/utils.py:9-14 | `find_top_nodes` succeeds exactly when every top id has a `domain`; it maps the top ids, at most `number` of them, to their domains |
| `NodeRanking.Label` | code/utils.py:60 | a label is `first_last`, extended by `_city` exactly when the city cell is a str |
| `NodeRanking.LabelsOf` | code/utils.py:59-61 | the label dict has at most one entry per row |
| `NodeRanking.NodeLabels` | code/utils.py:58-61 | at most `number` labels for `number >= 0`, and for a negative `number` at most the rows left after dropping `-number` from the end |
| `NodeRanking.LabelsOfLastRow` | code/utils.py:59-60 | a key has a label exactly when some row carries it, namely the label of the last such row |
| `NodeRanking.DefaultOmitsLastRow` | code/utils.py:58-59 | with the default `number = -1` the last row is dropped, and its key gets no label unless an earlier row has it |
| `NodeRanking.NodeLabelsSlice` | code/utils.py:59 | only rows within `df[:number]` give labels |
| `ColumnFilter.WantedColumns` | scripts/plot_utils.py:37 | nine wanted columns, the parameter's column last |
| `ColumnFilter.SkipFilter` | scripts/plot_utils.py:38-40 | what the enumerate-and-pop loop leaves is never longer than the list |
| `ColumnFilter.KeepStep` | scripts/plot_utils.py:39 | passing a present column keeps the result the loop is bound to reach |
| `ColumnFilter.PopStep` | scripts/plot_utils.py:40 | popping an absent column and moving the index on keeps the result the loop is bound to reach |
| `ColumnFilter.PopAbsent` | scripts/plot_utils.py:37-41 | the loop leaves exactly the skip-filter of the wanted columns: the column after each popped one is never examined |
| `ColumnFilter.Select` | scripts/plot_utils.py:42 | `df[columns]` succeeds exactly when every listed column is in the frame |
| `ColumnFilter.CreateColumns` | scripts/plot_utils.py:37-42 | with every wanted column present the frame keeps all nine in order, and a returned selection holds only columns of the frame |
| `ColumnFilter.SkipFilterSubsequence` | scripts/plot_utils.py:37-41 | the remaining columns are a subsequence of the wanted list, in order |
| `ColumnFilter.SkipFilterKeepsPresent` | scripts/plot_utils.py:39-40 | a column the frame has is never popped |
| `ColumnFilter.SkipFilterRemovesOnlyAbsent` | scripts/plot_utils.py:39-40 | the remaining columns are among the wanted ones, and columns the frame has keep their full count |
| `ColumnFilter.SkipFilterAllPresent` | scripts/plot_utils.py:38-40 | with every column present, the list is unchanged |
| `ColumnFilter.SkipFilterPresentPrefix` | scripts/plot_utils.py:38-40 | a run of present columns passes through the loop unchanged |
| `ColumnFilter.SkipFilterNoAdjacentAbsent` | scripts/plot_utils.py:38-42 | when no two neighbouring columns are both absent, the loop leaves exactly the present columns |
| `ColumnFilter.AdjacentAbsentRaises` | scripts/plot_utils.py:37-42 | a frame without `university_name` and `city_title` keeps `city_title` in the list, so `df[columns]` raises KeyError |
| `ColumnFilter.KeepPresent` | scripts/plot_utils.py:37-42 | the corrected filter keeps exactly the wanted columns that the frame has |
| `ColumnFilter.KeepPresentSubsequence` | scripts/plot_utils.py:37-41 | the corrected filter's result is a subsequence of the wanted list |
| `ColumnFilter.KeepPresentSelects` | scripts/plot_utils.py:42 | indexing the frame with the corrected columns never raises |
| `ColumnFilter.CreateColumnsFixed` | scripts/plot_utils.py:37-42 | the corrected column selection always succeeds, with the present wanted columns in their order |

## Left out

- The OAuth flow is I/O: `get_access_token` opens a browser and reads the token with `input()`.
- The HTTP GET is not modelled. `fetch` is a function parameter from an id to a response, so it is deterministic.
- `time.sleep` and every `print` are left out. Neither changes the data.
- Saving the JSON and GML files, the `main` of code/get_friends.py and its environment variables are I/O.
- The networkx algorithms are not modelled. This covers degree, clustering, shortest paths, connectivity, diameter, the largest component and the random graph generators. Their results are inputs to the model: the degree list, the clustering value, the path-length average or sentinel, and the diameter.
- The string rule for the path sentinel is not modelled. Its Russian text is replaced by the `NotConnected` case, so a graph is compared as "not connected" exactly when that sentinel would appear.
- The `powerlaw` fit, `np.mean`, `round`, all plotting and all pandas frame construction, merging and sorting are left out.
- Floats are modelled as exact reals, so rounding and NaN arithmetic are not modelled. The one NaN that matters, a label cell's missing city, is the `NaN` cell.
- `PyValues.PyStr`: for a list or dict value it gives a fixed marker instead of Python's full `repr`. Python str escapes are not modelled either. Dafny maps keep no insertion order to print.
- `Collector.Iterate`: iterating a str, dict or scalar is reduced to which values it can yield, not to their exact sequence.
- The non-empty-parameter branch of `create_df_with_param` in code/utils.py is not modelled. It raises NameError on the undefined `df_degree` (code/utils.py:42), so its copy of the column loop (lines 46-51) never runs. The loop is modelled from scripts/plot_utils.py.
- The first `get_node_labels` of scripts/plot_utils.py (lines 48-53) is left out. It is replaced by the later definition in the same file.
- `draw_graph` is not modelled. It passes a dict `parameter` to `find_top_nodes`, where sorting would iterate the dict's keys. `NodeRanking.FindTopNodes` models `values` as a list of `(id, value)` pairs, the shape the sort key `x[1]` reads.
- `NodeRanking.LabelsOf`: a row key repeated in the frame index is modelled as the later row overwriting the earlier one. pandas' warning for non-unique columns in `to_dict` is not modelled.
- `PyValues.Json` has no float case. Fractional fields of a VK response, such as `timezone`, are outside the model.
- `FriendsGraph.NodesOf`: the node table is a map, so it keeps no insertion order. The rows of `pd.DataFrame(g.nodes.values())` (code/utils.py:37) follow that order, and so does which row `get_node_labels` drops by default. `NodeRanking.NodeLabels` takes the rows as an input sequence instead.
- Label rows are modelled by their first three cells, taken by position. Which columns these are depends on how the caller lays out the frame.

## Findings

| source | as written | input that shows it | evidently intended | confidence | as-written member | corrected member |
|---|---|---|---|---|---|---|
| scripts/plot_utils.py:38-42 | `columns.pop(i)` inside `for i, col in enumerate(columns)` shifts the next column into position `i`, and the loop moves on to `i + 1` without examining it | a frame with neither `university_name` nor `city_title`: `city_title` stays in `columns` and `df[columns]` raises KeyError | drop every wanted column the frame lacks, keeping the rest in order | high (proved on the model; not executed) | `ColumnFilter.AdjacentAbsentRaises` | `ColumnFilter.CreateColumnsFixed` |
