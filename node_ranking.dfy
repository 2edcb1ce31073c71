/** The two pure helpers of code/utils.py that choose what the drawing shows:
    `find_top_nodes`, the `number` nodes with the largest value and their
    `domain` attribute, and `get_node_labels`, a label per table row. */
module NodeRanking {
  import opened Wrappers
  import opened PyValues

  /** A `(node id, value)` pair of the `values` list. */
  type Entry = (string, real)

  /** Values never increase from left to right. */
  predicate SortedDesc(s: seq<Entry>) {
    forall i, j :: 0 <= i < j < |s| ==> s[i].1 >= s[j].1
  }

  /** The entries with value `v`, in their order in `s`. */
  function WithValue(s: seq<Entry>, v: real): seq<Entry> {
    if s == [] then []
    else if s[0].1 == v then [s[0]] + WithValue(s[1..], v)
    else WithValue(s[1..], v)
  }

  lemma {:induction false} WithValueConcat(a: seq<Entry>, b: seq<Entry>, v: real)
    ensures WithValue(a + b, v) == WithValue(a, v) + WithValue(b, v)
  {
    if a == [] {
      assert a + b == b;
    } else {
      assert (a + b)[0] == a[0] && (a + b)[1..] == a[1..] + b;
      WithValueConcat(a[1..], b, v);
      if a[0].1 == v {
        assert WithValue(a + b, v) == [a[0]] + (WithValue(a[1..], v) + WithValue(b, v));
      }
    }
  }

  lemma {:induction false} WithValueNone(s: seq<Entry>, v: real)
    requires forall i :: 0 <= i < |s| ==> s[i].1 != v
    ensures WithValue(s, v) == []
  {
    if s != [] {
      WithValueNone(s[1..], v);
    }
  }

  /** Puts `x` after every entry whose value is at least its own. */
  function Insert(t: seq<Entry>, x: Entry): (r: seq<Entry>)
    ensures |r| == |t| + 1
  {
    if t == [] then [x]
    else if t[0].1 < x.1 then [x] + t
    else [t[0]] + Insert(t[1..], x)
  }

  /** Inserting adds exactly `x`. */
  lemma {:induction false} InsertPermutes(t: seq<Entry>, x: Entry)
    ensures multiset(Insert(t, x)) == multiset(t) + multiset{x}
  {
    if t != [] && t[0].1 >= x.1 {
      InsertPermutes(t[1..], x);
      assert t == [t[0]] + t[1..];
    }
  }

  /** Inserting into a descending sequence keeps it descending. */
  lemma {:induction false} InsertSorted(t: seq<Entry>, x: Entry)
    requires SortedDesc(t)
    ensures SortedDesc(Insert(t, x))
    ensures Insert(t, x)[0] == x || (t != [] && Insert(t, x)[0] == t[0])
  {
    if t != [] && t[0].1 >= x.1 {
      var rest := Insert(t[1..], x);
      InsertSorted(t[1..], x);
      assert t[0].1 >= rest[0].1;
      forall i, j | 0 <= i < j < |rest| + 1 ensures ([t[0]] + rest)[i].1 >= ([t[0]] + rest)[j].1 {
        if i > 0 {
          assert ([t[0]] + rest)[i] == rest[i - 1];
        }
        assert ([t[0]] + rest)[j] == rest[j - 1];
      }
    }
  }

  /** `sorted(values, key=lambda x: x[1], reverse=True)`: each entry in
      input order is inserted after the entries with at least its value. */
  function SortDesc(s: seq<Entry>): (r: seq<Entry>)
    ensures |r| == |s|
  {
    if s == [] then [] else Insert(SortDesc(s[..|s| - 1]), s[|s| - 1])
  }

  /** The sort is descending and a permutation of its input. */
  lemma {:induction false} SortSortsAndPermutes(s: seq<Entry>)
    ensures SortedDesc(SortDesc(s)) && multiset(SortDesc(s)) == multiset(s)
  {
    if s != [] {
      var n := |s| - 1;
      SortSortsAndPermutes(s[..n]);
      InsertSorted(SortDesc(s[..n]), s[n]);
      InsertPermutes(SortDesc(s[..n]), s[n]);
      assert s == s[..n] + [s[n]];
    }
  }

  lemma {:induction false} InsertStable(t: seq<Entry>, x: Entry, v: real)
    requires SortedDesc(t)
    ensures WithValue(Insert(t, x), v) == WithValue(t, v) + (if x.1 == v then [x] else [])
  {
    if t == [] {
      assert WithValue([x], v) == (if x.1 == v then [x] else []) + WithValue([], v);
    } else if t[0].1 < x.1 {
      assert ([x] + t)[1..] == t;
      if x.1 == v {
        WithValueNone(t, v);
      }
    } else {
      var rest := Insert(t[1..], x);
      InsertStable(t[1..], x, v);
      assert ([t[0]] + rest)[1..] == rest;
    }
  }

  /** The sort is stable: entries with equal values keep their input order. */
  lemma {:induction false} SortStable(s: seq<Entry>, v: real)
    ensures WithValue(SortDesc(s), v) == WithValue(s, v)
  {
    if s != [] {
      var n := |s| - 1;
      SortStable(s[..n], v);
      SortSortsAndPermutes(s[..n]);
      InsertStable(SortDesc(s[..n]), s[n], v);
      assert s == s[..n] + [s[n]];
      WithValueConcat(s[..n], [s[n]], v);
      assert WithValue([s[n]], v) == (if s[n].1 == v then [s[n]] else []) + WithValue([], v);
    }
  }

  /** Two descending orders that agree on the order of equal values are the
      same sequence, so sortedness, permutation and stability fix the result. */
  lemma {:induction false} SortedUnique(a: seq<Entry>, b: seq<Entry>)
    requires SortedDesc(a) && SortedDesc(b)
    requires forall v :: WithValue(a, v) == WithValue(b, v)
    ensures a == b
    decreases |a| + |b|
  {
    if a != [] && b != [] {
      if a[0].1 > b[0].1 {
        WithValueNone(b, a[0].1);
      } else if a[0].1 < b[0].1 {
        WithValueNone(a, b[0].1);
      } else {
        assert WithValue(a, a[0].1)[0] == a[0];
        assert WithValue(b, a[0].1)[0] == b[0];
        forall v ensures WithValue(a[1..], v) == WithValue(b[1..], v) {
          var h := if a[0].1 == v then [a[0]] else [];
          assert WithValue(a, v) == h + WithValue(a[1..], v);
          assert WithValue(b, v) == h + WithValue(b[1..], v);
          assert WithValue(a[1..], v) == WithValue(a, v)[|h|..];
          assert WithValue(b[1..], v) == WithValue(b, v)[|h|..];
        }
        SortedUnique(a[1..], b[1..]);
        assert a == [a[0]] + a[1..] && b == [b[0]] + b[1..];
      }
    } else if a != [] {
      WithValueHead(a);
      assert false;
    } else if b != [] {
      WithValueHead(b);
      assert false;
    }
  }

  /** A non-empty sequence has an entry with its first value. */
  lemma WithValueHead(s: seq<Entry>)
    requires s != []
    ensures WithValue(s, s[0].1) != []
  {
  }

  /** `SortDesc` is the one descending order of its input that keeps equal
      values in input order. */
  lemma SortIsTheStableSort(s: seq<Entry>, b: seq<Entry>)
    requires SortedDesc(b)
    requires forall v :: WithValue(b, v) == WithValue(s, v)
    ensures b == SortDesc(s)
  {
    SortSortsAndPermutes(s);
    forall v ensures WithValue(SortDesc(s), v) == WithValue(b, v) {
      SortStable(s, v);
    }
    SortedUnique(SortDesc(s), b);
  }

  /** `sorted_values[0:number]`. */
  function Top(values: seq<Entry>, number: int): (r: seq<Entry>)
    ensures r <= SortDesc(values)
    ensures number >= 0 ==> |r| <= number
  {
    PrefixSlice(SortDesc(values), number)
  }

  /** The selection holds at most `number` entries for a non-negative
      `number`, every selected value is at least every unselected one, and
      selected and unselected entries together are the input. */
  lemma TopDominates(values: seq<Entry>, number: int)
    ensures number >= 0 ==> |Top(values, number)| <= number
    ensures multiset(Top(values, number)) + multiset(SortDesc(values)[|Top(values, number)|..]) == multiset(values)
    ensures forall i, j :: 0 <= i < |Top(values, number)| && |Top(values, number)| <= j < |values| ==>
              Top(values, number)[i].1 >= SortDesc(values)[j].1
  {
    var r := SortDesc(values);
    var k := |Top(values, number)|;
    SortSortsAndPermutes(values);
    assert r == r[..k] + r[k..];
  }

  /** The node that the dict comprehension looks up for an id. */
  predicate HasDomain(nodes: map<string, map<string, Json>>, id: string) {
    id in nodes && "domain" in nodes[id]
  }

  /** The ids of the selected entries. */
  function IdSet(top: seq<Entry>): (ids: set<string>)
    ensures |ids| <= |top|
  {
    if top == [] then {} else IdSet(top[..|top| - 1]) + {top[|top| - 1].0}
  }

  lemma {:induction false} IdSetIff(top: seq<Entry>, k: string)
    ensures k in IdSet(top) <==> exists i :: 0 <= i < |top| && top[i].0 == k
  {
    if top != [] {
      var n := |top| - 1;
      IdSetIff(top[..n], k);
      assert top == top[..n] + [top[n]];
    }
  }

  /** Every selected id names a node with a `domain` attribute. */
  predicate AllHaveDomain(nodes: map<string, map<string, Json>>, top: seq<Entry>) {
    top == [] || (AllHaveDomain(nodes, top[..|top| - 1]) && HasDomain(nodes, top[|top| - 1].0))
  }

  lemma {:induction false} AllHaveDomainIff(nodes: map<string, map<string, Json>>, top: seq<Entry>)
    ensures AllHaveDomain(nodes, top) <==> forall i :: 0 <= i < |top| ==> HasDomain(nodes, top[i].0)
  {
    if top != [] {
      var n := |top| - 1;
      AllHaveDomainIff(nodes, top[..n]);
      assert forall i :: 0 <= i < n ==> top[..n][i] == top[i];
    }
  }

  /** `{i[0]: g.nodes[i[0]]["domain"] for i in top}`, evaluated from the left;
      a missing node or a missing `domain` attribute raises KeyError. */
  function DomainsOf(nodes: map<string, map<string, Json>>, top: seq<Entry>): (r: Outcome<map<string, Json>>)
    ensures r.Returned? <==> AllHaveDomain(nodes, top)
    ensures r.Returned? ==> r.value.Keys == IdSet(top)
    ensures r.Returned? ==> forall k :: k in r.value ==> HasDomain(nodes, k) && r.value[k] == nodes[k]["domain"]
  {
    if top == [] then Returned(map[])
    else
      var id := top[|top| - 1].0;
      match DomainsOf(nodes, top[..|top| - 1])
      case Raised => Raised
      case Returned(m) => if HasDomain(nodes, id) then Returned(m[id := nodes[id]["domain"]]) else Raised
  }

  /** `find_top_nodes(g, values, number)`. `nodes` is `g.nodes`. */
  function FindTopNodes(nodes: map<string, map<string, Json>>, values: seq<Entry>, number: int): (r: Outcome<map<string, Json>>)
    ensures r.Returned? <==> forall i :: 0 <= i < |Top(values, number)| ==> HasDomain(nodes, Top(values, number)[i].0)
    ensures r.Returned? && number >= 0 ==> |r.value| <= number
    ensures r.Returned? ==> forall k :: k in r.value <==> exists i :: 0 <= i < |Top(values, number)| && Top(values, number)[i].0 == k
    ensures r.Returned? ==> forall k :: k in r.value ==> HasDomain(nodes, k) && r.value[k] == nodes[k]["domain"]
  {
    TopDominates(values, number);
    AllHaveDomainIff(nodes, Top(values, number));
    DomainsOfKeys(nodes, Top(values, number));
    DomainsOf(nodes, Top(values, number))
  }

  lemma DomainsOfKeys(nodes: map<string, map<string, Json>>, top: seq<Entry>)
    ensures DomainsOf(nodes, top).Returned? ==> |DomainsOf(nodes, top).value| <= |top|
    ensures DomainsOf(nodes, top).Returned? ==>
              forall k :: k in DomainsOf(nodes, top).value <==> exists i :: 0 <= i < |top| && top[i].0 == k
  {
    var r := DomainsOf(nodes, top);
    if r.Returned? {
      forall k ensures k in r.value <==> exists i :: 0 <= i < |top| && top[i].0 == k {
        IdSetIff(top, k);
      }
      assert |r.value| == |r.value.Keys| == |IdSet(top)|;
    }
  }

  /** A cell of the label table: a str, or a missing value (a NaN float). */
  datatype Cell = Text(s: string) | NaN

  /** How an f-string placeholder renders a cell. */
  function Render(c: Cell): string {
    match c
    case Text(s) => s
    case NaN => "nan"
  }

  /** A row of the frame: its index key and the first three cells, which
      `label[0]`, `label[1]` and `label[2]` read (first name, last name and
      city where the frame is laid out for drawing). */
  datatype LabelRow = LabelRow(key: int, first: Cell, last: Cell, city: Cell)

  /** The label of one row: `first_last_city` when the city is a str,
      otherwise `first_last`. */
  function Label(row: LabelRow): (s: string)
    ensures Render(row.first) + "_" + Render(row.last) <= s
    ensures row.city.Text? <==> |s| > |Render(row.first) + "_" + Render(row.last)|
    ensures row.city.Text? ==> s[|Render(row.first) + "_" + Render(row.last)|..] == "_" + row.city.s
  {
    var head := Render(row.first) + "_" + Render(row.last);
    if row.city.Text? then
      assert (head + "_" + row.city.s)[|head|..] == "_" + row.city.s;
      head + "_" + row.city.s
    else head
  }

  /** The labels of the given rows, a later row overwriting an earlier one
      with the same key. */
  function LabelsOf(rows: seq<LabelRow>): (m: map<int, string>)
    ensures |m| <= |rows|
  {
    if rows == [] then map[]
    else LabelsOf(rows[..|rows| - 1])[rows[|rows| - 1].key := Label(rows[|rows| - 1])]
  }

  /** `get_node_labels(df, number)`: the rows `df[:number]`, labelled. */
  function NodeLabels(rows: seq<LabelRow>, number: int): (m: map<int, string>)
    ensures |m| <= |rows|
    ensures number >= 0 ==> |m| <= number
    ensures number < 0 ==> |m| <= if |rows| + number > 0 then |rows| + number else 0
  {
    LabelsOf(PrefixSlice(rows, number))
  }

  /** The keys of the rows, in order. */
  function Keys(rows: seq<LabelRow>): (ks: seq<int>)
    ensures |ks| == |rows| && forall i :: 0 <= i < |rows| ==> ks[i] == rows[i].key
  {
    seq(|rows|, i requires 0 <= i < |rows| => rows[i].key)
  }

  /** The last row carrying key `k`. */
  function LastRow(rows: seq<LabelRow>, k: int): (p: nat)
    requires k in Keys(rows)
    ensures p < |rows| && rows[p].key == k
    ensures forall j :: p < j < |rows| ==> rows[j].key != k
  {
    var n := |rows| - 1;
    if rows[n].key == k then n
    else
      assert Keys(rows) == Keys(rows[..n]) + [rows[n].key];
      LastRow(rows[..n], k)
  }

  /** A key has a label exactly when some row carries it, and the label is
      that of the last such row. */
  lemma {:induction false} LabelsOfLastRow(rows: seq<LabelRow>, k: int)
    ensures k in LabelsOf(rows) <==> k in Keys(rows)
    ensures k in Keys(rows) ==> LabelsOf(rows)[k] == Label(rows[LastRow(rows, k)])
  {
    if rows != [] {
      var n := |rows| - 1;
      LabelsOfLastRow(rows[..n], k);
      assert Keys(rows) == Keys(rows[..n]) + [rows[n].key];
    }
  }

  /** With the default `number = -1` the last row gets no label unless its
      key also occurs on an earlier row. */
  lemma DefaultOmitsLastRow(rows: seq<LabelRow>)
    requires rows != []
    requires forall i :: 0 <= i < |rows| - 1 ==> rows[i].key != rows[|rows| - 1].key
    ensures rows[|rows| - 1].key !in NodeLabels(rows, -1)
    ensures |PrefixSlice(rows, -1)| == |rows| - 1
  {
    var slice := PrefixSlice(rows, -1);
    LabelsOfLastRow(slice, rows[|rows| - 1].key);
    assert forall i :: 0 <= i < |slice| ==> Keys(slice)[i] == rows[i].key;
  }

  /** Rows beyond `number` get no label either. */
  lemma NodeLabelsSlice(rows: seq<LabelRow>, number: int, k: int)
    ensures k in NodeLabels(rows, number) <==> exists i :: 0 <= i < |PrefixSlice(rows, number)| && rows[i].key == k
  {
    var slice := PrefixSlice(rows, number);
    LabelsOfLastRow(slice, k);
    assert forall i :: 0 <= i < |slice| ==> slice[i] == rows[i];
    if k in Keys(slice) {
      var i := LastRow(slice, k);
    }
  }
}
