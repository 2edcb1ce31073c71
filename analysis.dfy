/** The arithmetic of code/utils_for_analysis.py: the degree histogram of
    `get_model_properties`, the model comparison of `calculate_difference`
    and the text of `graph_summary`. */
module Analysis {
  import opened Wrappers
  import opened Decimal
  import opened Differences
  import FriendsGraph

  /** `Counter(degrees)`: each degree that occurs, mapped to how often. */
  type Histogram = map<nat, nat>

  /** `counter.get(d, 0)`. */
  function Count(h: Histogram, d: nat): nat {
    if d in h then h[d] else 0
  }

  /** `Counter(degrees)`, counting the list from the left. */
  function HistogramOf(degrees: seq<nat>): (h: Histogram)
    ensures degrees == [] <==> h == map[]
  {
    if degrees == [] then map[]
    else
      var h := HistogramOf(degrees[..|degrees| - 1]);
      var d := degrees[|degrees| - 1];
      h[d := Count(h, d) + 1]
  }

  /** The sum of `f` over a finite set, in any order. */
  ghost function SumOver(ks: set<nat>, f: nat -> int): int
    decreases ks
  {
    if ks == {} then 0 else var k :| k in ks; f(k) + SumOver(ks - {k}, f)
  }

  /** The counts of a histogram, added up. */
  ghost function Total(h: Histogram): int {
    SumOver(h.Keys, (d: nat) => Count(h, d))
  }

  /** A sum may take out any element first. */
  lemma {:induction false} SumOverRemove(ks: set<nat>, f: nat -> int, k: nat)
    requires k in ks
    ensures SumOver(ks, f) == f(k) + SumOver(ks - {k}, f)
    decreases ks
  {
    var j :| j in ks && SumOver(ks, f) == f(j) + SumOver(ks - {j}, f);
    if j != k {
      SumOverRemove(ks - {j}, f, k);
      SumOverRemove(ks - {k}, f, j);
      assert ks - {j} - {k} == ks - {k} - {j};
    }
  }

  /** Sums of functions that agree on the set are equal. */
  lemma {:induction false} SumOverCongruent(ks: set<nat>, f: nat -> int, g: nat -> int)
    requires forall k :: k in ks ==> f(k) == g(k)
    ensures SumOver(ks, f) == SumOver(ks, g)
    decreases ks
  {
    if ks != {} {
      var k :| k in ks && SumOver(ks, f) == f(k) + SumOver(ks - {k}, f);
      SumOverRemove(ks, g, k);
      SumOverCongruent(ks - {k}, f, g);
    }
  }

  /** A sum of non-negative terms is non-negative, and it is 0 exactly when
      every term is. */
  lemma {:induction false} SumOverNonNegative(ks: set<nat>, f: nat -> int)
    requires forall k :: k in ks ==> f(k) >= 0
    ensures SumOver(ks, f) >= 0
    ensures SumOver(ks, f) == 0 <==> forall k :: k in ks ==> f(k) == 0
    decreases ks
  {
    if ks != {} {
      var k :| k in ks && SumOver(ks, f) == f(k) + SumOver(ks - {k}, f);
      SumOverNonNegative(ks - {k}, f);
    }
  }

  /** A degree is a key exactly when it occurs, and its count is its number
      of occurrences. */
  lemma {:induction false} HistogramCounts(degrees: seq<nat>, d: nat)
    ensures d in HistogramOf(degrees) <==> d in degrees
    ensures Count(HistogramOf(degrees), d) == multiset(degrees)[d]
  {
    if degrees != [] {
      var n := |degrees| - 1;
      HistogramCounts(degrees[..n], d);
      assert degrees == degrees[..n] + [degrees[n]];
    }
  }

  /** The counts add up to the number of degrees, i.e. of nodes. */
  lemma {:induction false} HistogramTotal(degrees: seq<nat>)
    ensures Total(HistogramOf(degrees)) == |degrees|
  {
    if degrees != [] {
      var n := |degrees| - 1;
      var h := HistogramOf(degrees[..n]);
      var d := degrees[n];
      var h' := HistogramOf(degrees);
      HistogramTotal(degrees[..n]);
      SumOverCongruent(h.Keys - {d}, (d': nat) => Count(h', d'), (d': nat) => Count(h, d'));
      if d in h {
        SumOverRemove(h'.Keys, (d': nat) => Count(h', d'), d);
        SumOverRemove(h.Keys, (d': nat) => Count(h, d'), d);
      } else {
        assert h'.Keys - {d} == h.Keys - {d} == h.Keys;
        SumOverRemove(h'.Keys, (d': nat) => Count(h', d'), d);
      }
    }
  }

  /** Every count in a histogram is positive. */
  lemma {:induction false} HistogramPositive(degrees: seq<nat>)
    ensures forall d :: d in HistogramOf(degrees) ==> HistogramOf(degrees)[d] > 0
  {
    if degrees != [] {
      HistogramPositive(degrees[..|degrees| - 1]);
    }
  }

  function Square(x: int): nat {
    x * x
  }

  /** `degree_diff`: the squared count differences over the degrees of both
      histograms, a degree missing on one side counting 0 there. */
  ghost function DegreeDiff(real_: Histogram, model: Histogram): (r: int)
    ensures r >= 0
  {
    var f := (d: nat) => Square(Count(real_, d) - Count(model, d));
    SumOverNonNegative(real_.Keys + model.Keys, f);
    SumOver(real_.Keys + model.Keys, f)
  }

  /** `degree_diff` is non-negative, and 0 exactly when every degree has
      the same count on both sides. */
  lemma DegreeDiffZero(a: Histogram, b: Histogram)
    ensures DegreeDiff(a, b) >= 0
    ensures DegreeDiff(a, b) == 0 <==> forall d :: Count(a, d) == Count(b, d)
  {
    var ks := a.Keys + b.Keys;
    var f := (d: nat) => Square(Count(a, d) - Count(b, d));
    SumOverNonNegative(ks, f);
    forall d: nat ensures f(d) == 0 <==> Count(a, d) == Count(b, d) {
      SquareZero(Count(a, d) - Count(b, d));
    }
    if forall d :: d in ks ==> f(d) == 0 {
      forall d: nat ensures Count(a, d) == Count(b, d) {
        if d in ks {
          assert f(d) == 0;
        }
      }
    }
  }

  lemma SquareZero(x: int)
    ensures Square(x) == 0 <==> x == 0
  {
    if x != 0 {
      if x > 0 {
        assert x * x >= x;
      } else {
        assert x * x >= -x;
      }
    }
  }

  /** `degree_diff` does not depend on which side is the real graph. */
  lemma DegreeDiffSymmetric(a: Histogram, b: Histogram)
    ensures DegreeDiff(a, b) == DegreeDiff(b, a)
  {
    assert a.Keys + b.Keys == b.Keys + a.Keys;
    SumOverCongruent(a.Keys + b.Keys, (d: nat) => Square(Count(a, d) - Count(b, d)),
                     (d: nat) => Square(Count(b, d) - Count(a, d)));
  }

  /** Two histograms whose counts are positive are equal exactly when they
      agree on every degree's count. */
  lemma EqualCounts(a: Histogram, b: Histogram)
    requires forall d :: d in a ==> a[d] > 0
    requires forall d :: d in b ==> b[d] > 0
    ensures (forall d :: Count(a, d) == Count(b, d)) <==> a == b
  {
    if forall d :: Count(a, d) == Count(b, d) {
      forall d ensures d in a <==> d in b {
        assert Count(a, d) == Count(b, d);
      }
      forall d | d in a ensures a[d] == b[d] {
        assert Count(a, d) == Count(b, d);
      }
    }
  }

  /** For the degree lists of two graphs, `degree_diff` is 0 exactly when
      their histograms are equal, i.e. when the lists are permutations of
      each other. */
  lemma DegreeDiffZeroIff(x: seq<nat>, y: seq<nat>)
    ensures DegreeDiff(HistogramOf(x), HistogramOf(y)) == 0 <==> HistogramOf(x) == HistogramOf(y)
    ensures HistogramOf(x) == HistogramOf(y) <==> multiset(x) == multiset(y)
  {
    var a, b := HistogramOf(x), HistogramOf(y);
    DegreeDiffZero(a, b);
    HistogramPositive(x);
    HistogramPositive(y);
    EqualCounts(a, b);
    if a == b {
      forall d ensures multiset(x)[d] == multiset(y)[d] {
        HistogramCounts(x, d);
        HistogramCounts(y, d);
      }
    }
    if multiset(x) == multiset(y) {
      forall d: nat ensures Count(a, d) == Count(b, d) {
        HistogramCounts(x, d);
        HistogramCounts(y, d);
      }
    }
  }

  /** What `get_model_properties` returns: the degree histogram, the
      average clustering coefficient and the average shortest path. */
  datatype ModelProps = ModelProps(degreeCounts: Histogram, clustering: real, avgPath: AvgPath)

  /** `calculate_difference(real_props, model_props)`. */
  ghost function CalculateDifference(real_: ModelProps, model: ModelProps): (r: (int, real, real))
    ensures r.0 >= 0 && r.1 >= 0.0 && r.2 >= 0.0
    ensures r.0 == 0 <==> forall d :: Count(real_.degreeCounts, d) == Count(model.degreeCounts, d)
    ensures r.1 == 0.0 <==> real_.clustering == model.clustering
    ensures r.2 == 0.0 <==> real_.avgPath.NotConnected? || model.avgPath.NotConnected? || real_.avgPath.avg == model.avgPath.avg
  {
    DegreeDiffZero(real_.degreeCounts, model.degreeCounts);
    (DegreeDiff(real_.degreeCounts, model.degreeCounts),
     RealAbs(real_.clustering - model.clustering),
     PathDiff(real_.avgPath, model.avgPath))
  }

  /** All three differences are symmetric in the two sides. */
  lemma CalculateDifferenceSymmetric(a: ModelProps, b: ModelProps)
    ensures CalculateDifference(a, b) == CalculateDifference(b, a)
  {
    DegreeDiffSymmetric(a.degreeCounts, b.degreeCounts);
  }

  const SummaryHead := "Graph Summary:\n- Number of nodes: "
  const EdgesHead := "\n- Number of edges: "

  /** The text of `graph_summary` for the given counts. */
  function SummaryText(nodes: nat, edges: nat): (s: string)
    ensures SummaryHead <= s
    ensures |s| >= |SummaryHead| + |EdgesHead| + 2
  {
    SummaryHead + NatToString(nodes) + EdgesHead + NatToString(edges)
  }

  /** `graph_summary(graph)`. */
  function GraphSummary(g: FriendsGraph.Graph): (s: string)
    reads g
    ensures ParseSummary(s) == Some((g.NumberOfNodes(), g.NumberOfEdges()))
  {
    SummaryParses(g.NumberOfNodes(), g.NumberOfEdges());
    SummaryText(g.NumberOfNodes(), g.NumberOfEdges())
  }

  /** The length of the longest prefix of `s` made of digits. */
  function DigitRun(s: string): (k: nat)
    ensures k <= |s| && AllDigits(s[..k])
    ensures k < |s| ==> !IsDigit(s[k])
  {
    if s == [] || !IsDigit(s[0]) then 0
    else
      var k := DigitRun(s[1..]);
      assert s[..k + 1] == [s[0]] + s[1..][..k];
      k + 1
  }

  /** Reads the two counts back out of a summary text. */
  function ParseSummary(s: string): Option<(nat, nat)> {
    if !(SummaryHead <= s) then None
    else
      var rest := s[|SummaryHead|..];
      var k := DigitRun(rest);
      var tail := rest[k..];
      if k == 0 || !(EdgesHead <= tail) then None
      else
        var digits := tail[|EdgesHead|..];
        if digits == [] || !AllDigits(digits) then None
        else Some((ParseDigits(rest[..k]), ParseDigits(digits)))
  }

  /** The digit run of a rendering stops where a non-digit follows it. */
  lemma {:induction false} DigitRunOf(d: string, t: string)
    requires AllDigits(d) && (t == [] || !IsDigit(t[0]))
    ensures DigitRun(d + t) == |d|
  {
    if d != [] {
      assert (d + t)[1..] == d[1..] + t;
      DigitRunOf(d[1..], t);
    }
  }

  /** The summary carries exactly the two counts: parsing it gives them back. */
  lemma SummaryParses(nodes: nat, edges: nat)
    ensures ParseSummary(SummaryText(nodes, edges)) == Some((nodes, edges))
  {
    var s := SummaryText(nodes, edges);
    var n, m := NatToString(nodes), NatToString(edges);
    assert s[|SummaryHead|..] == n + (EdgesHead + m);
    DigitRunOf(n, EdgesHead + m);
    assert (n + (EdgesHead + m))[..|n|] == n;
    assert (n + (EdgesHead + m))[|n|..] == EdgesHead + m;
    assert (EdgesHead + m)[|EdgesHead|..] == m;
    ParseNatToString(nodes);
    ParseNatToString(edges);
  }
}
