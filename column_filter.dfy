/** The column selection of `create_df_with_param` in scripts/plot_utils.py:
    the list of wanted columns is cleaned of the columns the frame lacks by
    popping them while enumerating the same list, and the frame is then
    indexed with what is left. */
module ColumnFilter {
  import opened Wrappers

  /** The wanted columns, the parameter's own column last. */
  function WantedColumns(parameterName: string): (cs: seq<string>)
    ensures |cs| == 9 && cs[8] == parameterName
  {
    ["vk_id", "name", "domain", "sex", "first_name", "last_name", "university_name", "city_title", parameterName]
  }

  /** What the enumerate-and-pop loop leaves of `s`: a present column is
      kept; an absent one is popped, and the column that shifts into its
      place is kept without being looked at. */
  function SkipFilter(s: seq<string>, present: set<string>): (r: seq<string>)
    ensures |r| <= |s|
  {
    if s == [] then []
    else if s[0] in present then [s[0]] + SkipFilter(s[1..], present)
    else if |s| == 1 then []
    else [s[1]] + SkipFilter(s[2..], present)
  }

  /** The result the loop is bound to reach from `cols` with the enumerate
      index at `i`: the examined prefix, then the skip-filter of the rest.
      Past the end (a pop of the last column) it is `cols` itself. */
  ghost function Pending(cols: seq<string>, i: nat, present: set<string>): seq<string> {
    if i <= |cols| then cols[..i] + SkipFilter(cols[i..], present) else cols
  }

  /** Moving past a present column keeps the pending result. */
  lemma KeepStep(cols: seq<string>, i: nat, present: set<string>)
    requires i < |cols| && cols[i] in present
    ensures Pending(cols, i + 1, present) == Pending(cols, i, present)
  {
    assert cols[..i + 1] == cols[..i] + [cols[i]];
    assert cols[i..][1..] == cols[i + 1..];
  }

  /** Popping an absent column and moving on keeps the pending result. */
  lemma PopStep(cols: seq<string>, i: nat, present: set<string>)
    requires i < |cols| && cols[i] !in present
    ensures Pending(cols[..i] + cols[i + 1..], i + 1, present) == Pending(cols, i, present)
  {
    var next := cols[..i] + cols[i + 1..];
    if i + 1 < |cols| {
      assert next[..i + 1] == cols[..i] + [cols[i + 1]];
      assert next[i + 1..] == cols[i + 2..];
      assert cols[i..][1] == cols[i + 1] && cols[i..][2..] == cols[i + 2..];
    } else {
      assert next == cols[..i];
    }
  }

  /** The loop of scripts/plot_utils.py: `for i, col in enumerate(columns)`
      with `columns.pop(i)` for each column the frame lacks. The enumerate
      index goes on to `i + 1` after a pop, as Python's list iterator does. */
  method PopAbsent(columns: seq<string>, present: set<string>) returns (cols: seq<string>)
    ensures cols == SkipFilter(columns, present)
  {
    cols := columns;
    var i: nat := 0;
    assert cols[..0] + SkipFilter(cols[0..], present) == SkipFilter(columns, present) by {
      assert cols[..0] == [] && cols[0..] == cols;
    }
    while i < |cols|
      invariant i <= |cols| + 1
      invariant Pending(cols, i, present) == SkipFilter(columns, present)
      decreases |cols| + 1 - i
    {
      if cols[i] !in present {
        PopStep(cols, i, present);
        cols := cols[..i] + cols[i + 1..];
      } else {
        KeepStep(cols, i, present);
      }
      i := i + 1;
    }
    if i <= |cols| {
      assert cols[..i] == cols && cols[i..] == [];
    }
  }

  /** `df[columns]`: KeyError when a listed column is not in the frame. */
  function Select(cols: seq<string>, present: set<string>): (r: Outcome<seq<string>>)
    ensures r.Returned? <==> forall i :: 0 <= i < |cols| ==> cols[i] in present
    ensures r.Returned? ==> r.value == cols
  {
    if forall i :: 0 <= i < |cols| ==> cols[i] in present then Returned(cols) else Raised
  }

  /** The columns of the frame `create_df_with_param` returns, as written. */
  function CreateColumns(present: set<string>, parameterName: string): (r: Outcome<seq<string>>)
    ensures (forall i :: 0 <= i < 9 ==> WantedColumns(parameterName)[i] in present) ==>
              r == Returned(WantedColumns(parameterName))
    ensures r.Returned? ==> forall c :: c in r.value ==> c in present
  {
    var w := WantedColumns(parameterName);
    if forall i :: 0 <= i < |w| ==> w[i] in present then
      SkipFilterAllPresent(w, present);
      Select(SkipFilter(w, present), present)
    else Select(SkipFilter(w, present), present)
  }

  /** `t` keeps some of the entries of `s`, in their order. */
  predicate IsSubsequence(t: seq<string>, s: seq<string>)
    decreases |s|
  {
    if s == [] then t == []
    else (t != [] && t[0] == s[0] && IsSubsequence(t[1..], s[1..])) || IsSubsequence(t, s[1..])
  }

  lemma {:induction false} SkipFilterSubsequence(s: seq<string>, present: set<string>)
    ensures IsSubsequence(SkipFilter(s, present), s)
    decreases |s|
  {
    if s != [] {
      if s[0] in present {
        SkipFilterSubsequence(s[1..], present);
        assert SkipFilter(s, present)[1..] == SkipFilter(s[1..], present);
      } else if |s| > 1 {
        SkipFilterSubsequence(s[2..], present);
        var r := SkipFilter(s, present);
        assert r[1..] == SkipFilter(s[2..], present);
        assert s[1..][1..] == s[2..];
        assert IsSubsequence(r, s[1..]);
      }
    }
  }

  /** A column the frame has is never popped. */
  lemma {:induction false} SkipFilterKeepsPresent(s: seq<string>, present: set<string>, c: string)
    requires c in s && c in present
    ensures c in SkipFilter(s, present)
    decreases |s|
  {
    if s[0] != c {
      if s[0] in present {
        SkipFilterKeepsPresent(s[1..], present, c);
      } else if s[1] != c {
        SkipFilterKeepsPresent(s[2..], present, c);
      }
    }
  }

  /** Only absent columns are removed: the columns popped, counted with
      multiplicity, are among the absent ones. */
  lemma {:induction false} SkipFilterRemovesOnlyAbsent(s: seq<string>, present: set<string>)
    ensures multiset(SkipFilter(s, present)) <= multiset(s)
    ensures forall c :: c in present ==> multiset(SkipFilter(s, present))[c] == multiset(s)[c]
    decreases |s|
  {
    if s != [] {
      if s[0] in present {
        SkipFilterRemovesOnlyAbsent(s[1..], present);
        assert s == [s[0]] + s[1..];
      } else if |s| > 1 {
        SkipFilterRemovesOnlyAbsent(s[2..], present);
        assert s == [s[0]] + [s[1]] + s[2..];
      }
    }
  }

  /** With every column present, nothing is popped. */
  lemma {:induction false} SkipFilterAllPresent(s: seq<string>, present: set<string>)
    requires forall i :: 0 <= i < |s| ==> s[i] in present
    ensures SkipFilter(s, present) == s
    decreases |s|
  {
    if s != [] {
      SkipFilterAllPresent(s[1..], present);
      assert s == [s[0]] + s[1..];
    }
  }

  /** The present columns of `s`, in order: what the loop is evidently meant
      to leave. */
  function KeepPresent(s: seq<string>, present: set<string>): (r: seq<string>)
    ensures forall i :: 0 <= i < |r| ==> r[i] in present
    ensures forall c :: c in r <==> c in s && c in present
  {
    if s == [] then []
    else if s[0] in present then [s[0]] + KeepPresent(s[1..], present)
    else KeepPresent(s[1..], present)
  }

  /** The corrected selection never raises and keeps every present column. */
  lemma KeepPresentSelects(s: seq<string>, present: set<string>)
    ensures Select(KeepPresent(s, present), present) == Returned(KeepPresent(s, present))
  {
  }

  /** The corrected `create_df_with_param` columns: the wanted columns the
      frame has, in order, and indexing the frame with them succeeds. */
  function CreateColumnsFixed(present: set<string>, parameterName: string): (r: Outcome<seq<string>>)
    ensures r.Returned?
    ensures IsSubsequence(r.value, WantedColumns(parameterName))
    ensures forall c :: c in r.value <==> c in WantedColumns(parameterName) && c in present
  {
    KeepPresentSubsequence(WantedColumns(parameterName), present);
    Select(KeepPresent(WantedColumns(parameterName), present), present)
  }

  /** The corrected selection is a subsequence of the wanted columns. */
  lemma {:induction false} KeepPresentSubsequence(s: seq<string>, present: set<string>)
    ensures IsSubsequence(KeepPresent(s, present), s)
    decreases |s|
  {
    if s != [] {
      KeepPresentSubsequence(s[1..], present);
      var r := KeepPresent(s, present);
      if s[0] in present {
        assert r[1..] == KeepPresent(s[1..], present);
      }
    }
  }

  /** When no two neighbouring columns are both absent, the loop leaves
      exactly the present columns and `df[columns]` succeeds. */
  lemma {:induction false} SkipFilterNoAdjacentAbsent(s: seq<string>, present: set<string>)
    requires forall i :: 0 <= i < |s| - 1 ==> s[i] in present || s[i + 1] in present
    ensures SkipFilter(s, present) == KeepPresent(s, present)
    decreases |s|
  {
    if s != [] {
      if s[0] in present {
        SkipFilterNoAdjacentAbsent(s[1..], present);
      } else if |s| > 1 {
        SkipFilterNoAdjacentAbsent(s[2..], present);
        assert s[1..][0] == s[1] && s[1..][1..] == s[2..];
      }
    }
  }

  /** A prefix of present columns passes through unchanged. */
  lemma {:induction false} SkipFilterPresentPrefix(a: seq<string>, b: seq<string>, present: set<string>)
    requires forall i :: 0 <= i < |a| ==> a[i] in present
    ensures SkipFilter(a + b, present) == a + SkipFilter(b, present)
    decreases |a|
  {
    if a == [] {
      assert a + b == b;
    } else {
      SkipFilterPresentPrefix(a[1..], b, present);
      assert (a + b)[0] == a[0] && (a + b)[1..] == a[1..] + b;
    }
  }

  /** A frame with neither `university_name` nor `city_title` (two
      neighbours in the list): `city_title` is not popped, so `df[columns]`
      raises KeyError. */
  lemma AdjacentAbsentRaises(parameterName: string)
    requires parameterName !in {"university_name", "city_title"}
    ensures "city_title" in SkipFilter(WantedColumns(parameterName),
              {"vk_id", "name", "domain", "sex", "first_name", "last_name", parameterName})
    ensures CreateColumns({"vk_id", "name", "domain", "sex", "first_name", "last_name", parameterName}, parameterName).Raised?
  {
    var present := {"vk_id", "name", "domain", "sex", "first_name", "last_name", parameterName};
    var w := WantedColumns(parameterName);
    assert w == w[..6] + w[6..];
    SkipFilterPresentPrefix(w[..6], w[6..], present);
    assert w[6..][2..] == [parameterName];
    assert SkipFilter([parameterName], present) == [parameterName];
    assert SkipFilter(w[6..], present) == ["city_title", parameterName];
    assert SkipFilter(w, present)[6] == "city_title";
  }
}
