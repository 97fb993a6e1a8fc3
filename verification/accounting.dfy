/** Run accounting: the per-category move counts (`moved_files`), their
    increment after a successful move, and the summary `show_summary`
    reports — the counts in sorted category order and their total. */
module Accounting {
  import opened Text

  /** Some key of a non-empty map. */
  ghost function Pick(m: map<string, nat>): (k: string)
    requires m != map[]
    ensures k in m
  {
    var k :| k in m; k
  }

  /** The sum of all counts in `m`, independent of any order. */
  ghost function Total(m: map<string, nat>): nat
    decreases |m|
  {
    if m == map[] then 0
    else
      var k := Pick(m);
      assert |m - {k}| < |m| by {
        assert m.Keys == (m - {k}).Keys + {k};
      }
      m[k] + Total(m - {k})
  }

  /** Any key can be taken out first. */
  lemma {:induction false} TotalRemove(m: map<string, nat>, k: string)
    requires k in m
    ensures Total(m) == m[k] + Total(m - {k})
    decreases |m|
  {
    var p := Pick(m);
    if p != k {
      assert m.Keys == (m - {p}).Keys + {p};
      TotalRemove(m - {p}, k);
      assert m - {k} - {p} == m - {p} - {k};
      assert (m - {k}).Keys == (m - {k} - {p}).Keys + {p};
      TotalRemove(m - {k}, p);
    }
  }

  /** `moved.get(category, 0)`: how many files went into `category`. */
  function Count(m: map<string, nat>, category: string): nat
  {
    if category in m then m[category] else 0
  }

  /** `moved[category] += 1`, creating the entry at 0 first when missing. */
  function Increment(m: map<string, nat>, category: string): (r: map<string, nat>)
    ensures r.Keys == m.Keys + {category}
    ensures category in m ==> r[category] == m[category] + 1
    ensures category !in m ==> r[category] == 1
    ensures forall k :: k in m && k != category ==> r[k] == m[k]
    ensures Total(r) == Total(m) + 1
  {
    var r := m[category := (if category in m then m[category] else 0) + 1];
    TotalUpdate(m, category, r[category]);
    r
  }

  /** Setting one key changes the total by the difference at that key. */
  lemma TotalUpdate(m: map<string, nat>, k: string, v: nat)
    ensures Total(m[k := v]) == Total(m) - (if k in m then m[k] else 0) + v
  {
    var r := m[k := v];
    TotalRemove(r, k);
    if k in m {
      TotalRemove(m, k);
      assert r - {k} == m - {k};
    } else {
      assert r - {k} == m;
    }
  }

  /** One summary line: a category and how many files went into it. */
  datatype Row = Row(category: string, count: nat)

  /** What `show_summary` reports: one row per category that received a
      file, in sorted order, the total of the counts and the error count. */
  datatype Summary = Summary(rows: seq<Row>, total: nat, errors: nat)

  /** The least key of a non-empty set in Python's string order. */
  method Least(keys: set<string>) returns (m: string)
    requires keys != {}
    ensures m in keys
    ensures forall k :: k in keys ==> Below(m, k)
  {
    m :| m in keys;
    BelowReflexive(m);
    var rest := keys - {m};
    while rest != {}
      invariant m in keys && rest <= keys
      invariant forall k :: k in keys - rest ==> Below(m, k)
      decreases rest
    {
      var x :| x in rest;
      if !Below(m, x) {
        BelowTotal(m, x);
        forall k | k in keys - rest
          ensures Below(x, k)
        {
          BelowTransitive(x, m, k);
        }
        BelowReflexive(x);
        m := x;
      }
      rest := rest - {x};
    }
  }

  /** Each name occurs at most once. */
  predicate Distinct(names: seq<string>)
  {
    forall i, j :: 0 <= i < j < |names| ==> names[i] != names[j]
  }

  /** Strictly increasing in Python's string order. */
  predicate StrictlySorted(names: seq<string>)
  {
    Distinct(names) && forall i, j :: 0 <= i < j < |names| ==> Below(names[i], names[j])
  }

  /** `sorted(keys)`: the keys in increasing order, each once. */
  method SortedKeys(keys: set<string>) returns (names: seq<string>)
    ensures StrictlySorted(names)
    ensures forall k :: k in keys <==> k in names
  {
    names := [];
    var remaining := keys;
    while remaining != {}
      invariant remaining <= keys
      invariant forall k :: k in keys <==> k in names || k in remaining
      invariant forall i :: 0 <= i < |names| ==> names[i] !in remaining
      invariant StrictlySorted(names)
      invariant forall i, k :: 0 <= i < |names| && k in remaining ==> Below(names[i], k)
      decreases remaining
    {
      var least := Least(remaining);
      names := names + [least];
      remaining := remaining - {least};
    }
  }

  /** The counts of `names`, added up in list order. */
  function SumOver(names: seq<string>, m: map<string, nat>): nat
    requires forall i :: 0 <= i < |names| ==> names[i] in m
  {
    if |names| == 0 then 0 else SumOver(names[..|names| - 1], m) + m[names[|names| - 1]]
  }

  /** The sum over a list only reads the counts of its members. */
  lemma {:induction false} SumOverFrame(names: seq<string>, m1: map<string, nat>, m2: map<string, nat>)
    requires forall i :: 0 <= i < |names| ==> names[i] in m1 && names[i] in m2 && m1[names[i]] == m2[names[i]]
    ensures SumOver(names, m1) == SumOver(names, m2)
  {
    if |names| > 0 {
      SumOverFrame(names[..|names| - 1], m1, m2);
    }
  }

  /** Adding the counts over a list that names every key once gives the
      total, whatever the list's order. */
  lemma {:induction false} SumOverTotal(names: seq<string>, m: map<string, nat>)
    requires Distinct(names)
    requires forall k :: k in m <==> k in names
    ensures SumOver(names, m) == Total(m)
  {
    if |names| == 0 {
      assert m == map[];
    } else {
      var x := names[|names| - 1];
      var prefix := names[..|names| - 1];
      var rest := m - {x};
      assert forall k :: k in rest <==> k in prefix by {
        assert forall k :: k in names <==> k in prefix || k == x;
      }
      SumOverTotal(prefix, rest);
      SumOverFrame(prefix, m, rest);
      TotalRemove(m, x);
    }
  }

  /** Rows made from a sorted list of all the keys are sorted, cover every
      key once and carry its count. */
  lemma RowsFromSortedKeys(names: seq<string>, moved: map<string, nat>, rows: seq<Row>)
    requires StrictlySorted(names)
    requires forall k :: k in moved <==> k in names
    requires |rows| == |names|
    requires forall i :: 0 <= i < |names| ==> rows[i] == Row(names[i], moved[names[i]])
    ensures forall i, j :: 0 <= i < j < |rows| ==>
      Below(rows[i].category, rows[j].category) && rows[i].category != rows[j].category
    ensures forall i :: 0 <= i < |rows| ==> rows[i].category in moved && rows[i].count == moved[rows[i].category]
    ensures forall k :: k in moved ==> exists i :: 0 <= i < |rows| && rows[i].category == k
  {
    forall i, j | 0 <= i < j < |rows|
      ensures Below(rows[i].category, rows[j].category) && rows[i].category != rows[j].category
    {
      assert rows[i].category == names[i] && rows[j].category == names[j];
    }
    forall k | k in moved
      ensures exists i :: 0 <= i < |rows| && rows[i].category == k
    {
      var i :| 0 <= i < |names| && names[i] == k;
      assert rows[i].category == k;
    }
  }

  /** `show_summary`: walk the categories in sorted order, list each count and
      add it to the total. */
  method ShowSummary(moved: map<string, nat>, errors: nat) returns (s: Summary)
    ensures forall i, j :: 0 <= i < j < |s.rows| ==>
      Below(s.rows[i].category, s.rows[j].category) && s.rows[i].category != s.rows[j].category
    ensures forall i :: 0 <= i < |s.rows| ==> s.rows[i].category in moved && s.rows[i].count == moved[s.rows[i].category]
    ensures forall k :: k in moved ==> exists i :: 0 <= i < |s.rows| && s.rows[i].category == k
    ensures s.total == Total(moved)
    ensures s.errors == errors
  {
    var names := SortedKeys(moved.Keys);
    var rows: seq<Row> := [];
    var total := 0;
    for n := 0 to |names|
      invariant |rows| == n
      invariant forall i :: 0 <= i < n ==> rows[i] == Row(names[i], moved[names[i]])
      invariant total == SumOver(names[..n], moved)
    {
      var category := names[n];
      assert names[..n + 1][..n] == names[..n];
      rows := rows + [Row(category, moved[category])];
      total := total + moved[category];
    }
    assert names[..|names|] == names;
    SumOverTotal(names, moved);
    RowsFromSortedKeys(names, moved, rows);
    s := Summary(rows, total, errors);
  }
}
