/**
 * Grouping of the pending table by agent name: each agent's rows are emitted
 * together, agents in order of first appearance, every row carrying the size
 * of its group and a flag on the first row of the group, where the name cell
 * spans the whole group.
 */
module PendingGroups {
  import opened PendingTable

  /** A pending row with `totalTickets`, `_isFirst` and `_rowSpan`. */
  datatype GroupedRow = GroupedRow(row: PendingRow, totalTickets: nat, isFirst: bool, rowSpan: nat)

  /** The distinct names of `rows`, in order of first appearance (`Object.keys` order). */
  function Names(rows: seq<PendingRow>): seq<string> {
    if rows == [] then []
    else
      var init := Names(rows[..|rows| - 1]);
      var n := rows[|rows| - 1].name;
      if n in init then init else init + [n]
  }

  /** The rows named `n`, in input order. */
  function RowsNamed(rows: seq<PendingRow>, n: string): seq<PendingRow> {
    if rows == [] then []
    else
      var r := rows[|rows| - 1];
      RowsNamed(rows[..|rows| - 1], n) + (if r.name == n then [r] else [])
  }

  /** One group with its annotations. */
  function Annotate(g: seq<PendingRow>): (r: seq<GroupedRow>)
    ensures |r| == |g|
  {
    seq(|g|, i requires 0 <= i < |g| => GroupedRow(g[i], |g|, i == 0, |g|))
  }

  /** The groups of the names `ns`, one after another. */
  function Concat(ns: seq<string>, rows: seq<PendingRow>): seq<GroupedRow> {
    if ns == [] then []
    else Concat(ns[..|ns| - 1], rows) + Annotate(RowsNamed(rows, ns[|ns| - 1]))
  }

  /** The grouped table as a value. */
  function Grouped(rows: seq<PendingRow>): seq<GroupedRow> {
    Concat(Names(rows), rows)
  }

  /** `groupedPendingRows`: the rows bucketed by name, then each bucket emitted with its annotations. */
  method GroupPendingRows(rows: seq<PendingRow>) returns (finalRows: seq<GroupedRow>)
    ensures finalRows == Grouped(rows)
  {
    var grouped, keys := BucketRows(rows);
    finalRows := [];
    var k := 0;
    while k < |keys|
      invariant 0 <= k <= |keys|
      invariant finalRows == Concat(keys[..k], rows)
    {
      finalRows := EmitGroup(finalRows, grouped[keys[k]]);
      assert keys[..k + 1][..k] == keys[..k];
      k := k + 1;
    }
    assert keys[..k] == keys;
  }

  /** The `grouped` dictionary: one bucket per name, keys in order of first appearance. */
  method BucketRows(rows: seq<PendingRow>) returns (grouped: map<string, seq<PendingRow>>, keys: seq<string>)
    ensures keys == Names(rows)
    ensures forall n :: n in grouped <==> n in keys
    ensures forall n :: n in grouped ==> grouped[n] == RowsNamed(rows, n)
  {
    grouped, keys := map[], [];
    var i := 0;
    while i < |rows|
      invariant 0 <= i <= |rows|
      invariant keys == Names(rows[..i])
      invariant forall n :: n in grouped <==> n in keys
      invariant forall n :: n in grouped ==> grouped[n] == RowsNamed(rows[..i], n)
    {
      var row := rows[i];
      assert rows[..i + 1][..i] == rows[..i];
      if row.name !in grouped {
        AbsentNameHasNoRows(rows[..i], row.name);
        grouped := grouped[row.name := []];
        keys := keys + [row.name];
      }
      grouped := grouped[row.name := grouped[row.name] + [row]];
      i := i + 1;
    }
    assert rows[..i] == rows;
  }

  /** One bucket appended to the output, each row with the bucket's size and the first one flagged. */
  method EmitGroup(finalRows0: seq<GroupedRow>, group: seq<PendingRow>) returns (finalRows: seq<GroupedRow>)
    ensures finalRows == finalRows0 + Annotate(group)
  {
    finalRows := finalRows0;
    var totalTickets := |group|;
    var j := 0;
    while j < |group|
      invariant 0 <= j <= |group|
      invariant finalRows == finalRows0 + Annotate(group)[..j]
    {
      finalRows := finalRows + [GroupedRow(group[j], totalTickets, j == 0, |group|)];
      j := j + 1;
    }
    assert Annotate(group)[..j] == Annotate(group);
  }

  // ---------------------------------------------------------------------------
  // Helpers about names and groups

  lemma {:induction false} AbsentNameHasNoRows(rows: seq<PendingRow>, n: string)
    requires n !in Names(rows)
    ensures RowsNamed(rows, n) == []
  {
    if rows != [] {
      AbsentNameHasNoRows(rows[..|rows| - 1], n);
    }
  }

  /** The grouped rows whose row is named `n`, in order. */
  function GroupedNamed(g: seq<GroupedRow>, n: string): seq<GroupedRow> {
    if g == [] then []
    else GroupedNamed(g[..|g| - 1], n) + (if g[|g| - 1].row.name == n then [g[|g| - 1]] else [])
  }

  /** The underlying pending rows of grouped rows. */
  function Rows(g: seq<GroupedRow>): (r: seq<PendingRow>)
    ensures |r| == |g|
  {
    seq(|g|, i requires 0 <= i < |g| => g[i].row)
  }

  /** The rows flagged as first of their group. */
  function Firsts(g: seq<GroupedRow>): seq<PendingRow> {
    if g == [] then []
    else Firsts(g[..|g| - 1]) + (if g[|g| - 1].isFirst then [g[|g| - 1].row] else [])
  }

  predicate Distinct(ns: seq<string>) {
    forall i, j :: 0 <= i < j < |ns| ==> ns[i] != ns[j]
  }

  lemma {:induction false} NamesDistinct(rows: seq<PendingRow>)
    ensures Distinct(Names(rows))
    ensures forall n :: n in Names(rows) <==> exists r :: r in rows && r.name == n
  {
    if rows != [] {
      var init := rows[..|rows| - 1];
      NamesDistinct(init);
      assert rows == init + [rows[|rows| - 1]];
    }
  }

  lemma {:induction false} RowsNamedAreNamed(rows: seq<PendingRow>, n: string)
    ensures forall r :: r in RowsNamed(rows, n) ==> r.name == n
  {
    if rows != [] {
      RowsNamedAreNamed(rows[..|rows| - 1], n);
    }
  }

  lemma {:induction false} NoRowsNamed(rows: seq<PendingRow>, n: string)
    requires forall r :: r in rows ==> r.name != n
    ensures RowsNamed(rows, n) == []
  {
    if rows != [] {
      NoRowsNamed(rows[..|rows| - 1], n);
    }
  }

  lemma {:induction false} GroupedNamedAppend(a: seq<GroupedRow>, b: seq<GroupedRow>, n: string)
    ensures GroupedNamed(a + b, n) == GroupedNamed(a, n) + GroupedNamed(b, n)
  {
    if b != [] {
      var init := b[..|b| - 1];
      GroupedNamedAppend(a, init, n);
      assert (a + b)[..|a + b| - 1] == a + init;
    } else {
      assert a + b == a;
    }
  }

  lemma {:induction false} GroupedNamedUniform(g: seq<GroupedRow>, m: string, n: string)
    requires forall i :: 0 <= i < |g| ==> g[i].row.name == m
    ensures GroupedNamed(g, n) == if m == n then g else []
  {
    if g != [] {
      GroupedNamedUniform(g[..|g| - 1], m, n);
    }
  }

  lemma AnnotateNamed(rows: seq<PendingRow>, m: string, n: string)
    ensures GroupedNamed(Annotate(RowsNamed(rows, m)), n) == if m == n then Annotate(RowsNamed(rows, m)) else []
  {
    var g := RowsNamed(rows, m);
    RowsNamedAreNamed(rows, m);
    assert forall i :: 0 <= i < |g| ==> Annotate(g)[i].row.name == m by {
      forall i | 0 <= i < |g| ensures Annotate(g)[i].row.name == m {
        assert g[i] in g;
      }
    }
    GroupedNamedUniform(Annotate(g), m, n);
  }

  lemma {:induction false} ConcatNamed(ns: seq<string>, rows: seq<PendingRow>, n: string)
    requires Distinct(ns)
    ensures GroupedNamed(Concat(ns, rows), n) == if n in ns then Annotate(RowsNamed(rows, n)) else []
  {
    if ns != [] {
      var init := ns[..|ns| - 1];
      var m := ns[|ns| - 1];
      assert ns == init + [m];
      ConcatNamed(init, rows, n);
      GroupedNamedAppend(Concat(init, rows), Annotate(RowsNamed(rows, m)), n);
      AnnotateNamed(rows, m, n);
      if n == m {
        assert n !in init;
      }
    }
  }

  /**
   * Grouping by name: the grouped rows of any one agent are exactly that
   * agent's input rows, in input order, each annotated with the group size,
   * the first of them flagged.
   */
  lemma GroupedPerName(rows: seq<PendingRow>, n: string)
    ensures GroupedNamed(Grouped(rows), n) == Annotate(RowsNamed(rows, n))
  {
    NamesDistinct(rows);
    ConcatNamed(Names(rows), rows, n);
    if n !in Names(rows) {
      AbsentNameHasNoRows(rows, n);
    }
  }

  // ---------------------------------------------------------------------------
  // Grouping neither adds nor drops rows

  /** The rows of the names `ns`, as a multiset. */
  function NamedMultiset(ns: seq<string>, rows: seq<PendingRow>): multiset<PendingRow> {
    if ns == [] then multiset{}
    else NamedMultiset(ns[..|ns| - 1], rows) + multiset(RowsNamed(rows, ns[|ns| - 1]))
  }

  lemma {:induction false} ConcatRows(ns: seq<string>, rows: seq<PendingRow>)
    ensures multiset(Rows(Concat(ns, rows))) == NamedMultiset(ns, rows)
  {
    if ns != [] {
      var init := ns[..|ns| - 1];
      var a := Concat(init, rows);
      var b := Annotate(RowsNamed(rows, ns[|ns| - 1]));
      ConcatRows(init, rows);
      assert Rows(a + b) == Rows(a) + Rows(b);
      assert Rows(b) == RowsNamed(rows, ns[|ns| - 1]);
    }
  }

  lemma {:induction false} NamedMultisetAppend(ns: seq<string>, rows: seq<PendingRow>, r: PendingRow)
    requires Distinct(ns)
    ensures NamedMultiset(ns, rows + [r]) == NamedMultiset(ns, rows) + (if r.name in ns then multiset{r} else multiset{})
  {
    if ns != [] {
      var init := ns[..|ns| - 1];
      var m := ns[|ns| - 1];
      assert ns == init + [m];
      NamedMultisetAppend(init, rows, r);
      assert (rows + [r])[..|rows + [r]| - 1] == rows;
      if r.name == m {
        assert r.name !in init;
      }
    }
  }

  lemma {:induction false} NamesCover(rows: seq<PendingRow>)
    ensures multiset(rows) == NamedMultiset(Names(rows), rows)
  {
    if rows != [] {
      var init := rows[..|rows| - 1];
      var r := rows[|rows| - 1];
      var ns := Names(init);
      assert rows == init + [r];
      NamesCover(init);
      NamesDistinct(init);
      NamedMultisetAppend(ns, init, r);
      if r.name in ns {
        assert Names(rows) == ns;
      } else {
        assert Names(rows) == ns + [r.name];
        AbsentNameHasNoRows(init, r.name);
        assert RowsNamed(rows, r.name) == [r];
        assert NamedMultiset(ns + [r.name], rows) == NamedMultiset(ns, rows) + multiset{r} by {
          assert (ns + [r.name])[..|ns|] == ns;
        }
      }
    }
  }

  /** Each input row appears exactly once in the grouped table, so their counts agree. */
  lemma GroupedIsPermutation(rows: seq<PendingRow>)
    ensures multiset(Rows(Grouped(rows))) == multiset(rows)
    ensures |Grouped(rows)| == |rows|
  {
    ConcatRows(Names(rows), rows);
    NamesCover(rows);
    assert |multiset(Rows(Grouped(rows)))| == |multiset(rows)|;
  }

  // ---------------------------------------------------------------------------
  // Group sizes, first-row flags and contiguity

  lemma {:induction false} ConcatSpans(ns: seq<string>, rows: seq<PendingRow>)
    ensures forall k :: 0 <= k < |Concat(ns, rows)| ==>
      var g := Concat(ns, rows)[k];
      g.totalTickets == g.rowSpan == |RowsNamed(rows, g.row.name)| && g.row.name in ns
  {
    if ns != [] {
      var init := ns[..|ns| - 1];
      var m := ns[|ns| - 1];
      var a := Concat(init, rows);
      var b := Annotate(RowsNamed(rows, m));
      var c: seq<GroupedRow> := a + b;
      ConcatSpans(init, rows);
      RowsNamedAreNamed(rows, m);
      forall k | 0 <= k < |c|
        ensures c[k].totalTickets == c[k].rowSpan == |RowsNamed(rows, c[k].row.name)|
        ensures c[k].row.name in ns
      {
        if k >= |a| {
          assert RowsNamed(rows, m)[k - |a|] in RowsNamed(rows, m);
        } else {
          assert a[k].row.name in init;
        }
      }
    }
  }

  /**
   * Every grouped row carries the number of input rows of its agent, both as
   * `totalTickets` and as the span of the merged name cell.
   */
  lemma GroupSizes(rows: seq<PendingRow>)
    ensures forall k :: 0 <= k < |Grouped(rows)| ==>
      Grouped(rows)[k].totalTickets == Grouped(rows)[k].rowSpan == |RowsNamed(rows, Grouped(rows)[k].row.name)|
  {
    ConcatSpans(Names(rows), rows);
  }

  lemma {:induction false} FirstsOfAnnotate(g: seq<GroupedRow>)
    requires forall i :: 0 <= i < |g| ==> (g[i].isFirst <==> i == 0)
    ensures Firsts(g) == if g == [] then [] else [g[0].row]
  {
    if g != [] {
      FirstsOfAnnotate(g[..|g| - 1]);
    }
  }

  lemma {:induction false} FirstRowNamed(rows: seq<PendingRow>, n: string, i: nat)
    requires i < |rows| && rows[i].name == n
    requires forall j :: 0 <= j < i ==> rows[j].name != n
    ensures RowsNamed(rows, n) != [] && RowsNamed(rows, n)[0] == rows[i]
  {
    var init := rows[..|rows| - 1];
    if i == |rows| - 1 {
      NoRowsNamed(init, n);
    } else {
      FirstRowNamed(init, n, i);
    }
  }

  /**
   * Exactly one grouped row of each agent is flagged first, and it is the
   * agent's first row in input order; an agent without rows has no group.
   */
  lemma OneFirstPerName(rows: seq<PendingRow>, n: string)
    ensures forall i :: 0 <= i < |rows| && rows[i].name == n && (forall j :: 0 <= j < i ==> rows[j].name != n) ==>
      Firsts(GroupedNamed(Grouped(rows), n)) == [rows[i]]
    ensures (forall r :: r in rows ==> r.name != n) ==> GroupedNamed(Grouped(rows), n) == []
  {
    GroupedPerName(rows, n);
    var g := Annotate(RowsNamed(rows, n));
    FirstsOfAnnotate(g);
    forall i | 0 <= i < |rows| && rows[i].name == n && (forall j :: 0 <= j < i ==> rows[j].name != n)
      ensures Firsts(GroupedNamed(Grouped(rows), n)) == [rows[i]]
    {
      FirstRowNamed(rows, n, i);
    }
    if forall r :: r in rows ==> r.name != n {
      NoRowsNamed(rows, n);
    }
  }

  lemma {:induction false} ConcatContiguous(ns: seq<string>, rows: seq<PendingRow>)
    requires Distinct(ns)
    ensures forall k1, k2, k3 :: (0 <= k1 < k2 < k3 < |Concat(ns, rows)|
      && Concat(ns, rows)[k1].row.name == Concat(ns, rows)[k3].row.name
      ==> Concat(ns, rows)[k2].row.name == Concat(ns, rows)[k1].row.name)
  {
    if ns != [] {
      var init := ns[..|ns| - 1];
      var m := ns[|ns| - 1];
      var a := Concat(init, rows);
      var b := Annotate(RowsNamed(rows, m));
      var c: seq<GroupedRow> := a + b;
      ConcatContiguous(init, rows);
      ConcatSpans(init, rows);
      RowsNamedAreNamed(rows, m);
      assert m !in init by {
        assert ns == init + [m];
      }
      forall k | |a| <= k < |c| ensures c[k].row.name == m {
        assert RowsNamed(rows, m)[k - |a|] in RowsNamed(rows, m);
      }
      forall k | 0 <= k < |a| ensures c[k].row.name != m {
        assert a[k].row.name in init;
      }
    }
  }

  /** Each agent's rows form one unbroken run, so the merged name cell covers them all. */
  lemma GroupsContiguous(rows: seq<PendingRow>)
    ensures forall k1, k2, k3 :: (0 <= k1 < k2 < k3 < |Grouped(rows)|
      && Grouped(rows)[k1].row.name == Grouped(rows)[k3].row.name
      ==> Grouped(rows)[k2].row.name == Grouped(rows)[k1].row.name)
  {
    NamesDistinct(rows);
    ConcatContiguous(Names(rows), rows);
  }
}
