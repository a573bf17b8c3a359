/**
 The snapshot of an exported table at a frontier: the diffs before the frontier are sorted, merged where they concern
 the same row, and the rows that remain are returned.
 */
module ExportedTable {
  import opened Values
  import opened Collections
  import opened Sorting
  import opened Offsets

  type Row = (Key, seq<Value>)

  datatype DataRow = DataRow(key: Key, values: seq<Value>, time: nat, diff: int)

  /** An order of value lists. */
  type ValuesOrder = (seq<Value>, seq<Value>) -> bool

  /** Rows by key, then by values. */
  predicate RowLe(le: ValuesOrder, a: Row, b: Row) {
    a.0 < b.0 || (a.0 == b.0 && le(a.1, b.1))
  }

  predicate DiffLe(le: ValuesOrder, a: (Row, int), b: (Row, int)) {
    RowLe(le, a.0, b.0)
  }

  predicate RowLt(le: ValuesOrder, a: Row, b: Row) {
    RowLe(le, a, b) && a != b
  }

  /** Strictly increasing, hence without duplicates. */
  predicate Increasing(le: ValuesOrder, rows: seq<Row>) {
    forall i, j :: 0 <= i < j < |rows| ==> RowLt(le, rows[i], rows[j])
  }

  /** The diffs at times before the frontier. */
  function Done(data: seq<DataRow>, frontier: TotalFrontier): Coll<Row> {
    if data == [] then []
    else Done(data[..|data| - 1], frontier) +
         (if frontier.IsTimeDone(data[|data| - 1].time)
          then [((data[|data| - 1].key, data[|data| - 1].values), data[|data| - 1].diff)] else [])
  }

  ghost predicate AllUnit(data: seq<DataRow>, frontier: TotalFrontier) {
    forall x :: Count(Done(data, frontier), x) == 0 || Count(Done(data, frontier), x) == 1
  }

  /** The result: a panic unless all totals are 0 or 1, and then the rows of total 1 in increasing order. */
  ghost predicate IsSnapshot(le: ValuesOrder, data: seq<DataRow>, frontier: TotalFrontier, r: Option<seq<Row>>) {
    && (r.Some? <==> AllUnit(data, frontier))
    && (r.Some? ==> Increasing(le, r.value) && forall x :: x in r.value <==> Count(Done(data, frontier), x) == 1)
  }

  // ---------------------------------------------------------------- merging

  /** Rows of strictly increasing order, each with its total. */
  ghost predicate Merged(le: ValuesOrder, kept: Coll<Row>) {
    forall i, j :: 0 <= i < j < |kept| ==> RowLt(le, kept[i].0, kept[j].0)
  }

  lemma RowOrder(le: ValuesOrder)
    requires TotalOrder(le)
    ensures TotalPreorder((a: (Row, int), b: (Row, int)) => DiffLe(le, a, b))
    ensures TotalOrder((a: Row, b: Row) => RowLe(le, a, b))
  {}

  /** In a merged list the total of a row is its only diff. */
  lemma {:induction false} MergedCount(le: ValuesOrder, kept: Coll<Row>, i: nat)
    requires Merged(le, kept) && i < |kept|
    ensures Count(kept, kept[i].0) == kept[i].1
  {
    if i == 0 {
      MergedAbsent(kept[1..], kept[0].0);
    } else {
      MergedCount(le, kept[1..], i - 1);
    }
  }

  lemma {:induction false} MergedAbsent(kept: Coll<Row>, x: Row)
    requires forall i :: 0 <= i < |kept| ==> kept[i].0 != x
    ensures Count(kept, x) == 0
  {
    if kept != [] {
      MergedAbsent(kept[1..], x);
    }
  }

  lemma CountAddLast(kept: Coll<Row>, diff: int, x: Row)
    requires kept != []
    ensures var n := |kept| - 1;
            Count(kept[n := (kept[n].0, kept[n].1 + diff)], x) == Count(kept, x) + if kept[n].0 == x then diff else 0
  {
    var n := |kept| - 1;
    var last := kept[n];
    CountConcat(kept[..n], [last], x);
    CountConcat(kept[..n], [(last.0, last.1 + diff)], x);
    assert kept == kept[..n] + [last];
    assert kept[n := (last.0, last.1 + diff)] == kept[..n] + [(last.0, last.1 + diff)];
  }

  /** `dedup_by` with merging: each row is compared with the last one kept. */
  method Dedup(le: ValuesOrder, sorted: Coll<Row>) returns (kept: Coll<Row>)
    requires TotalOrder(le) && forall i, j :: 0 <= i < j < |sorted| ==> RowLe(le, sorted[i].0, sorted[j].0)
    ensures Merged(le, kept) && forall x :: Count(kept, x) == Count(sorted, x)
  {
    RowOrder(le);
    kept := [];
    for n := 0 to |sorted|
      invariant Merged(le, kept) && (forall x :: Count(kept, x) == Count(sorted[..n], x))
      invariant kept == [] <==> n == 0
      invariant n > 0 ==> kept[|kept| - 1].0 == sorted[n - 1].0
    {
      var row := sorted[n];
      ghost var before := kept;
      if n > 0 && row.0 == kept[|kept| - 1].0 {
        forall x ensures Count(kept[|kept| - 1 := (kept[|kept| - 1].0, kept[|kept| - 1].1 + row.1)], x) ==
                         Count(kept, x) + if row.0 == x then row.1 else 0 {
          CountAddLast(kept, row.1, x);
        }
        kept := kept[|kept| - 1 := (kept[|kept| - 1].0, kept[|kept| - 1].1 + row.1)];
      } else {
        MergedSnoc(le, kept, row);
        forall x ensures Count(kept + [row], x) == Count(kept, x) + if row.0 == x then row.1 else 0 {
          CountConcat(kept, [row], x);
        }
        kept := kept + [row];
      }
      assert sorted[..n + 1] == sorted[..n] + [row];
      forall x ensures Count(kept, x) == Count(sorted[..n + 1], x) {
        CountConcat(sorted[..n], [row], x);
      }
    }
    assert sorted[..|sorted|] == sorted;
  }

  lemma MergedSnoc(le: ValuesOrder, kept: Coll<Row>, next: (Row, int))
    requires TotalOrder(le) && Merged(le, kept)
    requires kept != [] ==> RowLt(le, kept[|kept| - 1].0, next.0)
    ensures Merged(le, kept + [next])
  {
    RowOrder(le);
  }

  // ---------------------------------------------------------------- the snapshot

  /** The rows of a merged list whose totals are not zero. */
  ghost predicate Selected(kept: Coll<Row>, n: nat, out: seq<Row>) {
    && n <= |kept|
    && (forall x :: x in out ==> (x, 1) in kept[..n])
    && (forall j :: 0 <= j < n ==> kept[j].1 == 0 || (kept[j].1 == 1 && kept[j].0 in out))
  }

  /** The final `filter_map`; `None` stands for the failed assertion. */
  method Select(le: ValuesOrder, kept: Coll<Row>) returns (r: Option<seq<Row>>)
    requires TotalOrder(le) && Merged(le, kept)
    ensures r.Some? <==> forall i :: 0 <= i < |kept| ==> kept[i].1 == 0 || kept[i].1 == 1
    ensures r.Some? ==> Increasing(le, r.value) && Selected(kept, |kept|, r.value)
  {
    var out: seq<Row> := [];
    for n := 0 to |kept|
      invariant Selected(kept, n, out) && Increasing(le, out)
      invariant forall i :: 0 <= i < |out| && n < |kept| ==> RowLt(le, out[i], kept[n].0)
    {
      if kept[n].1 != 0 {
        if kept[n].1 != 1 {
          return None;
        }
        out := out + [kept[n].0];
        assert kept[n].0 in out;
      }
      assert kept[..n + 1] == kept[..n] + [kept[n]];
      forall i | 0 <= i < |out| && n + 1 < |kept| ensures RowLt(le, out[i], kept[n + 1].0) {
        assert out[i] in out;
        var j :| 0 <= j < n + 1 && kept[..n + 1][j] == (out[i], 1);
        assert RowLt(le, kept[j].0, kept[n + 1].0);
      }
    }
    r := Some(out);
  }

  lemma {:induction false} CountListed(kept: Coll<Row>, x: Row)
    requires Count(kept, x) != 0
    ensures exists i :: 0 <= i < |kept| && kept[i].0 == x
  {
    if kept[0].0 != x {
      CountListed(kept[1..], x);
      var i :| 0 <= i < |kept[1..]| && kept[1..][i].0 == x;
      assert kept[i + 1].0 == x;
    }
  }

  /** What is selected from the merged diffs is what the totals ask for. */
  lemma SelectedIsSnapshot(le: ValuesOrder, data: seq<DataRow>, frontier: TotalFrontier, kept: Coll<Row>,
                           r: Option<seq<Row>>)
    requires Merged(le, kept) && forall x :: Count(kept, x) == Count(Done(data, frontier), x)
    requires r.Some? <==> forall i :: 0 <= i < |kept| ==> kept[i].1 == 0 || kept[i].1 == 1
    requires r.Some? ==> Increasing(le, r.value) && Selected(kept, |kept|, r.value)
    ensures IsSnapshot(le, data, frontier, r)
  {
    forall i | 0 <= i < |kept| ensures Count(kept, kept[i].0) == kept[i].1 {
      MergedCount(le, kept, i);
    }
    forall x | Count(kept, x) != 0 ensures exists i :: 0 <= i < |kept| && kept[i].0 == x {
      CountListed(kept, x);
    }
  }

  method SnapshotAt(le: ValuesOrder, data: seq<DataRow>, frontier: TotalFrontier) returns (r: Option<seq<Row>>)
    requires TotalOrder(le)
    ensures IsSnapshot(le, data, frontier, r)
  {
    var retained: Coll<Row> := [];
    for n := 0 to |data|
      invariant retained == Done(data[..n], frontier)
    {
      assert data[..n + 1][..n] == data[..n];
      if frontier.IsTimeDone(data[n].time) {
        retained := retained + [((data[n].key, data[n].values), data[n].diff)];
      }
    }
    assert data[..|data|] == data;
    RowOrder(le);
    var sorted := SortUnstable((a: (Row, int), b: (Row, int)) => DiffLe(le, a, b), retained);
    forall x ensures Count(sorted, x) == Count(retained, x) {
      CountRearranged(sorted, retained, x);
    }
    var kept := Dedup(le, sorted);
    r := Select(le, kept);
    SelectedIsSnapshot(le, data, frontier, kept, r);
  }

  // ---------------------------------------------------------------- independence of the order

  lemma {:induction false} DoneConcat(a: seq<DataRow>, b: seq<DataRow>, frontier: TotalFrontier)
    ensures Done(a + b, frontier) == Done(a, frontier) + Done(b, frontier)
  {
    if b == [] {
      assert a + b == a;
    } else {
      DoneConcat(a, b[..|b| - 1], frontier);
      assert (a + b)[..|a + b| - 1] == a + b[..|b| - 1];
    }
  }

  lemma {:induction false} DoneRearranged(a: seq<DataRow>, b: seq<DataRow>, frontier: TotalFrontier, x: Row)
    requires multiset(a) == multiset(b)
    ensures Count(Done(a, frontier), x) == Count(Done(b, frontier), x)
  {
    if a == [] {
      EmptyRearranged(b);
    } else {
      var i := PlaceOfFirst(a, b);
      DoneRearranged(a[1..], b[..i] + b[i + 1..], frontier, x);
      assert a == [a[0]] + a[1..];
      CountDoneConcat([a[0]], a[1..], frontier, x);
      CountDoneConcat(b[..i], b[i + 1..], frontier, x);
      CountDoneConcat(b[..i] + [b[i]], b[i + 1..], frontier, x);
      CountDoneConcat(b[..i], [b[i]], frontier, x);
    }
  }

  lemma CountDoneConcat(a: seq<DataRow>, b: seq<DataRow>, frontier: TotalFrontier, x: Row)
    ensures Count(Done(a + b, frontier), x) == Count(Done(a, frontier), x) + Count(Done(b, frontier), x)
  {
    DoneConcat(a, b, frontier);
    CountConcat(Done(a, frontier), Done(b, frontier), x);
  }

  lemma {:induction false} IncreasingUnique(le: ValuesOrder, a: seq<Row>, b: seq<Row>)
    requires TotalOrder(le) && Increasing(le, a) && Increasing(le, b) && forall x :: x in a <==> x in b
    ensures a == b
  {
    assert a != [] ==> a[0] in b;
    assert b != [] ==> b[0] in a;
    if a != [] && b != [] {
      RowOrder(le);
      assert a[0] in b && b[0] in a;
      var i :| 0 <= i < |b| && b[i] == a[0];
      var j :| 0 <= j < |a| && a[j] == b[0];
      assert a[0] == b[0];
      forall x ensures x in a[1..] <==> x in b[1..] {
        RestMembers(le, a, x);
        RestMembers(le, b, x);
      }
      IncreasingUnique(le, a[1..], b[1..]);
      assert a == [a[0]] + a[1..] && b == [b[0]] + b[1..];
    }
  }

  lemma RestMembers(le: ValuesOrder, a: seq<Row>, x: Row)
    requires Increasing(le, a) && a != []
    ensures x in a[1..] <==> x in a && x != a[0]
  {
    assert a == [a[0]] + a[1..];
  }

  /** Neither the order in which the diffs were recorded nor that in which equal rows are sorted can be seen. */
  lemma SnapshotUnique(le: ValuesOrder, a: seq<DataRow>, b: seq<DataRow>, frontier: TotalFrontier,
                       r: Option<seq<Row>>, s: Option<seq<Row>>)
    requires TotalOrder(le) && multiset(a) == multiset(b)
    requires IsSnapshot(le, a, frontier, r) && IsSnapshot(le, b, frontier, s)
    ensures r == s
  {
    forall x ensures Count(Done(a, frontier), x) == Count(Done(b, frontier), x) {
      DoneRearranged(a, b, frontier, x);
    }
    if r.Some? {
      IncreasingUnique(le, r.value, s.value);
    }
  }
}
