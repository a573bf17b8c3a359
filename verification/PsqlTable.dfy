/**
 What the emitted upserts do to the table: `INSERT ... ON CONFLICT (key) DO UPDATE SET ... WHERE ...` keeps one row per
 key together with the time and diff of the change that wrote it.
 */
module PsqlTable {
  import opened Values
  import opened PsqlSnapshot

  /** One change of the snapshot; a stored row has the same shape. */
  datatype Update = Update(values: seq<Value>, time: nat, diff: int)

  type Rows = map<seq<Value>, Update>

  /** The formatter refuses a change with the wrong number of values. */
  predicate Formats(f: Formatter, u: Update) {
    |u.values| == |f.valueFieldNames|
  }

  function Project(values: seq<Value>, positions: seq<nat>): seq<Value>
    requires forall i :: 0 <= i < |positions| ==> positions[i] < |values|
  {
    seq(|positions|, i requires 0 <= i < |positions| => values[positions[i]])
  }

  function KeyOf(f: Formatter, u: Update): seq<Value>
    requires Partition(f) && Formats(f, u)
  {
    Project(u.values, f.keyFieldPositions)
  }

  /** The `SET` list: only the value columns are assigned. */
  function Assigned(stored: seq<Value>, excluded: seq<Value>, positions: seq<nat>): seq<Value>
    requires |stored| == |excluded|
  {
    seq(|stored|, p requires 0 <= p < |stored| => if p in positions then excluded[p] else stored[p])
  }

  /** The `WHERE` clause. */
  predicate UpdateCondition(f: Formatter, stored: Update, u: Update)
    requires Partition(f) && Formats(f, stored) && Formats(f, u)
  {
    && (forall i :: 0 <= i < |f.keyFieldPositions| ==> stored.values[f.keyFieldPositions[i]] == u.values[f.keyFieldPositions[i]])
    && (stored.time < u.time || (stored.time == u.time && stored.diff == -1))
  }

  ghost predicate Valid(f: Formatter, rows: Rows)
    requires Partition(f)
  {
    forall k :: k in rows ==> Formats(f, rows[k]) && KeyOf(f, rows[k]) == k
  }

  function Executed(f: Formatter, rows: Rows, u: Update): Rows
    requires Partition(f) && Valid(f, rows) && Formats(f, u)
  {
    var k := KeyOf(f, u);
    if k !in rows then rows[k := u]
    else if UpdateCondition(f, rows[k], u)
    then rows[k := Update(Assigned(rows[k].values, u.values, f.valueFieldPositions), u.time, u.diff)]
    else rows
  }

  predicate Overwrites(u: Update, stored: Update) {
    stored.time < u.time || (stored.time == u.time && stored.diff == -1)
  }

  /** As key and value columns are all columns, a conflicting row is replaced whole or left alone. */
  lemma ExecutedReplaces(f: Formatter, rows: Rows, u: Update)
    requires Partition(f) && Valid(f, rows) && Formats(f, u)
    ensures Executed(f, rows, u) ==
            if KeyOf(f, u) in rows && !Overwrites(u, rows[KeyOf(f, u)]) then rows else rows[KeyOf(f, u) := u]
    ensures Valid(f, Executed(f, rows, u))
  {
    var k := KeyOf(f, u);
    if k in rows {
      var stored := rows[k];
      var positions := f.keyFieldPositions;
      forall i | 0 <= i < |positions| ensures stored.values[positions[i]] == u.values[positions[i]] {
        assert KeyOf(f, stored)[i] == KeyOf(f, u)[i];
      }
      forall p | 0 <= p < |u.values| ensures Assigned(stored.values, u.values, f.valueFieldPositions)[p] == u.values[p] {
        assert p in f.valueFieldPositions <==> p !in positions;
      }
      assert Assigned(stored.values, u.values, f.valueFieldPositions) == u.values;
    }
  }

  // ---------------------------------------------------------------- delivery

  ghost predicate AllFormat(f: Formatter, us: seq<Update>) {
    forall i :: 0 <= i < |us| ==> Formats(f, us[i])
  }

  /** The table after the changes were executed in this order, starting from the empty table. */
  function Delivered(f: Formatter, us: seq<Update>): (rows: Rows)
    requires Partition(f) && AllFormat(f, us)
    ensures Valid(f, rows)
  {
    if us == [] then map[]
    else
      var before := Delivered(f, us[..|us| - 1]);
      ExecutedReplaces(f, before, us[|us| - 1]);
      Executed(f, before, us[|us| - 1])
  }

  /** A change of this key that was delivered. */
  ghost predicate Of(f: Formatter, us: seq<Update>, k: seq<Value>, u: Update)
    requires Partition(f) && AllFormat(f, us)
  {
    u in us && KeyOf(f, u) == k
  }

  predicate RankLe(u: Update, v: Update) {
    u.time < v.time || (u.time == v.time && u.diff <= v.diff)
  }

  ghost predicate Latest(f: Formatter, us: seq<Update>, k: seq<Value>, u: Update)
    requires Partition(f) && AllFormat(f, us)
  {
    Of(f, us, k, u) && forall v :: Of(f, us, k, v) ==> v.time <= u.time
  }

  ghost predicate Greatest(f: Formatter, us: seq<Update>, k: seq<Value>, u: Update)
    requires Partition(f) && AllFormat(f, us)
  {
    Of(f, us, k, u) && forall v :: Of(f, us, k, v) ==> RankLe(v, u)
  }

  /** A key is stored if a change of it was delivered, and then the stored row is a change of greatest time and diff. */
  ghost predicate HoldsGreatest(f: Formatter, us: seq<Update>, k: seq<Value>)
    requires Partition(f) && AllFormat(f, us)
  {
    var rows := Delivered(f, us);
    if k in rows then Greatest(f, us, k, rows[k]) else forall v :: !Of(f, us, k, v)
  }

  lemma OfSnoc(f: Formatter, us: seq<Update>, k: seq<Value>, u: Update)
    requires Partition(f) && AllFormat(f, us) && us != []
    ensures Of(f, us, k, u) <==> Of(f, us[..|us| - 1], k, u) || (u == us[|us| - 1] && KeyOf(f, u) == k)
  {
    assert us == us[..|us| - 1] + [us[|us| - 1]];
  }

  /** Of the changes of a key at its last time, only `-1` may be below another. */
  ghost predicate Tame(f: Formatter, us: seq<Update>, k: seq<Value>)
    requires Partition(f) && AllFormat(f, us)
  {
    forall u, v :: Latest(f, us, k, u) && Latest(f, us, k, v) && u.diff < v.diff ==> u.diff == -1
  }

  /** At the time `last`, a smaller diff is `-1`. */
  ghost predicate TameAt(f: Formatter, us: seq<Update>, k: seq<Value>, last: nat)
    requires Partition(f) && AllFormat(f, us)
  {
    forall u, v :: Of(f, us, k, u) && Of(f, us, k, v) && u.time == last && v.time == last && u.diff < v.diff ==> u.diff == -1
  }

  /** Whatever the diffs, the stored row is a change of the greatest time. */
  ghost predicate HoldsLatest(f: Formatter, us: seq<Update>, k: seq<Value>)
    requires Partition(f) && AllFormat(f, us)
  {
    var rows := Delivered(f, us);
    if k in rows then Latest(f, us, k, rows[k]) else forall v :: !Of(f, us, k, v)
  }

  lemma {:induction false} DeliveredLatest(f: Formatter, us: seq<Update>, k: seq<Value>)
    requires Partition(f) && AllFormat(f, us)
    ensures HoldsLatest(f, us, k)
  {
    if us != [] {
      var init, u := us[..|us| - 1], us[|us| - 1];
      DeliveredLatest(f, init, k);
      ExecutedReplaces(f, Delivered(f, init), u);
      forall v ensures Of(f, us, k, v) <==> Of(f, init, k, v) || (v == u && KeyOf(f, v) == k) {
        OfSnoc(f, us, k, v);
      }
    }
  }

  lemma {:induction false} DeliveredGreatest(f: Formatter, us: seq<Update>, k: seq<Value>, last: nat)
    requires Partition(f) && AllFormat(f, us) && TameAt(f, us, k, last)
    ensures var rows := Delivered(f, us); k in rows && rows[k].time == last ==> Greatest(f, us, k, rows[k])
  {
    if us != [] {
      var init, u := us[..|us| - 1], us[|us| - 1];
      forall v ensures Of(f, us, k, v) <==> Of(f, init, k, v) || (v == u && KeyOf(f, v) == k) {
        OfSnoc(f, us, k, v);
      }
      DeliveredGreatest(f, init, k, last);
      DeliveredLatest(f, init, k);
      var before := Delivered(f, init);
      ExecutedReplaces(f, before, u);
      if KeyOf(f, u) == k && k in before {
        assert Of(f, us, k, u) && Of(f, us, k, before[k]);
      }
    }
  }

  // ---------------------------------------------------------------- convergence

  ghost predicate SameChanges(us: seq<Update>, vs: seq<Update>) {
    forall u :: u in us <==> u in vs
  }

  lemma TameConverges(f: Formatter, us: seq<Update>, vs: seq<Update>, k: seq<Value>)
    requires Partition(f) && AllFormat(f, us) && AllFormat(f, vs) && SameChanges(us, vs) && Tame(f, us, k)
    ensures HoldsGreatest(f, vs, k)
  {
    forall u ensures Of(f, us, k, u) <==> Of(f, vs, k, u) {
    }
    DeliveredLatest(f, vs, k);
    var rows := Delivered(f, vs);
    if k in rows {
      forall u, v | Of(f, vs, k, u) && Of(f, vs, k, v) && u.time == rows[k].time && v.time == rows[k].time && u.diff < v.diff
        ensures u.diff == -1
      {
        assert Latest(f, us, k, u) && Latest(f, us, k, v);
      }
      DeliveredGreatest(f, vs, k, rows[k].time);
    }
  }

  /** A change of the last time with a diff other than `-1` is never overwritten once it is stored. */
  lemma {:induction false} FirstSticks(f: Formatter, us: seq<Update>, k: seq<Value>, n: nat)
    requires Partition(f) && AllFormat(f, us) && 0 < n <= |us|
    requires Latest(f, us, k, us[0]) && us[0].diff != -1
    ensures k in Delivered(f, us[..n]) && Delivered(f, us[..n])[k] == us[0]
  {
    assert us[..n][..n - 1] == us[..n - 1];
    ExecutedReplaces(f, Delivered(f, us[..n - 1]), us[n - 1]);
    if n > 1 {
      FirstSticks(f, us, k, n - 1);
      assert KeyOf(f, us[n - 1]) == k ==> Of(f, us, k, us[n - 1]);
    }
  }

  lemma WildDiverges(f: Formatter, us: seq<Update>, k: seq<Value>) returns (vs: seq<Update>)
    requires Partition(f) && AllFormat(f, us) && !Tame(f, us, k)
    ensures AllFormat(f, vs) && SameChanges(us, vs) && !HoldsGreatest(f, vs, k)
  {
    var u, v :| Latest(f, us, k, u) && Latest(f, us, k, v) && u.diff < v.diff && u.diff != -1;
    vs := [u] + us;
    forall w ensures Of(f, us, k, w) <==> Of(f, vs, k, w) {
    }
    assert Latest(f, vs, k, vs[0]);
    FirstSticks(f, vs, k, |vs|);
    assert vs[..|vs|] == vs;
    assert Of(f, vs, k, v) && !RankLe(v, u);
  }

  /**
   Convergence: every order and repetition of the delivery leaves the change with the greatest time and diff if and
   only if, at the last time of the key, no diff but `-1` is below another.
   */
  lemma ConvergesIff(f: Formatter, us: seq<Update>, k: seq<Value>)
    requires Partition(f) && AllFormat(f, us)
    ensures (forall vs :: SameChanges(us, vs) && AllFormat(f, vs) ==> HoldsGreatest(f, vs, k)) <==> Tame(f, us, k)
  {
    if Tame(f, us, k) {
      forall vs | SameChanges(us, vs) && AllFormat(f, vs) ensures HoldsGreatest(f, vs, k) {
        TameConverges(f, us, vs, k);
      }
    } else {
      var vs := WildDiverges(f, us, k);
    }
  }

  // ---------------------------------------------------------------- the current table

  /** The engine reports single insertions and deletions. */
  ghost predicate UnitDiffs(us: seq<Update>) {
    forall u :: u in us ==> u.diff == 1 || u.diff == -1
  }

  lemma UnitDiffsTame(f: Formatter, us: seq<Update>, k: seq<Value>)
    requires Partition(f) && AllFormat(f, us) && UnitDiffs(us)
    ensures Tame(f, us, k)
  {}

  /** One tuple of values per key, time and diff. */
  ghost predicate Functional(f: Formatter, us: seq<Update>)
    requires Partition(f) && AllFormat(f, us)
  {
    forall u, v :: u in us && v in us && KeyOf(f, u) == KeyOf(f, v) && u.time == v.time && u.diff == v.diff ==> u == v
  }

  /** The stored table does not depend on the order or the number of deliveries. */
  lemma DeliveryOrderIrrelevant(f: Formatter, us: seq<Update>, vs: seq<Update>)
    requires Partition(f) && AllFormat(f, us) && AllFormat(f, vs)
    requires UnitDiffs(us) && Functional(f, us) && SameChanges(us, vs)
    ensures Delivered(f, us) == Delivered(f, vs)
  {
    forall k ensures k in Delivered(f, us) <==> k in Delivered(f, vs)
             ensures k in Delivered(f, us) ==> Delivered(f, us)[k] == Delivered(f, vs)[k] {
      UnitDiffsTame(f, us, k);
      TameConverges(f, us, us, k);
      TameConverges(f, us, vs, k);
      forall u ensures Of(f, us, k, u) <==> Of(f, vs, k, u) {
      }
    }
  }

  /** A table of the engine at one time, by primary key. */
  type Snapshot = map<seq<Value>, seq<Value>>

  /** The tables at the times 0, 1, ...; every row is filed under its key columns. */
  ghost predicate Filed(f: Formatter, history: seq<Snapshot>)
    requires Partition(f)
  {
    forall t, k :: 0 <= t < |history| && k in history[t] ==>
      |history[t][k]| == |f.valueFieldNames| && Project(history[t][k], f.keyFieldPositions) == k
  }

  function Entry(history: seq<Snapshot>, t: int, k: seq<Value>): Option<seq<Value>> {
    if 0 <= t < |history| && k in history[t] then Some(history[t][k]) else None
  }

  /** A change of the history: a row that is gone at its time, or one that is new. */
  ghost predicate IsChange(f: Formatter, history: seq<Snapshot>, u: Update)
    requires Partition(f)
  {
    && Formats(f, u) && u.time < |history|
    && var before, after := Entry(history, u.time - 1, KeyOf(f, u)), Entry(history, u.time, KeyOf(f, u));
       before != after &&
       ((u.diff == 1 && after == Some(u.values)) || (u.diff == -1 && before == Some(u.values)))
  }

  /** The greatest change of a key in a history tells whether the key is present in the end, and with which row. */
  lemma {:induction false} GreatestChange(f: Formatter, history: seq<Snapshot>, n: nat, k: seq<Value>, u: Update)
    requires Partition(f) && Filed(f, history) && n <= |history|
    requires IsChange(f, history, u) && KeyOf(f, u) == k && u.time < n
    requires forall v :: IsChange(f, history, v) && KeyOf(f, v) == k && v.time < n ==> RankLe(v, u)
    ensures if u.diff == 1 then Entry(history, n - 1, k) == Some(u.values) else Entry(history, n - 1, k) == None
  {
    var before, after := Entry(history, n - 2, k), Entry(history, n - 1, k);
    if before == after {
      assert u.time < n - 1;
      GreatestChange(f, history, n - 1, k, u);
    } else if after.Some? {
      assert IsChange(f, history, Update(after.value, n - 1, 1));
    } else {
      assert IsChange(f, history, Update(before.value, n - 1, -1));
    }
  }

  lemma {:induction false} NoChange(f: Formatter, history: seq<Snapshot>, n: nat, k: seq<Value>)
    requires Partition(f) && Filed(f, history) && n <= |history|
    requires forall v :: IsChange(f, history, v) && v.time < n ==> KeyOf(f, v) != k
    ensures Entry(history, n - 1, k) == None
  {
    if n > 0 {
      NoChange(f, history, n - 1, k);
      var after := Entry(history, n - 1, k);
      if after.Some? {
        assert IsChange(f, history, Update(after.value, n - 1, 1));
      }
    }
  }

  /**
   When the changes of a history are delivered in any order and any number of times, the rows stored with diff 1 are
   exactly the rows of the current table.
   */
  lemma CurrentTable(f: Formatter, history: seq<Snapshot>, us: seq<Update>, k: seq<Value>, row: seq<Value>)
    requires Partition(f) && Filed(f, history) && AllFormat(f, us)
    requires forall u :: u in us <==> IsChange(f, history, u)
    ensures var rows := Delivered(f, us);
            (k in rows && rows[k].diff == 1 && rows[k].values == row) <==> Entry(history, |history| - 1, k) == Some(row)
  {
    UnitDiffsTame(f, us, k);
    TameConverges(f, us, us, k);
    var rows := Delivered(f, us);
    if k in rows {
      forall v | IsChange(f, history, v) && KeyOf(f, v) == k ensures RankLe(v, rows[k]) {
        assert Of(f, us, k, v);
      }
      GreatestChange(f, history, |history|, k, rows[k]);
    } else {
      forall v | IsChange(f, history, v) ensures KeyOf(f, v) != k {
        assert v in us && !Of(f, us, k, v);
      }
      NoChange(f, history, |history|, k);
    }
  }
}
