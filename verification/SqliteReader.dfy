/**
 The SQLite reader, which has no change feed: it reloads the table when the data version moved and queues the
 difference to the state it stored.
 */
module SqliteReader {
  import opened Values

  type Columns = map<string, Value>

  datatype RowId = RowId(id: int)

  type Table = map<RowId, Columns>

  datatype Update = Update(isInsert: bool, rowid: RowId, columns: Columns)

  datatype ReadResult = NewSource | FinishedSource | Data(update: Update)

  /** The table that a query result stands for. */
  function TableOf(rows: seq<(RowId, Columns)>): Table {
    if rows == [] then map[]
    else TableOf(rows[..|rows| - 1])[rows[|rows| - 1].0 := rows[|rows| - 1].1]
  }

  /** The effect of one update: an insertion needs the row absent, a deletion needs exactly that row present. */
  function Applied(t: Option<Table>, u: Update): Option<Table> {
    if t.None? then None
    else if u.isInsert then (if u.rowid in t.value then None else Some(t.value[u.rowid := u.columns]))
    else if u.rowid in t.value && t.value[u.rowid] == u.columns then Some(t.value - {u.rowid})
    else None
  }

  function AppliedAll(t: Option<Table>, us: seq<Update>): Option<Table> {
    if us == [] then t else Applied(AppliedAll(t, us[..|us| - 1]), us[|us| - 1])
  }

  lemma {:induction false} AppliedConcat(t: Option<Table>, a: seq<Update>, b: seq<Update>)
    ensures AppliedAll(t, a + b) == AppliedAll(AppliedAll(t, a), b)
    decreases |b|
  {
    if b == [] {
      assert a + b == a;
    } else {
      assert (a + b)[..|a + b| - 1] == a + b[..|b| - 1];
      AppliedConcat(t, a, b[..|b| - 1]);
    }
  }

  lemma AppliedSnoc(t: Option<Table>, us: seq<Update>, u: Update)
    ensures AppliedAll(t, us + [u]) == Applied(AppliedAll(t, us), u)
  {
    assert (us + [u])[..|us|] == us;
  }

  function UpdatesIn(queue: seq<ReadResult>): seq<Update> {
    if queue == [] then [] else (if queue[0].Data? then [queue[0].update] else []) + UpdatesIn(queue[1..])
  }

  lemma {:induction false} UpdatesInSnoc(queue: seq<ReadResult>, r: ReadResult)
    ensures UpdatesIn(queue + [r]) == UpdatesIn(queue) + (if r.Data? then [r.update] else [])
  {
    if queue == [] {
      assert queue + [r] == [r] && [r][1..] == [];
    } else {
      UpdatesInSnoc(queue[1..], r);
      assert (queue + [r])[1..] == queue[1..] + [r];
    }
  }

  function Queued(us: seq<Update>): (queue: seq<ReadResult>)
    ensures |queue| == |us|
  {
    seq(|us|, i requires 0 <= i < |us| => Data(us[i]))
  }

  lemma {:induction false} UpdatesInQueued(us: seq<Update>)
    ensures UpdatesIn(Queued(us)) == us
  {
    if us != [] {
      UpdatesInQueued(us[1..]);
      assert Queued(us)[1..] == Queued(us[1..]);
    }
  }

  /** The updates for one row of the query result, given the state stored so far. */
  function Difference(state: Table, rowid: RowId, columns: Columns): seq<Update> {
    if rowid !in state then [Update(true, rowid, columns)]
    else if state[rowid] == columns then []
    else [Update(false, rowid, state[rowid]), Update(true, rowid, columns)]
  }

  lemma DifferenceApplies(state: Table, rowid: RowId, columns: Columns)
    ensures AppliedAll(Some(state), Difference(state, rowid, columns)) == Some(state[rowid := columns])
  {
    if rowid !in state {
      AppliedSnoc(Some(state), [], Update(true, rowid, columns));
    } else if state[rowid] == columns {
      assert state[rowid := columns] == state;
    } else {
      AppliedSnoc(Some(state), [], Update(false, rowid, state[rowid]));
      AppliedSnoc(Some(state), [Update(false, rowid, state[rowid])], Update(true, rowid, columns));
      assert [Update(false, rowid, state[rowid])] + [Update(true, rowid, columns)] == Difference(state, rowid, columns);
      assert (state - {rowid})[rowid := columns] == state[rowid := columns];
    }
  }

  /** What is kept while the query result is compared row by row. */
  ghost predicate Compared(stored: Table, rows: seq<(RowId, Columns)>, updates: seq<Update>, state: Table) {
    state == stored + TableOf(rows) && AppliedAll(Some(stored), updates) == Some(state)
  }

  lemma ComparedNext(stored: Table, rows: seq<(RowId, Columns)>, i: nat, updates: seq<Update>, state: Table)
    requires i < |rows| && Compared(stored, rows[..i], updates, state)
    ensures Compared(stored, rows[..i + 1], updates + Difference(state, rows[i].0, rows[i].1), state[rows[i].0 := rows[i].1])
    ensures TableOf(rows[..i + 1]).Keys == TableOf(rows[..i]).Keys + {rows[i].0}
  {
    var (rowid, columns) := rows[i];
    assert rows[..i + 1][..i] == rows[..i];
    DifferenceApplies(state, rowid, columns);
    AppliedConcat(Some(stored), updates, Difference(state, rowid, columns));
    assert (stored + TableOf(rows[..i]))[rowid := columns] == stored + TableOf(rows[..i])[rowid := columns];
  }

  /** The loop over the query result: new and changed rows are queued and stored. */
  method CompareRows(stored: Table, rows: seq<(RowId, Columns)>) returns (updates: seq<Update>, state: Table,
                     present: set<RowId>)
    ensures state == stored + TableOf(rows) && present == TableOf(rows).Keys
    ensures AppliedAll(Some(stored), updates) == Some(state)
  {
    updates, state, present := [], stored, {};
    for i := 0 to |rows|
      invariant Compared(stored, rows[..i], updates, state) && present == TableOf(rows[..i]).Keys
    {
      var (rowid, columns) := rows[i];
      ComparedNext(stored, rows, i, updates, state);
      if rowid in state {
        if state[rowid] != columns {
          updates := updates + [Update(false, rowid, state[rowid]), Update(true, rowid, columns)];
        } else {
          assert updates + [] == updates;
        }
      } else {
        updates := updates + [Update(true, rowid, columns)];
      }
      state := state[rowid := columns];
      present := present + {rowid};
    }
    assert rows[..|rows|] == rows;
  }

  /** The `retain` that drops the rows which the query no longer returned. */
  method RetainPresent(stored: Table, present: set<RowId>) returns (updates: seq<Update>, state: Table)
    ensures state.Keys == stored.Keys * present && forall k :: k in state ==> state[k] == stored[k]
    ensures AppliedAll(Some(stored), updates) == Some(state)
  {
    updates, state := [], stored;
    var todo := stored.Keys;
    while todo != {}
      invariant todo <= stored.Keys
      invariant state.Keys <= stored.Keys
      invariant forall k :: k in stored ==> (k in state <==> k in present || k in todo)
      invariant forall k :: k in state ==> state[k] == stored[k]
      invariant AppliedAll(Some(stored), updates) == Some(state)
      decreases todo
    {
      var rowid :| rowid in todo;
      todo := todo - {rowid};
      if rowid !in present {
        AppliedSnoc(Some(stored), updates, Update(false, rowid, state[rowid]));
        updates := updates + [Update(false, rowid, state[rowid])];
        state := state - {rowid};
      }
    }
  }

  class Reader {
    var lastSavedDataVersion: Option<int>
    var storedState: Table
    var queuedUpdates: seq<ReadResult>
    ghost var delivered: seq<Update>

    /** All updates ever queued, those delivered first, turn the empty table into the stored one. */
    ghost predicate Valid()
      reads this
    {
      AppliedAll(Some(map[]), delivered + UpdatesIn(queuedUpdates)) == Some(storedState)
    }

    constructor ()
      ensures Valid() && storedState == map[] && queuedUpdates == [] && delivered == [] && lastSavedDataVersion == None
    {
      lastSavedDataVersion, storedState, queuedUpdates, delivered := None, map[], [], [];
    }

    method LoadTable(rows: seq<(RowId, Columns)>)
      requires Valid() && queuedUpdates == []
      modifies this`storedState, this`queuedUpdates
      ensures Valid() && storedState == TableOf(rows)
      ensures AppliedAll(Some(old(storedState)), UpdatesIn(queuedUpdates)) == Some(storedState)
      ensures queuedUpdates != [] ==> queuedUpdates[|queuedUpdates| - 1].FinishedSource?
    {
      assert delivered + UpdatesIn([]) == delivered;
      var changed, state, present := CompareRows(storedState, rows);
      var dropped, retained := RetainPresent(state, present);
      assert retained == TableOf(rows) by {
        assert retained.Keys == TableOf(rows).Keys;
      }
      var updates := changed + dropped;
      AppliedConcat(Some(storedState), changed, dropped);
      AppliedConcat(Some(map[]), delivered, updates);
      UpdatesInQueued(updates);
      storedState := retained;
      queuedUpdates := Queued(updates);
      if queuedUpdates != [] {
        UpdatesInSnoc(queuedUpdates, FinishedSource);
        assert updates + [] == updates;
        queuedUpdates := queuedUpdates + [FinishedSource];
      }
    }

    /** One attempt of `read`, seeing a data version and the table contents; `None` means that the reader sleeps. */
    method Read(dataVersion: int, rows: seq<(RowId, Columns)>) returns (r: Option<ReadResult>)
      requires Valid()
      modifies this
      ensures Valid()
      ensures delivered == old(delivered) + (if r.Some? && r.value.Data? then [r.value.update] else [])
      ensures old(queuedUpdates) != [] ==>
                r == Some(old(queuedUpdates)[0]) && queuedUpdates == old(queuedUpdates)[1..] && storedState == old(storedState)
      ensures old(queuedUpdates) == [] && old(lastSavedDataVersion) != Some(dataVersion) ==>
                r == Some(NewSource) && storedState == TableOf(rows) && lastSavedDataVersion == Some(dataVersion)
      ensures old(queuedUpdates) == [] && old(lastSavedDataVersion) == Some(dataVersion) ==>
                r == None && storedState == old(storedState) && queuedUpdates == []
    {
      if queuedUpdates != [] {
        r := Some(queuedUpdates[0]);
        ghost var all := delivered + UpdatesIn(queuedUpdates);
        if queuedUpdates[0].Data? {
          delivered := delivered + [queuedUpdates[0].update];
        }
        queuedUpdates := queuedUpdates[1..];
        assert delivered + UpdatesIn(queuedUpdates) == all;
      } else if lastSavedDataVersion != Some(dataVersion) {
        LoadTable(rows);
        lastSavedDataVersion := Some(dataVersion);
        r := Some(NewSource);
      } else {
        r := None;
      }
    }
  }

  // ---------------------------------------------------------------- net of the updates

  /** How often a row was inserted, less how often it was deleted. */
  function Net(us: seq<Update>, rowid: RowId, columns: Columns): int {
    if us == [] then 0
    else
      var u := us[|us| - 1];
      Net(us[..|us| - 1], rowid, columns) +
      (if u.rowid != rowid || u.columns != columns then 0 else if u.isInsert then 1 else -1)
  }

  predicate Has(t: Table, rowid: RowId, columns: Columns) {
    rowid in t && t[rowid] == columns
  }

  /** Updates that apply one after the other to the empty table net to exactly the rows of the result. */
  lemma {:induction false} AppliedNets(us: seq<Update>, rowid: RowId, columns: Columns)
    requires AppliedAll(Some(map[]), us).Some?
    ensures Net(us, rowid, columns) == if Has(AppliedAll(Some(map[]), us).value, rowid, columns) then 1 else 0
    decreases |us|
  {
    if us != [] {
      AppliedNets(us[..|us| - 1], rowid, columns);
    }
  }

  /** At any moment everything delivered and queued nets to the stored table; with an empty queue, so does what was delivered. */
  lemma NetIsStored(reader: Reader, rowid: RowId, columns: Columns)
    requires reader.Valid()
    ensures Net(reader.delivered + UpdatesIn(reader.queuedUpdates), rowid, columns) ==
            if Has(reader.storedState, rowid, columns) then 1 else 0
    ensures reader.queuedUpdates == [] ==>
              Net(reader.delivered, rowid, columns) == if Has(reader.storedState, rowid, columns) then 1 else 0
  {
    AppliedNets(reader.delivered + UpdatesIn(reader.queuedUpdates), rowid, columns);
    if reader.queuedUpdates == [] {
      assert reader.delivered + UpdatesIn([]) == reader.delivered;
    }
  }
}
