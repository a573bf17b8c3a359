/**
 The PostgreSQL snapshot sink: splitting the columns into key and value columns, the conditional upsert emitted for
 every change, and what a table ends up holding when the upserts arrive in any order and any number of times.
 */
module PsqlSnapshot {
  import opened Values
  import opened Sorting

  datatype FormatterError = RepeatedValueField(name: string) | UnknownKey(name: string)

  datatype Formatter = Formatter(
    tableName: string,
    keyFieldNames: seq<string>,
    valueFieldNames: seq<string>,
    keyFieldPositions: seq<nat>,
    valueFieldPositions: seq<nat>)

  predicate Distinct<T(==)>(s: seq<T>) {
    forall i, j :: 0 <= i < j < |s| ==> s[i] != s[j]
  }

  predicate NatLe(a: nat, b: nat) {
    a <= b
  }

  /** The first name that occurred before. */
  predicate FirstRepeated(names: seq<string>, i: nat) {
    i < |names| && names[i] in names[..i] && Distinct(names[..i])
  }

  /** The key name at this index is a column, and no earlier key took it. */
  predicate Known(names: seq<string>, keys: seq<string>, i: nat) {
    i < |keys| && keys[i] in names && keys[i] !in keys[..i]
  }

  ghost predicate FirstUnknown(names: seq<string>, keys: seq<string>, i: nat) {
    i < |keys| && !Known(names, keys, i) && forall j: nat :: j < i ==> Known(names, keys, j)
  }

  /** The positions of the listed names and no others, in increasing order. */
  ghost predicate PositionsOf(names: seq<string>, wanted: seq<string>, positions: seq<nat>) {
    && (forall i, j :: 0 <= i < j < |positions| ==> positions[i] < positions[j])
    && (forall i :: 0 <= i < |positions| ==> positions[i] < |names|)
    && (forall p: nat :: p in positions <==> p < |names| && names[p] in wanted)
  }

  /** Key and value positions: increasing, without overlap, and together all columns. */
  ghost predicate Partition(f: Formatter) {
    && PositionsOf(f.valueFieldNames, f.keyFieldNames, f.keyFieldPositions)
    && (forall i, j :: 0 <= i < j < |f.valueFieldPositions| ==> f.valueFieldPositions[i] < f.valueFieldPositions[j])
    && (forall p: nat :: p in f.valueFieldPositions <==> p < |f.valueFieldNames| && p !in f.keyFieldPositions)
  }

  /** `m` sends exactly the first `n` names, except those in `taken`, to their positions. */
  ghost predicate Indexes(m: map<string, nat>, names: seq<string>, n: nat, taken: seq<string>) {
    && n <= |names|
    && (forall name :: name in m ==> m[name] < n && names[m[name]] == name && name !in taken)
    && (forall i :: 0 <= i < n && names[i] !in taken ==> names[i] in m)
  }

  /** Succeeds exactly when the columns are distinct and the keys are distinct columns, and then splits the columns. */
  method NewFormatter(tableName: string, keyFieldNames: seq<string>, valueFieldNames: seq<string>)
    returns (r: Result<Formatter, FormatterError>)
    ensures r.Ok? <==> Distinct(valueFieldNames) && Distinct(keyFieldNames) && forall k :: k in keyFieldNames ==> k in valueFieldNames
    ensures r.Ok? ==> r.value.tableName == tableName && r.value.keyFieldNames == keyFieldNames
    ensures r.Ok? ==> r.value.valueFieldNames == valueFieldNames && Partition(r.value)
    ensures r.Err? && r.error.RepeatedValueField? ==>
              exists i: nat :: FirstRepeated(valueFieldNames, i) && r.error.name == valueFieldNames[i]
    ensures r.Err? && r.error.UnknownKey? ==> Distinct(valueFieldNames)
    ensures r.Err? && r.error.UnknownKey? ==>
              exists i: nat :: FirstUnknown(valueFieldNames, keyFieldNames, i) && r.error.name == keyFieldNames[i]
  {
    var indexed := IndexFields(valueFieldNames);
    if indexed.Err? {
      ghost var i: nat :| FirstRepeated(valueFieldNames, i) && indexed.error.name == valueFieldNames[i];
      RepeatedNotDistinct(valueFieldNames, i);
      return Err(indexed.error);
    }
    var taken := TakeKeys(indexed.value, valueFieldNames, keyFieldNames);
    if taken.Err? {
      ghost var i: nat :| FirstUnknown(valueFieldNames, keyFieldNames, i) && taken.error.name == keyFieldNames[i];
      UnknownNotDistinct(valueFieldNames, keyFieldNames, i);
      return Err(taken.error);
    }
    var valuePositions := CollectValues(taken.value.1, valueFieldNames, keyFieldNames);
    var sortedKeys := SortUnstable(NatLe, taken.value.0);
    var sortedValues := SortUnstable(NatLe, valuePositions);
    KeyPositionsSplit(valueFieldNames, keyFieldNames, taken.value.0, sortedKeys);
    SortedDistinct(valuePositions, sortedValues);
    r := Ok(Formatter(tableName, keyFieldNames, valueFieldNames, sortedKeys, sortedValues));
  }

  /** The loop over the columns. */
  method IndexFields(names: seq<string>) returns (r: Result<map<string, nat>, FormatterError>)
    ensures r.Ok? ==> Distinct(names) && Indexes(r.value, names, |names|, [])
    ensures r.Err? ==> r.error.RepeatedValueField? && exists i: nat :: FirstRepeated(names, i) && r.error.name == names[i]
  {
    var fieldPositions: map<string, nat> := map[];
    for index := 0 to |names|
      invariant Indexes(fieldPositions, names, index, []) && Distinct(names[..index])
    {
      if names[index] in fieldPositions {
        assert names[..index][fieldPositions[names[index]]] == names[index];
        assert FirstRepeated(names, index);
        return Err(RepeatedValueField(names[index]));
      }
      fieldPositions := fieldPositions[names[index] := index];
      assert names[..index + 1] == names[..index] + [names[index]];
    }
    assert names[..|names|] == names;
    r := Ok(fieldPositions);
  }

  lemma TakenKey(m: map<string, nat>, names: seq<string>, keys: seq<string>, n: nat)
    requires n < |keys| && Distinct(names) && Indexes(m, names, |names|, keys[..n]) && keys[n] in m
    ensures Indexes(m - {keys[n]}, names, |names|, keys[..n + 1]) && Known(names, keys, n)
  {
    assert keys[..n + 1] == keys[..n] + [keys[n]];
  }

  /** The loop over the keys, which takes their columns out of the map. */
  method TakeKeys(indexed: map<string, nat>, names: seq<string>, keys: seq<string>)
    returns (r: Result<(seq<nat>, map<string, nat>), FormatterError>)
    requires Indexes(indexed, names, |names|, []) && Distinct(names)
    ensures r.Ok? ==>
              && (forall j: nat :: j < |keys| ==> Known(names, keys, j))
              && |r.value.0| == |keys|
              && (forall j :: 0 <= j < |keys| ==> r.value.0[j] < |names| && names[r.value.0[j]] == keys[j])
              && Indexes(r.value.1, names, |names|, keys)
    ensures r.Err? ==> r.error.UnknownKey? && exists i: nat :: FirstUnknown(names, keys, i) && r.error.name == keys[i]
  {
    var fieldPositions := indexed;
    var keyPositions: seq<nat> := [];
    for n := 0 to |keys|
      invariant Indexes(fieldPositions, names, |names|, keys[..n])
      invariant forall j: nat :: j < n ==> Known(names, keys, j)
      invariant |keyPositions| == n
      invariant forall j :: 0 <= j < n ==> keyPositions[j] < |names| && names[keyPositions[j]] == keys[j]
    {
      var name := keys[n];
      if name !in fieldPositions {
        assert FirstUnknown(names, keys, n);
        return Err(UnknownKey(name));
      }
      TakenKey(fieldPositions, names, keys, n);
      keyPositions := keyPositions + [fieldPositions[name]];
      fieldPositions := fieldPositions - {name};
    }
    assert keys[..|keys|] == keys;
    r := Ok((keyPositions, fieldPositions));
  }

  /** The positions left in the map, in whatever order the map yields them. */
  method CollectValues(m: map<string, nat>, names: seq<string>, taken: seq<string>) returns (positions: seq<nat>)
    requires Indexes(m, names, |names|, taken) && Distinct(names)
    ensures Distinct(positions) && forall p: nat :: p in positions <==> p < |names| && names[p] !in taken
  {
    positions := [];
    var rest := m.Keys;
    while rest != {}
      invariant rest <= m.Keys && Distinct(positions)
      invariant forall p :: p in positions ==> p < |names| && names[p] in m && names[p] !in rest
      invariant forall name :: name in m && name !in rest ==> m[name] in positions
      decreases |rest|
    {
      var name :| name in rest;
      positions := positions + [m[name]];
      rest := rest - {name};
    }
    forall p: nat | p < |names| && names[p] !in taken ensures p in positions {
      assert m[names[p]] in positions;
    }
  }

  // ---------------------------------------------------------------- sorted positions

  lemma {:induction false} CountInDistinct(s: seq<nat>, x: nat)
    requires Distinct(s)
    ensures multiset(s)[x] <= 1
  {
    if s != [] {
      assert s == [s[0]] + s[1..];
      assert Distinct(s[1..]) by {
        forall i, j | 0 <= i < j < |s[1..]| ensures s[1..][i] != s[1..][j] {
          assert s[i + 1] != s[j + 1];
        }
      }
      CountInDistinct(s[1..], x);
      assert s[0] !in s[1..];
    }
  }

  /** An ordered rearrangement of distinct numbers is strictly increasing. */
  lemma SortedDistinct(s: seq<nat>, r: seq<nat>)
    requires Distinct(s) && Ordered(NatLe, r) && multiset(r) == multiset(s)
    ensures forall i, j :: 0 <= i < j < |r| ==> r[i] < r[j]
    ensures forall p :: p in r <==> p in s
  {
    forall i, j | 0 <= i < j < |r| ensures r[i] < r[j] {
      assert NatLe(r[i], r[j]);
      if r[i] == r[j] {
        assert r == r[..i + 1] + r[i + 1..] && r[i] in r[..i + 1] && r[j] in r[i + 1..];
        CountInDistinct(s, r[i]);
        assert false;
      }
    }
    forall p ensures p in r <==> p in s {
      assert p in multiset(r) <==> p in multiset(s);
    }
  }

  lemma RepeatedNotDistinct(names: seq<string>, i: nat)
    requires FirstRepeated(names, i)
    ensures !Distinct(names)
  {
    var j :| 0 <= j < i && names[..i][j] == names[i];
    assert names[j] == names[i];
  }

  lemma UnknownNotDistinct(names: seq<string>, keys: seq<string>, i: nat)
    requires FirstUnknown(names, keys, i)
    ensures !Distinct(keys) || exists k :: k in keys && k !in names
  {
    if keys[i] in names {
      var j :| 0 <= j < i && keys[..i][j] == keys[i];
      assert keys[j] == keys[i];
    } else {
      assert keys[i] in keys;
    }
  }

  lemma KeyPositionsSplit(names: seq<string>, keys: seq<string>, positions: seq<nat>, sorted: seq<nat>)
    requires Distinct(names) && |positions| == |keys|
    requires forall j: nat :: j < |keys| ==> Known(names, keys, j)
    requires forall j :: 0 <= j < |keys| ==> positions[j] < |names| && names[positions[j]] == keys[j]
    requires Ordered(NatLe, sorted) && multiset(sorted) == multiset(positions)
    ensures Distinct(keys) && PositionsOf(names, keys, sorted)
    ensures forall k :: k in keys ==> k in names
  {
    forall i, j | 0 <= i < j < |keys| ensures keys[i] != keys[j] {
      assert Known(names, keys, j) && keys[..j][i] == keys[i];
    }
    assert Distinct(positions);
    SortedDistinct(positions, sorted);
    forall p: nat | p < |names| && names[p] in keys ensures p in positions {
      var j :| 0 <= j < |keys| && keys[j] == names[p];
      assert positions[j] == p;
    }
    forall i | 0 <= i < |sorted| ensures sorted[i] < |names| {
      assert sorted[i] in positions;
    }
  }
}
