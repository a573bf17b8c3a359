/**
 What the filesystem reader's emissions add up to. Each emitted entry becomes a row, identified by its path and
 byte offset and carrying the metadata of its source; insertions and retractions are counted per row.
 */
module FileContents {
  import opened Values
  import opened FileReader

  /** A row as the parser and the key function see it: neither depends on the running number of the entry. */
  datatype Row = Row(path: Path, bytesOffset: nat, bytes: Bytes, metadata: Option<Metadata>)

  datatype Change = Change(isInsert: bool, row: Row)

  /** The reader together with the parser's current metadata and everything emitted so far. */
  datatype System = System(reader: State, current: Option<Metadata>, changes: seq<Change>)

  function Start(m: ReadMethod): System {
    System(Fresh(m), None, [])
  }

  function Consumed(x: System, reader: State, out: Outcome): System {
    match out
    case Got(NewSource(metadata)) => System(reader, Some(metadata), x.changes)
    case Got(Data(isInsert, bytes, path, _, offset)) =>
      System(reader, x.current, x.changes + [Change(isInsert, Row(path, offset, bytes, x.current))])
    case _ => System(reader, x.current, x.changes)
  }

  ghost predicate Stepped(x: System, fs: Fs, now: nat, y: System, out: Outcome) {
    Next(x.reader, fs, now, y.reader, out) && y == Consumed(x, y.reader, out)
  }

  /** How often a row was inserted, less how often it was retracted. */
  function Count(changes: seq<Change>, row: Row): int {
    if changes == [] then 0
    else
      var last := changes[|changes| - 1];
      Count(changes[..|changes| - 1], row) + (if last.row != row then 0 else if last.isInsert then 1 else -1)
  }

  lemma CountSnoc(changes: seq<Change>, c: Change, row: Row)
    ensures Count(changes + [c], row) == Count(changes, row) + (if c.row != row then 0 else if c.isInsert then 1 else -1)
  {
    assert (changes + [c])[..|changes|] == changes;
  }

  /** The rows of one version of a file from a position on. */
  function RowsFrom(m: ReadMethod, p: Path, content: Bytes, meta: Metadata, position: nat): set<Row>
    requires position <= |content|
    decreases |content| - position
  {
    if m.Full? then {Row(p, |content|, content[position..], Some(meta))}
    else if position == |content| then {}
    else
      var end := EndOfEntry(m, content, position);
      {Row(p, end, content[position..end], Some(meta))} + RowsFrom(m, p, content, meta, end)
  }

  lemma {:induction false} RowsFromShape(m: ReadMethod, p: Path, content: Bytes, meta: Metadata, position: nat)
    requires position <= |content|
    ensures forall row :: row in RowsFrom(m, p, content, meta, position) ==> row.path == p
    ensures m.ByLine? ==> forall row :: row in RowsFrom(m, p, content, meta, position) ==> row.bytesOffset > position
    decreases |content| - position
  {
    if m.ByLine? && position < |content| {
      RowsFromShape(m, p, content, meta, EndOfEntry(m, content, position));
    }
  }

  /** The rows of the recorded versions of the known files. */
  predicate Recorded(s: State, row: Row) {
    && row.path in s.knownFiles && row.path in s.cache && row.path in s.cachedMetadata
    && row in RowsFrom(s.readMethod, row.path, s.cache[row.path], s.cachedMetadata[row.path], 0)
  }

  /** The net of all changes is exactly the rows of the recorded versions. */
  ghost predicate NetIsRecorded(x: System) {
    forall row :: Count(x.changes, row) == if Recorded(x.reader, row) then 1 else 0
  }

  /** The rows that should be present: while a file is being read or retracted, the part already done counts. */
  predicate Present(x: System, row: Row) {
    var s := x.reader;
    if s.reader.Some? && s.action.Some? && x.current.Some? && s.reader.value.position <= |s.reader.value.content| &&
       row.path == s.action.value.path
    then
      var open := s.reader.value;
      var rest := RowsFrom(s.readMethod, row.path, open.content, x.current.value, open.position);
      if s.action.value.Reading? then row in RowsFrom(s.readMethod, row.path, open.content, x.current.value, 0) && row !in rest
      else row in rest
    else Recorded(s, row)
  }

  /** Bookkeeping of the scanner. */
  ghost predicate ScannerOk(s: State) {
    && s.cachedMetadata.Keys == s.knownFiles.Keys && s.knownFiles.Keys <= s.cache.Keys
    && (s.deferred.Some? ==> s.reader.None? && s.deferred.value == FinishedSource(s.nextFileForInsertion.None?))
    && (s.action.Some? && s.action.value.Deleting? ==> s.action.value.path !in s.knownFiles)
    && (s.nextFileForInsertion.Some? ==> s.nextFileForInsertion.value !in s.knownFiles)
  }

  ghost predicate OpenOk(x: System) {
    var s := x.reader;
    s.reader.Some? ==>
      && s.action.Some? && x.current.Some?
      && var p, open := s.action.value.path, s.reader.value;
      && p in s.cache && open.content == s.cache[p] && open.position <= |open.content|
      && RowsFrom(s.readMethod, p, open.content, x.current.value, open.position) <=
         RowsFrom(s.readMethod, p, open.content, x.current.value, 0)
      && (s.action.value.Reading? ==> p in s.cachedMetadata && x.current.value == s.cachedMetadata[p])
  }

  /** Every change took effect: an insertion found its row absent and a retraction found it present. */
  ghost predicate Effective(changes: seq<Change>) {
    forall j :: 0 <= j < |changes| ==> Count(changes[..j], changes[j].row) == if changes[j].isInsert then 0 else 1
  }

  ghost predicate Inv(x: System) {
    && ScannerOk(x.reader) && OpenOk(x) && Effective(x.changes)
    && forall row :: Count(x.changes, row) == if Present(x, row) then 1 else 0
  }

  lemma EffectiveSnoc(changes: seq<Change>, c: Change)
    requires Effective(changes) && Count(changes, c.row) == if c.isInsert then 0 else 1
    ensures Effective(changes + [c])
  {
    var all := changes + [c];
    forall j | 0 <= j < |all| ensures Count(all[..j], all[j].row) == if all[j].isInsert then 0 else 1 {
      assert all[..j] == changes[..j];
      if j == |changes| {
        assert changes[..j] == changes;
      }
    }
  }

  /** An entry of the open file moves one row from those to come to those done. */
  lemma EntryKeepsInv(x: System, y: System, out: Outcome)
    requires Inv(x) && x.reader.deferred.None? && x.reader.reader.Some?
    requires (y.reader, out) == EntryRead(x.reader, x.reader.reader.value, x.reader.action.value)
    requires y == Consumed(x, y.reader, out)
    ensures Inv(y)
  {
    EntryKeepsOpen(x, y);
    var open, action := x.reader.reader.value, x.reader.action.value;
    var end := EndOfEntry(x.reader.readMethod, open.content, open.position);
    if end > open.position || x.reader.readMethod.Full? {
      var c := Change(action.Reading?, Row(action.path, end, open.content[open.position..end], x.current));
      assert y.changes == x.changes + [c];
      EntryPresence(x, y, c, c.row);
      EffectiveSnoc(x.changes, c);
      forall row ensures Count(y.changes, row) == if Present(y, row) then 1 else 0 {
        CountSnoc(x.changes, c, row);
        EntryPresence(x, y, c, row);
      }
    } else {
      forall row ensures Present(y, row) == Present(x, row) {}
    }
  }

  lemma EntryKeepsOpen(x: System, y: System)
    requires ScannerOk(x.reader) && OpenOk(x) && x.reader.reader.Some? && x.reader.deferred.None?
    requires y.reader == EntryRead(x.reader, x.reader.reader.value, x.reader.action.value).0 && y.current == x.current
    ensures ScannerOk(y.reader) && OpenOk(y)
  {}

  lemma EntryPresence(x: System, y: System, c: Change, row: Row)
    requires ScannerOk(x.reader) && OpenOk(x) && x.reader.reader.Some? && x.reader.deferred.None?
    requires var s := x.reader;
             var open, action, m := s.reader.value, s.action.value, s.readMethod;
             var end := EndOfEntry(m, open.content, open.position);
             && (end > open.position || m.Full?)
             && c == Change(action.Reading?, Row(action.path, end, open.content[open.position..end], x.current))
             && y.reader == EntryRead(s, open, action).0 && y.current == x.current
    ensures if row == c.row then Present(y, row) == c.isInsert && Present(x, row) == !c.isInsert
            else Present(y, row) == Present(x, row)
  {
    var s := x.reader;
    var open, action, m := s.reader.value, s.action.value, s.readMethod;
    var end := EndOfEntry(m, open.content, open.position);
    RowsFromShape(m, action.path, open.content, x.current.value, end);
    if m.Full? {
      assert open.content[open.position..end] == open.content[open.position..];
      assert RowsFrom(m, action.path, open.content, x.current.value, open.position) == {c.row};
    } else {
      assert RowsFrom(m, action.path, open.content, x.current.value, open.position) ==
             {c.row} + RowsFrom(m, action.path, open.content, x.current.value, end);
    }
  }

  lemma InsertionKeepsInv(x: System, settled: State, fs: Fs, p: Path, now: nat, y: System)
    requires Inv(x.(reader := settled)) && settled.reader.None? && settled.deferred.None? && settled.action.None?
    requires settled.nextFileForInsertion.None? && p in fs && p !in settled.knownFiles
    requires y == System(Initiated(settled, fs, p, now), Some(MetadataOf(fs, p, now)), x.changes)
    ensures Inv(y)
  {
    forall row ensures Present(y, row) == Present(x.(reader := settled), row) {}
  }

  lemma DeletionKeepsInv(x: System, settled: State, fs: Fs, p: Path, y: System)
    requires Inv(x.(reader := settled)) && settled.reader.None? && settled.deferred.None? && settled.action.None?
    requires settled.nextFileForInsertion.None? && p in settled.knownFiles
    requires y == System(Retracted(settled, fs, p), Some(settled.cachedMetadata[p]), x.changes)
    ensures Inv(y)
  {
    forall row ensures Present(y, row) == Present(x.(reader := settled), row) {}
  }

  lemma SettledKeepsInv(x: System)
    requires Inv(x) && x.reader.reader.None? && x.reader.deferred.None?
    ensures Inv(x.(reader := Settled(x.reader)))
  {
    var y := x.(reader := Settled(x.reader));
    forall row ensures Present(y, row) == Present(x, row) {}
  }

  lemma ActionKeepsInv(x: System, fs: Fs, now: nat, y: System, out: Outcome)
    requires Inv(x) && x.reader.reader.None? && x.reader.deferred.None?
    requires ActionChosen(x.reader, fs, now, y.reader, out) && y == Consumed(x, y.reader, out)
    ensures !out.Panic? && Inv(y)
  {
    var settled := Settled(x.reader);
    SettledKeepsInv(x);
    if x.reader.nextFileForInsertion.Some? {
      var p := x.reader.nextFileForInsertion.value;
      if p in fs {
        InsertionKeepsInv(x, settled, fs, p, now, y);
      }
    } else if !NothingToDelete(x.reader.knownFiles, fs) {
      var p :| ForDeletion(x.reader.knownFiles, fs, p) &&
        if p in x.reader.cachedMetadata
        then y.reader == Retracted(settled, fs, p) && out == Got(NewSource(x.reader.cachedMetadata[p]))
        else out == Panic;
      DeletionKeepsInv(x, settled, fs, p, y);
    } else if !(fs.Keys <= x.reader.knownFiles.Keys) {
      var p :| ForInsertion(x.reader.knownFiles, fs, p) &&
        y.reader == Initiated(settled, fs, p, now) && out == Got(NewSource(MetadataOf(fs, p, now)));
      InsertionKeepsInv(x, settled, fs, p, now, y);
    }
  }

  lemma StepKeepsInv(x: System, fs: Fs, now: nat, y: System, out: Outcome)
    requires Inv(x) && Stepped(x, fs, now, y, out)
    ensures !out.Panic? && Inv(y)
  {
    if x.reader.deferred.Some? {
      forall row ensures Present(y, row) == Present(x, row) {}
    } else if x.reader.reader.Some? {
      EntryKeepsInv(x, y, out);
    } else {
      ActionKeepsInv(x, fs, now, y, out);
    }
  }

  /** A run: the directory may change in any way between two attempts to read. */
  ghost predicate Behaviour(m: ReadMethod, xs: seq<System>, fss: seq<Fs>, nows: seq<nat>, outs: seq<Outcome>) {
    && |fss| == |nows| == |outs| && |xs| == |outs| + 1 && xs[0] == Start(m)
    && forall i :: 0 <= i < |outs| ==> Stepped(xs[i], fss[i], nows[i], xs[i + 1], outs[i])
  }

  lemma {:induction false} BehaviourKeepsInv(m: ReadMethod, xs: seq<System>, fss: seq<Fs>, nows: seq<nat>,
                                             outs: seq<Outcome>, n: nat)
    requires Behaviour(m, xs, fss, nows, outs) && n <= |outs|
    ensures Inv(xs[n])
    decreases n
  {
    if n == 0 {
      assert forall row :: Count([], row) == 0;
    } else {
      BehaviourKeepsInv(m, xs, fss, nows, outs, n - 1);
      assert Stepped(xs[n - 1], fss[n - 1], nows[n - 1], xs[n - 1 + 1], outs[n - 1]);
      StepKeepsInv(xs[n - 1], fss[n - 1], nows[n - 1], xs[n], outs[n - 1]);
    }
  }

  /**
   Net contents: in every run, however the directory changes, the scanner never finds a known file without
   metadata, every retraction removes a row that is present with the same path, offset, bytes and metadata, and
   whenever no file is open the net of all changes is exactly the rows of the recorded versions.
   */
  lemma NetContents(m: ReadMethod, xs: seq<System>, fss: seq<Fs>, nows: seq<nat>, outs: seq<Outcome>, n: nat)
    requires Behaviour(m, xs, fss, nows, outs) && n <= |outs|
    ensures n < |outs| ==> !outs[n].Panic?
    ensures xs[n].reader.cachedMetadata.Keys == xs[n].reader.knownFiles.Keys
    ensures Effective(xs[n].changes)
    ensures xs[n].reader.reader.None? ==> NetIsRecorded(xs[n])
  {
    BehaviourKeepsInv(m, xs, fss, nows, outs, n);
    if n < |outs| {
      assert Stepped(xs[n], fss[n], nows[n], xs[n + 1], outs[n]);
      StepKeepsInv(xs[n], fss[n], nows[n], xs[n + 1], outs[n]);
    }
    forall row | xs[n].reader.reader.None? ensures Count(xs[n].changes, row) == if Recorded(xs[n].reader, row) then 1 else 0 {
      assert Present(xs[n], row) == Recorded(xs[n].reader, row);
    }
  }

  /** The row belongs to the version of its file that the directory now holds, with the metadata recorded for it. */
  ghost predicate Current(s: State, fs: Fs, row: Row) {
    && row.path in fs && row.path in s.cachedMetadata
    && row in RowsFrom(s.readMethod, row.path, fs[row.path].content, s.cachedMetadata[row.path], 0)
  }

  lemma IdleRecordsDirectory(x: System, fs: Fs, now: nat, y: System)
    requires Inv(x) && Stepped(x, fs, now, y, Idle)
    ensures x.reader.reader.None? && NothingToDelete(x.reader.knownFiles, fs)
    ensures fs.Keys == x.reader.knownFiles.Keys == x.reader.cachedMetadata.Keys
  {
    var s := x.reader;
    forall p | p in s.knownFiles ensures p in fs {
      assert !NeedsDeletion(s.knownFiles, fs, p);
    }
  }

  /** The rows of a version determine its contents. */
  lemma {:induction false} RowsDetermine(m: ReadMethod, p: Path, a: Bytes, b: Bytes, meta: Metadata, position: nat)
    requires position <= |a| && position <= |b| && a[..position] == b[..position]
    requires RowsFrom(m, p, a, meta, position) == RowsFrom(m, p, b, meta, position)
    ensures a == b
    decreases |a| - position
  {
    if m.Full? {
      var row := Row(p, |a|, a[position..], Some(meta));
      assert row in RowsFrom(m, p, b, meta, position);
      assert a == a[..position] + a[position..] && b == b[..position] + b[position..];
    } else if position == |a| || position == |b| {
      NoRowsAtEnd(m, p, a, b, meta, position);
    } else {
      var end := SameFirstRow(m, p, a, b, meta, position);
      assert a[..end] == a[..position] + a[position..end] && b[..end] == b[..position] + b[position..end];
      RowsDetermine(m, p, a, b, meta, end);
    }
  }

  lemma NoRowsAtEnd(m: ReadMethod, p: Path, a: Bytes, b: Bytes, meta: Metadata, position: nat)
    requires m.ByLine? && position <= |a| && position <= |b| && a[..position] == b[..position]
    requires position == |a| || position == |b|
    requires RowsFrom(m, p, a, meta, position) == RowsFrom(m, p, b, meta, position)
    ensures a == b
  {
    assert position == |a| <==> RowsFrom(m, p, a, meta, position) == {};
    assert position == |b| <==> RowsFrom(m, p, b, meta, position) == {};
    assert a == a[..position] && b == b[..position];
  }

  /** The row of least offset is the first one of either version. */
  lemma SameFirstRow(m: ReadMethod, p: Path, a: Bytes, b: Bytes, meta: Metadata, position: nat) returns (end: nat)
    requires m.ByLine? && position < |a| && position < |b|
    requires RowsFrom(m, p, a, meta, position) == RowsFrom(m, p, b, meta, position)
    ensures position < end <= |a| && end <= |b| && a[position..end] == b[position..end]
    ensures RowsFrom(m, p, a, meta, end) == RowsFrom(m, p, b, meta, end)
  {
    end := EndOfEntry(m, a, position);
    var endB := EndOfEntry(m, b, position);
    var first, firstB := Row(p, end, a[position..end], Some(meta)), Row(p, endB, b[position..endB], Some(meta));
    var later, laterB := RowsFrom(m, p, a, meta, end), RowsFrom(m, p, b, meta, endB);
    RowsFromShape(m, p, a, meta, end);
    RowsFromShape(m, p, b, meta, endB);
    assert {first} + later == {firstB} + laterB;
    assert first in {firstB} + laterB && firstB in {first} + later;
    assert first == firstB && first !in later && first !in laterB;
    assert later == ({first} + later) - {first} && laterB == ({first} + laterB) - {first};
  }

  /** The directory still holds the contents that were read. */
  predicate Unmodified(s: State, fs: Fs) {
    forall p :: p in fs ==> p in s.cache && fs[p].content == s.cache[p]
  }

  lemma CurrentIfUnmodified(x: System, fs: Fs)
    requires NetIsRecorded(x) && fs.Keys == x.reader.knownFiles.Keys == x.reader.cachedMetadata.Keys
    requires Unmodified(x.reader, fs)
    ensures forall row :: Count(x.changes, row) == if Current(x.reader, fs, row) then 1 else 0
  {
    forall row ensures Recorded(x.reader, row) == Current(x.reader, fs, row) {}
  }

  lemma UnmodifiedIfCurrent(x: System, fs: Fs, p: Path)
    requires NetIsRecorded(x) && fs.Keys == x.reader.knownFiles.Keys == x.reader.cachedMetadata.Keys
    requires fs.Keys <= x.reader.cache.Keys && p in fs
    requires forall row :: Count(x.changes, row) == if Current(x.reader, fs, row) then 1 else 0
    ensures fs[p].content == x.reader.cache[p]
  {
    var s := x.reader;
    var meta := s.cachedMetadata[p];
    var read, present := RowsFrom(s.readMethod, p, s.cache[p], meta, 0), RowsFrom(s.readMethod, p, fs[p].content, meta, 0);
    RowsFromShape(s.readMethod, p, s.cache[p], meta, 0);
    RowsFromShape(s.readMethod, p, fs[p].content, meta, 0);
    forall row ensures row in read <==> row in present {
      assert Recorded(s, row) == Current(s, fs, row);
    }
    RowsDetermine(s.readMethod, p, s.cache[p], fs[p].content, meta, 0);
  }

  /**
   Whenever the reader finds nothing to do, in any run, it has recorded exactly the files of the directory, and the net of
   all changes is the current directory if and only if every file still has the contents that were read: a file that is
   rewritten within one modification second is not noticed.
   */
  lemma IdleMeansCurrent(m: ReadMethod, xs: seq<System>, fss: seq<Fs>, nows: seq<nat>, outs: seq<Outcome>, n: nat)
    requires Behaviour(m, xs, fss, nows, outs) && n < |outs| && outs[n].Idle?
    ensures fss[n].Keys == xs[n].reader.cachedMetadata.Keys
    ensures forall p :: p in fss[n] ==> p in xs[n].reader.knownFiles && Secs(fss[n][p].modified) == xs[n].reader.knownFiles[p]
    ensures (forall row :: Count(xs[n].changes, row) == if Current(xs[n].reader, fss[n], row) then 1 else 0) <==>
            Unmodified(xs[n].reader, fss[n])
  {
    var x, fs := xs[n], fss[n];
    BehaviourKeepsInv(m, xs, fss, nows, outs, n);
    assert Stepped(xs[n], fss[n], nows[n], xs[n + 1], outs[n]);
    IdleRecordsDirectory(x, fs, nows[n], xs[n + 1]);
    NetContents(m, xs, fss, nows, outs, n);
    forall p | p in fs ensures Secs(fs[p].modified) == x.reader.knownFiles[p] {
      assert !NeedsDeletion(x.reader.knownFiles, fs, p);
    }
    if Unmodified(x.reader, fs) {
      CurrentIfUnmodified(x, fs);
    } else {
      var p :| p in fs && !(p in x.reader.cache && fs[p].content == x.reader.cache[p]);
      if forall row :: Count(x.changes, row) == if Current(x.reader, fs, row) then 1 else 0 {
        UnmodifiedIfCurrent(x, fs, p);
      }
    }
  }

  /** The `expect` fails exactly when the file due for retraction has no cached metadata. */
  lemma PanicIff(s: State, fs: Fs, now: nat, t: State, out: Outcome)
    requires s.deferred.None? && s.reader.None? && Next(s, fs, now, t, out)
    ensures out.Panic? <==>
            s.nextFileForInsertion.None? && exists p :: ForDeletion(s.knownFiles, fs, p) && p !in s.cachedMetadata
  {
    if s.nextFileForInsertion.None? && !NothingToDelete(s.knownFiles, fs) {
      var p :| ForDeletion(s.knownFiles, fs, p) && (p in s.cachedMetadata ==> !out.Panic?) && (p !in s.cachedMetadata ==> out.Panic?);
      forall q | ForDeletion(s.knownFiles, fs, q) ensures q == p {}
    }
  }
}
