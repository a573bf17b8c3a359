/**
 Seeking the file and object scanners. For a fixed set of objects, the set of processed objects after a seek is the
 one of an uninterrupted run at that object, so everything behind it is read in the same order.
 */
module ScannerSeek {
  import opened Values
  import opened FileReader
  import opened FileContents
  import Offsets
  import LogInvariant

  /** Modification times by path. Objects are taken in the order of time, ties broken by path. */
  type Times = map<Path, nat>

  predicate Upto(times: Times, p: Path, q: Path)
    requires p in times && q in times
  {
    times[p] < times[q] || (times[p] == times[q] && p <= q)
  }

  ghost predicate Least(times: Times, known: set<Path>, p: Path) {
    && p in times && p !in known
    && forall q :: q in times && q !in known ==> Upto(times, p, q)
  }

  lemma {:induction false} LeastExists(times: Times, todo: set<Path>) returns (p: Path)
    requires todo <= times.Keys && todo != {}
    ensures p in todo && forall q :: q in todo ==> Upto(times, p, q)
    decreases todo
  {
    var x :| x in todo;
    var rest := todo - {x};
    p := x;
    if rest != {} {
      var r := LeastExists(times, rest);
      p := if Upto(times, r, x) then r else x;
      forall q | q in todo ensures Upto(times, p, q) {
        assert q == x || q in rest;
      }
    }
    assert forall q :: q in todo ==> q == x || q in rest;
  }

  lemma SomeLeast(times: Times, known: set<Path>)
    requires !(times.Keys <= known)
    ensures exists p :: Least(times, known, p)
  {
    var q :| q in times.Keys && q !in known;
    assert q in times.Keys - known;
    var p := LeastExists(times, times.Keys - known);
    assert Least(times, known, p);
  }

  /** The order in which the objects that are not yet known are taken. */
  ghost function Order(times: Times, known: set<Path>): seq<Path>
    decreases times.Keys - known
  {
    if times.Keys <= known then []
    else
      SomeLeast(times, known);
      var p :| Least(times, known, p);
      [p] + Order(times, known + {p})
  }

  function ToSet(paths: seq<Path>): set<Path> {
    set p | p in paths
  }

  /** Known sets of an uninterrupted run: whatever comes before a known object is known. */
  ghost predicate DownClosed(times: Times, known: set<Path>) {
    forall p, q :: p in times && q in times && q in known && Upto(times, p, q) ==> p in known
  }

  /** The set that a filesystem seek marks as known. */
  ghost function UptoSet(times: Times, f: Path): set<Path>
    requires f in times
  {
    set p | p in times && Upto(times, p, f)
  }

  lemma LeastCompletes(times: Times, known: set<Path>, f: Path)
    requires known <= times.Keys && DownClosed(times, known) && Least(times, known, f)
    ensures known + {f} == UptoSet(times, f) && DownClosed(times, known + {f})
  {
    forall p ensures p in known + {f} <==> p in UptoSet(times, f) {
      if p in known && !Upto(times, p, f) {
        assert Upto(times, f, p);
        assert false;
      }
    }
  }

  /**
   Seeking to the `i`-th object of an uninterrupted run restores the processed set of the moment when that object is
   being read, and the objects behind it come in the same order.
   */
  lemma {:induction false} SeekRestoresOrder(times: Times, known: set<Path>, i: nat)
    requires known <= times.Keys && DownClosed(times, known) && i < |Order(times, known)|
    ensures var order := Order(times, known);
            && order[i] in times
            && UptoSet(times, order[i]) == known + ToSet(order[..i + 1])
            && DownClosed(times, UptoSet(times, order[i]))
            && Order(times, UptoSet(times, order[i])) == order[i + 1..]
    decreases i
  {
    var order := Order(times, known);
    var f := order[0];
    assert Least(times, known, f) && order == [f] + Order(times, known + {f});
    LeastCompletes(times, known, f);
    assert order[1..] == Order(times, known + {f});
    if i == 0 {
      assert order[..1] == [f];
    } else {
      SeekRestoresOrder(times, known + {f}, i - 1);
      assert order[..i + 1] == [f] + order[1..][..i];
      assert order[1..][i..] == order[i + 1..];
    }
  }

  // ---------------------------------------------------------------- filesystem

  function TimesOf(fs: Fs): Times {
    map p | p in fs :: fs[p].modified
  }

  /** The files at or before `f` in modification time and path, each with its modification second. */
  ghost function KnownUpto(fs: Fs, f: Path): map<Path, nat>
    requires f in fs
  {
    map p | p in UptoSet(TimesOf(fs), f) :: Secs(fs[p].modified)
  }

  /** `seek_to_file` and the positioning inside the file; a file that is gone leaves nothing known. */
  ghost function Sought(s: State, fs: Fs, f: Path, bytesOffset: nat, entries: nat): State {
    if f in fs then
      s.(knownFiles := KnownUpto(fs, f),
         action := Some(Reading(f)),
         reader := Some(OpenFile(fs[f].content, bytesOffset)),
         totalEntriesRead := entries)
    else s.(knownFiles := map[])
  }

  method SeekToFile(fs: Fs, f: Path) returns (known: map<Path, nat>)
    ensures known == if f in fs then KnownUpto(fs, f) else map[]
  {
    known := map[];
    if f !in fs {
      return;
    }
    var todo := fs.Keys;
    while todo != {}
      invariant todo <= fs.Keys
      invariant known == map p | p in UptoSet(TimesOf(fs), f) && p !in todo :: Secs(fs[p].modified)
      decreases todo
    {
      var entry :| entry in todo;
      todo := todo - {entry};
      if fs[entry].modified < fs[f].modified || (fs[entry].modified == fs[f].modified && entry <= f) {
        known := known[entry := Secs(fs[entry].modified)];
      }
    }
  }

  /** An emitted entry, with the offset behind it. */
  datatype FileEntry = FileEntry(path: Path, bytes: Bytes, end: nat)

  /** The entries that reading an open file from a position on yields; a whole-file read always yields one. */
  function EntriesFrom(m: ReadMethod, p: Path, content: Bytes, position: nat): seq<FileEntry>
    requires position <= |content|
    decreases |content| - position
  {
    if m.Full? then [FileEntry(p, content[position..], |content|)]
    else if position == |content| then []
    else
      var end := EndOfEntry(m, content, position);
      [FileEntry(p, content[position..end], end)] + EntriesFrom(m, p, content, end)
  }

  function EntriesOf(fs: Fs, m: ReadMethod, paths: seq<Path>): seq<FileEntry> {
    if paths == [] then []
    else (if paths[0] in fs then EntriesFrom(m, paths[0], fs[paths[0]].content, 0) else []) + EntriesOf(fs, m, paths[1..])
  }

  /** Everything that a reader in this state will still emit from a directory that does not change. */
  ghost function Remaining(s: State, fs: Fs): seq<FileEntry> {
    (if s.reader.Some? && s.action.Some? && s.reader.value.position <= |s.reader.value.content|
     then EntriesFrom(s.readMethod, s.action.value.path, s.reader.value.content, s.reader.value.position) else []) +
    EntriesOf(fs, s.readMethod, Order(TimesOf(fs), s.knownFiles.Keys))
  }

  /** The directory agrees with what the reader knows of it. */
  ghost predicate Unchanged(s: State, fs: Fs) {
    && s.nextFileForInsertion.None?
    && (forall p :: p in s.knownFiles ==> p in fs && s.knownFiles[p] == Secs(fs[p].modified))
    && (s.deferred.Some? ==> s.reader.None? && s.deferred.value.FinishedSource?)
    && (s.reader.Some? ==> s.action.Some? && s.action.value.Reading? && s.reader.value.position <= |s.reader.value.content|)
  }

  function Emitted(out: Outcome): seq<FileEntry> {
    if out.Got? && out.result.Data? then [FileEntry(out.result.path, out.result.bytes, out.result.bytesOffset)] else []
  }

  lemma LeastUnique(times: Times, known: set<Path>, p: Path, q: Path)
    requires Least(times, known, p) && Least(times, known, q)
    ensures p == q
  {}

  lemma NextFile(s: State, fs: Fs, p: Path)
    requires ForInsertion(s.knownFiles, fs, p)
    ensures Order(TimesOf(fs), s.knownFiles.Keys) == [p] + Order(TimesOf(fs), s.knownFiles.Keys + {p})
  {
    var times, known := TimesOf(fs), s.knownFiles.Keys;
    assert Least(times, known, p);
    var q := Order(times, known)[0];
    assert Least(times, known, q);
    LeastUnique(times, known, p, q);
  }

  lemma EntryRemaining(s: State, fs: Fs, t: State, out: Outcome)
    requires Unchanged(s, fs) && s.deferred.None? && s.reader.Some?
    requires (t, out) == EntryRead(s, s.reader.value, s.action.value)
    ensures Unchanged(t, fs) && Remaining(s, fs) == Emitted(out) + Remaining(t, fs)
  {
    var open, m := s.reader.value, s.readMethod;
    var end := EndOfEntry(m, open.content, open.position);
    var later := EntriesOf(fs, m, Order(TimesOf(fs), s.knownFiles.Keys));
    if m.Full? {
      assert open.content[open.position..end] == open.content[open.position..];
      assert Remaining(t, fs) == [] + later;
    } else if end > open.position {
      var p := s.action.value.path;
      var here, rest := Emitted(out), EntriesFrom(m, p, open.content, end);
      assert EntriesFrom(m, p, open.content, open.position) == here + rest;
      assert Remaining(s, fs) == here + rest + later && Remaining(t, fs) == rest + later;
      ConcatAssociates(here, rest, later);
    }
  }

  /** In an unchanged directory a read emits the next of the remaining entries, or none. */
  lemma StepEmitsNext(s: State, fs: Fs, now: nat, t: State, out: Outcome)
    requires Unchanged(s, fs) && Next(s, fs, now, t, out)
    ensures Unchanged(t, fs) && Remaining(s, fs) == Emitted(out) + Remaining(t, fs)
    ensures out.Idle? ==> Remaining(s, fs) == []
  {
    if s.deferred.Some? {
    } else if s.reader.Some? {
      EntryRemaining(s, fs, t, out);
    } else {
      ActionRemaining(s, fs, now, t, out);
    }
  }

  lemma ActionRemaining(s: State, fs: Fs, now: nat, t: State, out: Outcome)
    requires Unchanged(s, fs) && Next(s, fs, now, t, out) && s.deferred.None? && s.reader.None?
    ensures Unchanged(t, fs) && Remaining(s, fs) == Emitted(out) + Remaining(t, fs)
    ensures out.Idle? ==> Remaining(s, fs) == []
  {
    assert NothingToDelete(s.knownFiles, fs);
    if fs.Keys <= s.knownFiles.Keys {
      assert Order(TimesOf(fs), s.knownFiles.Keys) == [];
    } else {
      var p :| ForInsertion(s.knownFiles, fs, p) && t == Initiated(Settled(s), fs, p, now);
      NextFile(s, fs, p);
      assert t.knownFiles.Keys == s.knownFiles.Keys + {p};
      var order := Order(TimesOf(fs), s.knownFiles.Keys);
      assert order[0] == p && order[1..] == Order(TimesOf(fs), t.knownFiles.Keys);
    }
  }

  lemma {:induction false} EntrySuffix(m: ReadMethod, p: Path, content: Bytes, position: nat, j: nat)
    requires m.ByLine? && position <= |content| && j < |EntriesFrom(m, p, content, position)|
    ensures var e := EntriesFrom(m, p, content, position)[j];
            e.path == p && e.end <= |content| &&
            EntriesFrom(m, p, content, e.end) == EntriesFrom(m, p, content, position)[j + 1..]
    decreases j
  {
    var entries := EntriesFrom(m, p, content, position);
    var end := EndOfEntry(m, content, position);
    assert entries == [FileEntry(p, content[position..end], end)] + EntriesFrom(m, p, content, end);
    assert entries[1..] == EntriesFrom(m, p, content, end);
    if j > 0 {
      EntrySuffix(m, p, content, end, j - 1);
      assert entries[1..][j..] == entries[j + 1..];
    }
  }

  /** What a whole-file read repeats after a seek: an entry with no bytes, since the position is already at the end. */
  function Repetition(m: ReadMethod, e: FileEntry): seq<FileEntry> {
    if m.Full? then [FileEntry(e.path, [], e.end)] else []
  }

  lemma {:induction false} SeekWithinOrder(fs: Fs, m: ReadMethod, known: set<Path>, j: nat)
    requires known <= fs.Keys && DownClosed(TimesOf(fs), known)
    requires j < |EntriesOf(fs, m, Order(TimesOf(fs), known))|
    ensures var all := EntriesOf(fs, m, Order(TimesOf(fs), known));
            var e := all[j];
            && e.path in fs && e.end <= |fs[e.path].content|
            && EntriesFrom(m, e.path, fs[e.path].content, e.end) + EntriesOf(fs, m, Order(TimesOf(fs), UptoSet(TimesOf(fs), e.path)))
               == Repetition(m, e) + all[j + 1..]
    decreases fs.Keys - known
  {
    var times := TimesOf(fs);
    var order := Order(times, known);
    var f := order[0];
    assert Least(times, known, f) && order[1..] == Order(times, known + {f});
    LeastCompletes(times, known, f);
    var first, later := EntriesFrom(m, f, fs[f].content, 0), EntriesOf(fs, m, order[1..]);
    var all := EntriesOf(fs, m, order);
    assert all == first + later;
    if j < |first| {
      var e := all[j];
      assert e == first[j];
      assert all[j + 1..] == first[j + 1..] + later;
      if m.ByLine? {
        EntrySuffix(m, f, fs[f].content, 0, j);
      } else {
        assert first[j + 1..] == [] && fs[f].content[|fs[f].content|..] == [];
        assert EntriesFrom(m, f, fs[f].content, e.end) == Repetition(m, e);
      }
    } else {
      SeekWithinOrder(fs, m, known + {f}, j - |first|);
      assert all[j] == later[j - |first|] && all[j + 1..] == later[j - |first| + 1..];
    }
  }

  /**
   After a seek to the offset of the `j`-th entry of an uninterrupted read, the reader emits exactly the entries behind
   it, if and only if files are read line by line; a whole-file reader first emits an empty copy of the entry again.
   */
  lemma SeekResumes(fs: Fs, m: ReadMethod, j: nat)
    requires j < |Remaining(Fresh(m), fs)|
    ensures var all := Remaining(Fresh(m), fs);
            var e := all[j];
            var sought := Sought(Fresh(m), fs, e.path, e.end, j + 1);
            && e.path in fs && Unchanged(sought, fs)
            && Remaining(sought, fs) == Repetition(m, e) + all[j + 1..]
            && (Remaining(sought, fs) == all[j + 1..] <==> m.ByLine?)
  {
    var all := Remaining(Fresh(m), fs);
    assert Fresh(m).knownFiles.Keys == {};
    assert all == EntriesOf(fs, m, Order(TimesOf(fs), {}));
    SeekWithinOrder(fs, m, {}, j);
    var e := all[j];
    var sought := Sought(Fresh(m), fs, e.path, e.end, j + 1);
    assert sought.knownFiles.Keys == UptoSet(TimesOf(fs), e.path);
  }

  /** `seek` of the filesystem reader: offsets of another kind are ignored. */
  ghost function SoughtTo(s: State, fs: Fs, f: Offsets.Frontier): State {
    if Offsets.EmptyKey in f && f[Offsets.EmptyKey].FilePosition? then
      var offset := f[Offsets.EmptyKey];
      Sought(s, fs, offset.filePath, offset.bytesOffset, offset.totalEntriesRead)
    else s
  }

  /** The entries of an unchanged directory are those of the source, in the order in which a fresh reader reads them. */
  ghost predicate Offers(src: LogInvariant.Source, fs: Fs, m: ReadMethod) {
    var all := Remaining(Fresh(m), fs);
    forall n: nat :: n < |all| ==>
      src.offset(Offsets.EmptyKey, n) == Offsets.FilePosition(n + 1, all[n].path, all[n].end)
  }

  /**
   So the reader meets what recovery assumes of a source: put to a frontier, it goes on with the entry at which recovery
   expects it, if and only if files are read line by line or nothing was read before.
   */
  lemma FileSeekResumes(src: LogInvariant.Source, f: Offsets.Frontier, fs: Fs, m: ReadMethod)
    requires Offers(src, fs, m) && LogInvariant.FrontierOf(src, f)
    requires LogInvariant.SeekPosition(src, f, Offsets.EmptyKey) <= |Remaining(Fresh(m), fs)|
    ensures var all, r := Remaining(Fresh(m), fs), LogInvariant.SeekPosition(src, f, Offsets.EmptyKey);
            var sought := SoughtTo(Fresh(m), fs, f);
            && Unchanged(sought, fs) && sought.totalEntriesRead == r
            && (Remaining(sought, fs) == all[r..] <==> r == 0 || m.ByLine?)
  {
    if Offsets.EmptyKey in f {
      var n := LogInvariant.EntryOf(src, f, Offsets.EmptyKey);
      SoughtBehind(fs, m, f, n);
    } else {
      var all := Remaining(Fresh(m), fs);
      assert all[0..] == all;
    }
  }

  lemma SoughtBehind(fs: Fs, m: ReadMethod, f: Offsets.Frontier, n: nat)
    requires var all := Remaining(Fresh(m), fs);
             n < |all| && Offsets.EmptyKey in f && f[Offsets.EmptyKey] == Offsets.FilePosition(n + 1, all[n].path, all[n].end)
    ensures var all, sought := Remaining(Fresh(m), fs), SoughtTo(Fresh(m), fs, f);
            && Unchanged(sought, fs) && sought.totalEntriesRead == n + 1
            && (Remaining(sought, fs) == all[n + 1..] <==> m.ByLine?)
  {
    SeekResumes(fs, m, n);
    var e := Remaining(Fresh(m), fs)[n];
    assert SoughtTo(Fresh(m), fs, f) == Sought(Fresh(m), fs, e.path, e.end, n + 1);
  }

  /**
   A seek restores the known files but not their metadata: once the sought file is finished, the scanner's `expect`
   fails in exactly the directories in which a known file was deleted or modified.
   */
  lemma ChangeAfterSeekPanics(fs: Fs, m: ReadMethod, f: Path, bytesOffset: nat, entries: nat,
                              later: Fs, now: nat, t: State, out: Outcome)
    requires var s := Sought(Fresh(m), fs, f, bytesOffset, entries).(reader := None); Next(s, later, now, t, out)
    ensures out.Panic? <==> !NothingToDelete(Sought(Fresh(m), fs, f, bytesOffset, entries).knownFiles, later)
  {
    PanicIff(Sought(Fresh(m), fs, f, bytesOffset, entries).(reader := None), later, now, t, out);
  }

  // ---------------------------------------------------------------- S3

  /** A listed object; a modification time that does not parse is `None`, and the object is skipped. */
  datatype Object = Object(key: Path, lastModified: Option<nat>)

  ghost function Listed(objects: seq<Object>): Times {
    if objects == [] then map[]
    else
      var init, last := Listed(objects[..|objects| - 1]), objects[|objects| - 1];
      if last.lastModified.Some? then init[last.key := last.lastModified.value] else init
  }

  ghost predicate DistinctKeys(objects: seq<Object>) {
    forall i, j :: 0 <= i < j < |objects| ==> objects[i].key != objects[j].key
  }

  lemma {:induction false} ListedContents(objects: seq<Object>)
    requires DistinctKeys(objects)
    ensures forall i :: 0 <= i < |objects| ==>
              (objects[i].lastModified.Some? <==> objects[i].key in Listed(objects)) &&
              (objects[i].lastModified.Some? ==> Listed(objects)[objects[i].key] == objects[i].lastModified.value)
    ensures forall k :: k in Listed(objects) ==> exists i :: 0 <= i < |objects| && objects[i].key == k
    decreases |objects|
  {
    if objects != [] {
      var n := |objects| - 1;
      ListedContents(objects[..n]);
      assert forall i :: 0 <= i < n ==> objects[..n][i] == objects[i];
      forall k | k in Listed(objects) ensures exists i :: 0 <= i < |objects| && objects[i].key == k {
        if k in Listed(objects[..n]) {
          var i :| 0 <= i < |objects[..n]| && objects[..n][i].key == k;
          assert objects[i].key == k;
        } else {
          assert objects[n].key == k;
        }
      }
    }
  }

  class S3Scanner {
    var processedObjects: set<Path>

    constructor ()
      ensures processedObjects == {}
    {
      processedObjects := {};
    }

    /** Selects the earliest unprocessed object and marks it processed. */
    method StreamNextObject(objects: seq<Object>) returns (selected: Option<Path>)
      requires DistinctKeys(objects)
      modifies this
      ensures selected.Some? ==>
                Least(Listed(objects), old(processedObjects), selected.value) &&
                processedObjects == old(processedObjects) + {selected.value}
      ensures selected.None? ==> Listed(objects).Keys <= old(processedObjects) && processedObjects == old(processedObjects)
    {
      var best: Option<(nat, Path)> := None;
      ghost var times := Listed(objects);
      ListedContents(objects);
      for i := 0 to |objects|
        invariant processedObjects == old(processedObjects)
        invariant best.None? ==> forall j :: 0 <= j < i && objects[j].lastModified.Some? ==> objects[j].key in processedObjects
        invariant best.Some? ==>
                    && best.value.1 in times && times[best.value.1] == best.value.0 && best.value.1 !in processedObjects
                    && forall j :: 0 <= j < i && objects[j].lastModified.Some? && objects[j].key !in processedObjects ==>
                         Upto(times, best.value.1, objects[j].key)
      {
        var o := objects[i];
        if o.key !in processedObjects && o.lastModified.Some? {
          match best {
            case None => best := Some((o.lastModified.value, o.key));
            case Some(current) =>
              if current.0 > o.lastModified.value || (current.0 == o.lastModified.value && current.1 > o.key) {
                best := Some((o.lastModified.value, o.key));
              }
          }
        }
      }
      match best {
        case None =>
          selected := None;
        case Some(current) =>
          selected := Some(current.1);
          processedObjects := processedObjects + {current.1};
      }
    }

    /** Marks everything up to the given object processed; an object that is not listed leaves nothing processed. */
    method SeekToObject(objects: seq<Object>, path: Path)
      requires DistinctKeys(objects)
      modifies this
      ensures processedObjects == if path in Listed(objects) then UptoSet(Listed(objects), path) else {}
    {
      processedObjects := {};
      ghost var times := Listed(objects);
      ListedContents(objects);
      var threshold: Option<nat> := None;
      for i := 0 to |objects|
        invariant processedObjects == {}
        invariant threshold.None? ==> forall j :: 0 <= j < i ==> objects[j].key != path || objects[j].lastModified.None?
        invariant threshold.Some? ==> path in times && times[path] == threshold.value
      {
        if objects[i].key == path && objects[i].lastModified.Some? {
          threshold := objects[i].lastModified;
        }
      }
      if threshold.Some? {
        for i := 0 to |objects|
          invariant forall k :: k in processedObjects ==> k in times && Upto(times, k, path)
          invariant forall j :: 0 <= j < i && objects[j].key in times && objects[j].key != path ==>
                      Upto(times, objects[j].key, path) ==> objects[j].key in processedObjects
        {
          var o := objects[i];
          if o.lastModified.Some? {
            if o.lastModified.value < threshold.value || (o.lastModified.value == threshold.value && o.key < path) {
              processedObjects := processedObjects + {o.key};
            }
          }
        }
        processedObjects := processedObjects + {path};
        assert forall k :: k in times && Upto(times, k, path) ==> k in processedObjects;
      }
    }
  }
}
