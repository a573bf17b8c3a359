/**
 The streaming filesystem reader: a scanner that turns changes of a directory into whole-file retractions and
 insertions, and a reader that emits the entries of the file at hand. Whatever happens to the directory, the
 rows emitted so far add up to the rows of the recorded file versions.
 */
module FileReader {
  import opened Values

  /** Only equality and order of paths matter. */
  type Path = nat

  type Bytes = seq<nat>

  const NEWLINE: nat := 10
  const NANOS: nat := 1_000_000_000

  datatype ReadMethod = ByLine | Full

  /** `other` stands for the creation time and the owner. */
  datatype Metadata = Metadata(path: Path, modifiedAt: nat, seenAt: nat, other: nat)

  /** A file of the watched directory, with its modification time in nanoseconds. */
  datatype FsFile = FsFile(content: Bytes, modified: nat, other: nat)

  type Fs = map<Path, FsFile>

  datatype Action = Reading(path: Path) | Deleting(path: Path)

  /** An open file. Files are taken to be stable while they are read. */
  datatype OpenFile = OpenFile(content: Bytes, position: nat)

  datatype ReadResult =
    | NewSource(metadata: Metadata)
    | FinishedSource(commitAllowed: bool)
    | Data(isInsert: bool, bytes: Bytes, path: Path, totalEntriesRead: nat, bytesOffset: nat)

  /** `Idle`: nothing to do, the reader waits. `Panic`: the scanner's `expect` failed. */
  datatype Outcome = Got(result: ReadResult) | Idle | Panic

  datatype State = State(
    readMethod: ReadMethod,
    knownFiles: map<Path, nat>,
    cachedMetadata: map<Path, Metadata>,
    cache: map<Path, Bytes>,
    action: Option<Action>,
    nextFileForInsertion: Option<Path>,
    reader: Option<OpenFile>,
    deferred: Option<ReadResult>,
    totalEntriesRead: nat)

  function Secs(nanos: nat): nat {
    nanos / NANOS
  }

  /** `read_until(b'\n')` and `read_to_end`: the position behind the bytes read from `position` on. */
  function EndOfEntry(m: ReadMethod, content: Bytes, position: nat): (end: nat)
    requires position <= |content|
    ensures position <= end <= |content|
    ensures position < |content| ==> position < end
    ensures m.Full? ==> end == |content|
    decreases |content| - position
  {
    if m.Full? || position == |content| then |content|
    else if content[position] == NEWLINE then position + 1
    else EndOfEntry(m, content, position + 1)
  }

  predicate NeedsDeletion(known: map<Path, nat>, fs: Fs, p: Path)
    requires p in known
  {
    p !in fs || Secs(fs[p].modified) != known[p]
  }

  /** The scan for a file to retract: the least path that disappeared or whose modification second changed. */
  ghost predicate ForDeletion(known: map<Path, nat>, fs: Fs, p: Path) {
    && p in known && NeedsDeletion(known, fs, p)
    && forall q :: q in known && NeedsDeletion(known, fs, q) ==> p <= q
  }

  ghost predicate NothingToDelete(known: map<Path, nat>, fs: Fs) {
    forall q :: q in known ==> !NeedsDeletion(known, fs, q)
  }

  predicate NotLater(fs: Fs, p: Path, q: Path)
    requires p in fs && q in fs
  {
    fs[p].modified < fs[q].modified || (fs[p].modified == fs[q].modified && p <= q)
  }

  /** The scan for a file to ingest: the earliest modified one that is not known, ties broken by path. */
  ghost predicate ForInsertion(known: map<Path, nat>, fs: Fs, p: Path) {
    && p in fs && p !in known
    && forall q :: q in fs && q !in known ==> NotLater(fs, p, q)
  }

  function MetadataOf(fs: Fs, p: Path, now: nat): Metadata
    requires p in fs
  {
    Metadata(p, Secs(fs[p].modified), now, fs[p].other)
  }

  /** `initiate_file_insertion`, and opening the file. */
  function Initiated(s: State, fs: Fs, p: Path, now: nat): State
    requires p in fs
  {
    s.(knownFiles := s.knownFiles[p := Secs(fs[p].modified)],
       cachedMetadata := s.cachedMetadata[p := MetadataOf(fs, p, now)],
       cache := s.cache[p := fs[p].content],
       action := Some(Reading(p)),
       reader := Some(OpenFile(fs[p].content, 0)))
  }

  /** The start of a retraction: the old version is read back from the cache. */
  function Retracted(s: State, fs: Fs, p: Path): State {
    s.(knownFiles := s.knownFiles - {p},
       cachedMetadata := s.cachedMetadata - {p},
       action := Some(Deleting(p)),
       nextFileForInsertion := if p in fs then Some(p) else None,
       reader := Some(OpenFile(if p in s.cache then s.cache[p] else [], 0)))
  }

  /** The finished action is put away; a finished retraction drops the cached copy. */
  function Settled(s: State): State {
    s.(action := None, nextFileForInsertion := None,
       cache := if s.action.Some? && s.action.value.Deleting? then s.cache - {s.action.value.path} else s.cache)
  }

  /** Reading from the open file. */
  function EntryRead(s: State, open: OpenFile, action: Action): (State, Outcome)
    requires open.position <= |open.content|
  {
    var end := EndOfEntry(s.readMethod, open.content, open.position);
    var finished := FinishedSource(s.nextFileForInsertion.None?);
    if end > open.position || s.readMethod.Full? then
      var data := Data(action.Reading?, open.content[open.position..end], action.path, s.totalEntriesRead + 1, end);
      var t := s.(totalEntriesRead := s.totalEntriesRead + 1);
      (if s.readMethod.Full? then t.(reader := None, deferred := Some(finished))
       else t.(reader := Some(OpenFile(open.content, end))),
       Got(data))
    else (s.(reader := None), Got(finished))
  }

  /** `next_action_determined`. */
  ghost predicate ActionChosen(s: State, fs: Fs, now: nat, t: State, out: Outcome) {
    var settled := Settled(s);
    if s.nextFileForInsertion.Some? then
      var p := s.nextFileForInsertion.value;
      if p in fs then t == Initiated(settled, fs, p, now) && out == Got(NewSource(MetadataOf(fs, p, now)))
      else t == settled && out == Got(FinishedSource(true))
    else if !NothingToDelete(s.knownFiles, fs) then
      exists p :: ForDeletion(s.knownFiles, fs, p) &&
        if p in s.cachedMetadata then t == Retracted(settled, fs, p) && out == Got(NewSource(s.cachedMetadata[p]))
        else out == Panic
    else if fs.Keys <= s.knownFiles.Keys then t == settled && out == Idle
    else
      exists p :: ForInsertion(s.knownFiles, fs, p) &&
        t == Initiated(settled, fs, p, now) && out == Got(NewSource(MetadataOf(fs, p, now)))
  }

  /** One attempt of `read`, seeing the directory `fs`. */
  ghost predicate Next(s: State, fs: Fs, now: nat, t: State, out: Outcome) {
    if s.deferred.Some? then t == s.(deferred := None) && out == Got(s.deferred.value)
    else if s.reader.Some? then
      && s.action.Some? && s.reader.value.position <= |s.reader.value.content|
      && (t, out) == EntryRead(s, s.reader.value, s.action.value)
    else ActionChosen(s, fs, now, t, out)
  }

  // ---------------------------------------------------------------- the code

  method NextDeletionEntry(known: map<Path, nat>, fs: Fs) returns (pathForDeletion: Option<Path>)
    ensures pathForDeletion.None? ==> NothingToDelete(known, fs)
    ensures pathForDeletion.Some? ==> ForDeletion(known, fs, pathForDeletion.value)
  {
    pathForDeletion := None;
    var todo := known.Keys;
    while todo != {}
      invariant todo <= known.Keys
      invariant pathForDeletion.None? ==> forall q :: q in known.Keys - todo ==> !NeedsDeletion(known, fs, q)
      invariant pathForDeletion.Some? ==>
                  var p := pathForDeletion.value;
                  && p in known && NeedsDeletion(known, fs, p)
                  && forall q :: q in known.Keys - todo && NeedsDeletion(known, fs, q) ==> p <= q
      decreases todo
    {
      var path :| path in todo;
      todo := todo - {path};
      if path !in fs || Secs(fs[path].modified) != known[path] {
        match pathForDeletion {
          case None => pathForDeletion := Some(path);
          case Some(otherPath) =>
            if otherPath > path {
              pathForDeletion := Some(path);
            }
        }
      }
    }
  }

  method NextInsertionEntry(known: map<Path, nat>, fs: Fs) returns (selected: Option<Path>)
    ensures selected.None? ==> fs.Keys <= known.Keys
    ensures selected.Some? ==> ForInsertion(known, fs, selected.value)
  {
    selected := None;
    var todo := fs.Keys;
    while todo != {}
      invariant todo <= fs.Keys
      invariant selected.None? ==> forall q :: q in fs.Keys - todo ==> q in known
      invariant selected.Some? ==>
                  var p := selected.value;
                  && p in fs && p !in known
                  && forall q :: q in fs.Keys - todo && q !in known ==> NotLater(fs, p, q)
      decreases todo
    {
      var entry :| entry in todo;
      todo := todo - {entry};
      if entry !in known {
        match selected {
          case None => selected := Some(entry);
          case Some(current) =>
            if fs[entry].modified < fs[current].modified || (fs[entry].modified == fs[current].modified && entry < current) {
              selected := Some(entry);
            }
        }
      }
    }
  }

  class FilesystemReader {
    const readMethod: ReadMethod
    var knownFiles: map<Path, nat>
    var cachedMetadata: map<Path, Metadata>
    var cache: map<Path, Bytes>
    var currentAction: Option<Action>
    var nextFileForInsertion: Option<Path>
    var reader: Option<OpenFile>
    var deferredReadResult: Option<ReadResult>
    var totalEntriesRead: nat

    ghost function View(): State
      reads this
    {
      State(readMethod, knownFiles, cachedMetadata, cache, currentAction, nextFileForInsertion, reader,
            deferredReadResult, totalEntriesRead)
    }

    /** While a file is open, its action is known and the position lies inside it. */
    ghost predicate Valid()
      reads this
    {
      reader.Some? ==> currentAction.Some? && reader.value.position <= |reader.value.content|
    }

    constructor (readMethod: ReadMethod)
      ensures Valid() && View() == Fresh(readMethod)
    {
      this.readMethod := readMethod;
      knownFiles, cachedMetadata, cache := map[], map[], map[];
      currentAction, nextFileForInsertion, reader, deferredReadResult := None, None, None, None;
      totalEntriesRead := 0;
    }

    method InitiateFileInsertion(fs: Fs, path: Path, now: nat) returns (result: ReadResult)
      requires path in fs
      modifies this
      ensures View() == Initiated(old(View()), fs, path, now) && result == NewSource(MetadataOf(fs, path, now))
      ensures Valid()
    {
      var meta := Metadata(path, Secs(fs[path].modified), now, fs[path].other);
      cachedMetadata := cachedMetadata[path := meta];
      knownFiles := knownFiles[path := meta.modifiedAt];
      cache := cache[path := fs[path].content];
      currentAction := Some(Reading(path));
      reader := Some(OpenFile(fs[path].content, 0));
      result := NewSource(meta);
    }

    method ReadEntry() returns (out: Outcome)
      requires Valid() && reader.Some?
      modifies this
      ensures Valid() && (View(), out) == EntryRead(old(View()), old(reader.value), old(currentAction.value))
    {
      var open := reader.value;
      var end := EndOfEntry(readMethod, open.content, open.position);
      if end > open.position || readMethod.Full? {
        totalEntriesRead := totalEntriesRead + 1;
        out := Got(Data(currentAction.value.Reading?, open.content[open.position..end], currentAction.value.path,
                        totalEntriesRead, end));
        if readMethod.Full? {
          deferredReadResult := Some(FinishedSource(nextFileForInsertion.None?));
          reader := None;
        } else {
          reader := Some(OpenFile(open.content, end));
        }
      } else {
        reader := None;
        out := Got(FinishedSource(nextFileForInsertion.None?));
      }
    }

    /** The finished action is put away before the next one is chosen. */
    method SettleAction() returns (planned: Option<Path>)
      modifies this
      ensures View() == Settled(old(View())) && planned == old(nextFileForInsertion)
    {
      planned := nextFileForInsertion;
      if currentAction.Some? && currentAction.value.Deleting? {
        cache := cache - {currentAction.value.path};
      }
      currentAction, nextFileForInsertion := None, None;
    }

    method InitiateDeletion(fs: Fs, path: Path) returns (out: Outcome)
      requires Valid() && nextFileForInsertion.None?
      modifies this
      ensures path !in old(cachedMetadata) ==> out == Panic
      ensures path in old(cachedMetadata) ==>
                View() == Retracted(old(View()), fs, path) && out == Got(NewSource(old(cachedMetadata)[path])) && Valid()
    {
      if path !in cachedMetadata {
        return Panic;
      }
      out := Got(NewSource(cachedMetadata[path]));
      cachedMetadata := cachedMetadata - {path};
      knownFiles := knownFiles - {path};
      currentAction := Some(Deleting(path));
      if path in fs {
        nextFileForInsertion := Some(path);
      }
      reader := Some(OpenFile(if path in cache then cache[path] else [], 0));
    }

    method NextActionDetermined(fs: Fs, now: nat) returns (out: Outcome)
      requires Valid() && reader.None?
      modifies this
      ensures ActionChosen(old(View()), fs, now, View(), out)
      ensures !out.Panic? ==> Valid()
    {
      var planned := SettleAction();
      ghost var settled := View();
      assert settled.knownFiles == old(knownFiles) && settled.cachedMetadata == old(cachedMetadata);
      if planned.Some? {
        if planned.value in fs {
          var result := InitiateFileInsertion(fs, planned.value, now);
          return Got(result);
        }
        return Got(FinishedSource(true));
      }
      var forDeletion := NextDeletionEntry(knownFiles, fs);
      if forDeletion.Some? {
        out := InitiateDeletion(fs, forDeletion.value);
        return;
      }
      var selected := NextInsertionEntry(knownFiles, fs);
      if selected.Some? {
        var result := InitiateFileInsertion(fs, selected.value, now);
        return Got(result);
      }
      return Idle;
    }

    /** One attempt of `read`; waiting for new files is left to the caller. */
    method Read(fs: Fs, now: nat) returns (out: Outcome)
      requires Valid()
      modifies this
      ensures Next(old(View()), fs, now, View(), out)
      ensures !out.Panic? ==> Valid()
    {
      if deferredReadResult.Some? {
        out := Got(deferredReadResult.value);
        deferredReadResult := None;
      } else if reader.Some? {
        out := ReadEntry();
      } else {
        out := NextActionDetermined(fs, now);
      }
    }
  }

  function Fresh(m: ReadMethod): State {
    State(m, map[], map[], map[], None, None, None, None, 0)
  }
}
