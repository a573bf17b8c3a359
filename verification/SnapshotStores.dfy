/**
 The two stores of a snapshot: local files shrunk in place, and S3 objects that can only be rewritten and deleted.
 Both are read in the order of their numeric names, and truncating either leaves exactly the events read so far.
 */
module SnapshotStores {
  import opened Values
  import opened SnapshotLog

  /** A file or object: the timestamp that names it and the events that decode from it. */
  datatype File = File(name: nat, events: seq<LogEvent>)

  /** A store, listed in the order of the names. */
  type Directory = seq<File>

  ghost predicate Sorted(dir: Directory) {
    forall i, j :: 0 <= i < j < |dir| ==> dir[i].name < dir[j].name
  }

  function Names(dir: Directory): (names: seq<nat>)
    ensures |names| == |dir|
  {
    seq(|dir|, i requires 0 <= i < |dir| => dir[i].name)
  }

  function Removed(dir: Directory, name: nat): Directory {
    if dir == [] then []
    else (if dir[0].name == name then [] else [dir[0]]) + Removed(dir[1..], name)
  }

  function Put(dir: Directory, f: File): Directory {
    if dir == [] || f.name < dir[0].name then [f] + dir
    else if f.name == dir[0].name then [f] + dir[1..]
    else [dir[0]] + Put(dir[1..], f)
  }

  function Shrunk(dir: Directory, name: nat, n: nat): Directory {
    if dir == [] then []
    else if dir[0].name == name && n <= |dir[0].events| then [File(name, dir[0].events[..n])] + dir[1..]
    else [dir[0]] + Shrunk(dir[1..], name, n)
  }

  lemma {:induction false} RemovedAbsent(dir: Directory, name: nat)
    requires forall i :: 0 <= i < |dir| ==> dir[i].name != name
    ensures Removed(dir, name) == dir
  {
    if dir != [] {
      RemovedAbsent(dir[1..], name);
    }
  }

  lemma {:induction false} RemovedAt(dir: Directory, i: nat)
    requires Sorted(dir) && i < |dir|
    ensures Removed(dir, dir[i].name) == dir[..i] + dir[i + 1..]
    decreases |dir|
  {
    if i == 0 {
      RemovedAbsent(dir[1..], dir[0].name);
    } else {
      RemovedAt(dir[1..], i - 1);
      assert dir[..i] == [dir[0]] + dir[1..][..i - 1];
      assert dir[1..][i..] == dir[i + 1..];
    }
  }

  lemma {:induction false} PutLast(dir: Directory, f: File)
    requires forall i :: 0 <= i < |dir| ==> dir[i].name < f.name
    ensures Put(dir, f) == dir + [f]
  {
    if dir != [] {
      PutLast(dir[1..], f);
    }
  }

  lemma {:induction false} ShrunkAt(dir: Directory, i: nat, n: nat)
    requires Sorted(dir) && i < |dir| && n <= |dir[i].events|
    ensures Shrunk(dir, dir[i].name, n) == dir[i := File(dir[i].name, dir[i].events[..n])]
    decreases |dir|
  {
    if i > 0 {
      ShrunkAt(dir[1..], i - 1, n);
    }
  }

  /** All events of a store, in the order in which a fresh reader returns them. */
  function EventsOf(dir: Directory): seq<LogEvent> {
    if dir == [] then [] else EventsOf(dir[..|dir| - 1]) + dir[|dir| - 1].events
  }

  lemma EventsOfSnoc(dir: Directory, f: File)
    ensures EventsOf(dir + [f]) == EventsOf(dir) + f.events
  {
    assert (dir + [f])[..|dir|] == dir;
  }

  lemma {:induction false} EventsOfPrefix(dir: Directory, k: nat)
    requires k <= |dir|
    ensures EventsOf(dir[..k]) <= EventsOf(dir)
    decreases |dir|
  {
    if k == |dir| {
      assert dir[..k] == dir;
    } else {
      EventsOfPrefix(dir[..|dir| - 1], k);
      assert dir[..|dir| - 1][..k] == dir[..k];
    }
  }

  /** A reader's place: how many files it has opened, and how far it is in the last one while that is open. */
  datatype Cursor = Cursor(open: nat, taken: Option<nat>)

  predicate InStore(dir: Directory, c: Cursor) {
    && c.open <= |dir|
    && (c.taken.Some? ==> c.open > 0 && c.taken.value <= |dir[c.open - 1].events|)
  }

  /** The events consumed at a place. */
  function ReadSoFar(dir: Directory, c: Cursor): seq<LogEvent>
    requires InStore(dir, c)
  {
    match c.taken
    case None => EventsOf(dir[..c.open])
    case Some(n) => EventsOf(dir[..c.open - 1]) + dir[c.open - 1].events[..n]
  }

  /** The read loop: close files that are used up and open the next ones until there is an event or no file is left. */
  function Advanced(dir: Directory, c: Cursor): (r: (Cursor, Option<LogEvent>))
    requires InStore(dir, c)
    ensures InStore(dir, r.0)
    ensures r.1.Some? ==> r.0.taken.Some? && r.0.taken.value > 0
    ensures r.1.None? ==> r.0 == Cursor(|dir|, None)
    decreases |dir| - c.open, c.taken.Some?
  {
    match c.taken
    case Some(n) =>
      var file := dir[c.open - 1];
      if n < |file.events| then (Cursor(c.open, Some(n + 1)), Some(file.events[n]))
      else Advanced(dir, Cursor(c.open, None))
    case None =>
      if c.open == |dir| then (c, None) else Advanced(dir, Cursor(c.open + 1, Some(0)))
  }

  lemma FileClosed(dir: Directory, open: nat)
    requires 0 < open <= |dir|
    ensures EventsOf(dir[..open]) == EventsOf(dir[..open - 1]) + dir[open - 1].events
  {
    assert dir[..open] == dir[..open - 1] + [dir[open - 1]];
    EventsOfSnoc(dir[..open - 1], dir[open - 1]);
  }

  /** A read moves on by the event it returns, and returns none exactly when everything has been read. */
  lemma {:induction false} AdvancedReads(dir: Directory, c: Cursor)
    requires InStore(dir, c)
    ensures var (d, e) := Advanced(dir, c);
            && (e.Some? ==> ReadSoFar(dir, d) == ReadSoFar(dir, c) + [e.value])
            && (e.None? ==> ReadSoFar(dir, d) == ReadSoFar(dir, c) == EventsOf(dir))
    decreases |dir| - c.open, c.taken.Some?
  {
    match c.taken {
      case Some(n) =>
        var events := dir[c.open - 1].events;
        if n < |events| {
          assert events[..n + 1] == events[..n] + [events[n]];
        } else {
          FileClosed(dir, c.open);
          assert events[..n] == events;
          AdvancedReads(dir, Cursor(c.open, None));
        }
      case None =>
        if c.open == |dir| {
          assert dir[..c.open] == dir;
        } else {
          AdvancedReads(dir, Cursor(c.open + 1, Some(0)));
        }
    }
  }

  /** After reading the first `n` events, the next read returns the following one, and none at the end. */
  lemma NextRead(dir: Directory, c: Cursor, n: nat)
    requires InStore(dir, c) && n <= |EventsOf(dir)| && ReadSoFar(dir, c) == EventsOf(dir)[..n]
    ensures Advanced(dir, c).1 == (if n < |EventsOf(dir)| then Some(EventsOf(dir)[n]) else None)
    ensures ReadSoFar(dir, Advanced(dir, c).0) == EventsOf(dir)[..if n < |EventsOf(dir)| then n + 1 else n]
  {
    var (d, e) := Advanced(dir, c);
    AdvancedReads(dir, c);
    ReadSoFarIsPrefix(dir, d);
    assert e.Some? ==> ReadSoFar(dir, d)[n] == e.value;
  }

  /** The `n`-th read of a fresh reader returns the `n`-th event of the store, and `None` from its end on. */
  lemma {:induction false} FreshReadReturns(dir: Directory, n: nat)
    ensures var all := EventsOf(dir);
            && ReadSoFar(dir, Nth(dir, n)) == (if n <= |all| then all[..n] else all)
            && Advanced(dir, Nth(dir, n)).1 == (if n < |all| then Some(all[n]) else None)
  {
    var all := EventsOf(dir);
    if n == 0 {
      NextRead(dir, Nth(dir, 0), 0);
    } else {
      FreshReadReturns(dir, n - 1);
      var done := if n - 1 <= |all| then n - 1 else |all|;
      NextRead(dir, Nth(dir, n - 1), done);
      NextRead(dir, Nth(dir, n), if n <= |all| then n else |all|);
    }
  }

  /** The place after `n` reads from the start. */
  function Nth(dir: Directory, n: nat): (c: Cursor)
    ensures InStore(dir, c)
  {
    if n == 0 then Cursor(0, None) else Advanced(dir, Nth(dir, n - 1)).0
  }

  lemma ReadSoFarIsPrefix(dir: Directory, c: Cursor)
    requires InStore(dir, c)
    ensures ReadSoFar(dir, c) <= EventsOf(dir)
  {
    EventsOfPrefix(dir, c.open);
    if c.taken.Some? {
      FileClosed(dir, c.open);
    }
  }

  // ---------------------------------------------------------------- local files

  class LocalReader {
    var files: Directory
    var timesAdvanced: seq<nat>
    var reader: Option<nat>
    var nextFileIdx: nat

    ghost predicate Valid()
      reads this
    {
      Sorted(files) && timesAdvanced == Names(files) && InStore(files, Place())
    }

    function Place(): Cursor
      reads this
    {
      Cursor(nextFileIdx, reader)
    }

    constructor (files: Directory)
      requires Sorted(files)
      ensures Valid() && this.files == files && Place() == Cursor(0, None)
    {
      this.files, timesAdvanced, reader, nextFileIdx := files, Names(files), None, 0;
    }

    method Read() returns (e: Option<LogEvent>)
      requires Valid()
      modifies this`reader, this`nextFileIdx
      ensures Valid() && (Place(), e) == Advanced(files, old(Place()))
    {
      var place := Place();
      e := None;
      while true
        invariant InStore(files, place) && Advanced(files, place) == Advanced(files, Place()) && e == None
        decreases |files| - place.open, place.taken.Some?
      {
        match place.taken {
          case Some(position) =>
            var file := files[place.open - 1];
            if position < |file.events| {
              place, e := Cursor(place.open, Some(position + 1)), Some(file.events[position]);
              break;
            }
            place := Cursor(place.open, None);
          case None =>
            if place.open >= |timesAdvanced| {
              break;
            }
            place := Cursor(place.open + 1, Some(0));
        }
      }
      nextFileIdx, reader := place.open, place.taken;
    }

    /** Shrinks the open file to the read position and removes the files behind it. */
    method Truncate()
      requires Valid()
      modifies this`files
      ensures Sorted(files) && EventsOf(files) == old(ReadSoFar(files, Place()))
      ensures |files| <= |old(files)| && forall i :: 0 <= i < |files| ==> files[i].name == old(files)[i].name
    {
      var shrunk := files;
      if reader.Some? {
        ShrunkAt(files, nextFileIdx - 1, reader.value);
        shrunk := Shrunk(files, timesAdvanced[nextFileIdx - 1], reader.value);
      }
      ShrunkReads(files, Place(), shrunk);
      files := RemoveFiles(shrunk, timesAdvanced, nextFileIdx);
      assert shrunk[..nextFileIdx] + shrunk[|timesAdvanced|..] == shrunk[..nextFileIdx];
    }
  }

  /** Removes the files named from position `from` on, one after the other. */
  method RemoveFiles(dir: Directory, names: seq<nat>, from: nat) returns (left: Directory)
    requires Sorted(dir) && from <= |names| <= |dir|
    requires forall i :: 0 <= i < |names| ==> names[i] == dir[i].name
    ensures left == dir[..from] + dir[|names|..] && Sorted(left)
  {
    left := dir;
    assert dir == dir[..from] + dir[from..];
    for i := from to |names|
      invariant left == dir[..from] + dir[i..]
    {
      RemovedNext(dir, from, i);
      left := Removed(left, names[i]);
    }
    SplicedSorted(dir, from, |names|);
  }

  lemma SplicedSorted(dir: Directory, k: nat, i: nat)
    requires Sorted(dir) && k <= i <= |dir|
    ensures Sorted(dir[..k] + dir[i..])
  {}

  /** Cutting the open file at the read position makes the opened files hold exactly what was read. */
  lemma ShrunkReads(dir: Directory, c: Cursor, shrunk: Directory)
    requires InStore(dir, c)
    requires c.taken.None? ==> shrunk == dir
    requires c.taken.Some? ==>
               var last := dir[c.open - 1];
               shrunk == dir[c.open - 1 := File(last.name, last.events[..c.taken.value])]
    ensures EventsOf(shrunk[..c.open]) == ReadSoFar(dir, c)
  {
    if c.taken.Some? {
      FileClosed(shrunk, c.open);
      assert shrunk[..c.open - 1] == dir[..c.open - 1];
    }
  }

  lemma RemovedNext(dir: Directory, k: nat, i: nat)
    requires Sorted(dir) && k <= i < |dir|
    ensures Removed(dir[..k] + dir[i..], dir[i].name) == dir[..k] + dir[i + 1..]
  {
    var d := dir[..k] + dir[i..];
    assert Sorted(d) && d[k] == dir[i];
    RemovedAt(d, k);
    assert d[..k] == dir[..k] && d[k + 1..] == dir[i + 1..];
  }

  /** A fresh reader, read until it reports the end. */
  method ReadAll(files: Directory) returns (events: seq<LogEvent>)
    requires Sorted(files)
    ensures events == EventsOf(files)
  {
    var r := new LocalReader(files);
    events := [];
    while true
      invariant r.Valid() && r.files == files && ReadSoFar(files, r.Place()) == events
      decreases |EventsOf(files)| - |events|
    {
      ghost var before := r.Place();
      AdvancedReads(files, before);
      var e := r.Read();
      if e == None {
        break;
      }
      ReadSoFarIsPrefix(files, r.Place());
      events := events + [e.value];
    }
  }

  /** Read `n` events, truncate, and read the result afresh: the first `n` events come back, then the end. */
  method TruncateLocalAndReread(files: Directory, n: nat) returns (events: seq<LogEvent>)
    requires Sorted(files)
    ensures events == if n <= |EventsOf(files)| then EventsOf(files)[..n] else EventsOf(files)
  {
    var r := new LocalReader(files);
    for i := 0 to n
      invariant r.Valid() && r.files == files && r.Place() == Nth(files, i)
    {
      var _ := r.Read();
    }
    FreshReadReturns(files, n);
    r.Truncate();
    events := ReadAll(r.files);
  }

  // ---------------------------------------------------------------- S3 objects

  const MAX_CHUNK_LEN: nat := 1_000_000

  function Flatten(parts: seq<seq<LogEvent>>): seq<LogEvent> {
    if parts == [] then [] else Flatten(parts[..|parts| - 1]) + parts[|parts| - 1]
  }

  lemma FlattenSnoc(parts: seq<seq<LogEvent>>, part: seq<LogEvent>)
    ensures Flatten(parts + [part]) == Flatten(parts) + part
  {
    assert (parts + [part])[..|parts|] == parts;
  }

  lemma PrefixGrows(done: seq<LogEvent>, chunk: seq<LogEvent>, source: seq<LogEvent>, n: nat)
    requires n < |source| && done + chunk == source[..n]
    ensures done + (chunk + [source[n]]) == source[..n + 1]
  {
    assert source[..n + 1] == source[..n] + [source[n]];
  }

  /** A multipart upload of the first `n` events of an object, in parts of at most `MAX_CHUNK_LEN`. */
  method CopyPrefix(source: seq<LogEvent>, n: nat) returns (parts: seq<seq<LogEvent>>)
    requires n <= |source|
    ensures Flatten(parts) == source[..n]
    ensures forall i :: 0 <= i < |parts| ==> 0 < |parts[i]| <= MAX_CHUNK_LEN
  {
    parts := [];
    var currentChunk := [];
    for processed := 0 to n
      invariant Flatten(parts) + currentChunk == source[..processed]
      invariant |currentChunk| < MAX_CHUNK_LEN
      invariant forall i :: 0 <= i < |parts| ==> 0 < |parts[i]| <= MAX_CHUNK_LEN
    {
      PrefixGrows(Flatten(parts), currentChunk, source, processed);
      currentChunk := currentChunk + [source[processed]];
      if |currentChunk| == MAX_CHUNK_LEN {
        FlattenSnoc(parts, currentChunk);
        parts, currentChunk := parts + [currentChunk], [];
      }
    }
    if currentChunk != [] {
      FlattenSnoc(parts, currentChunk);
      parts := parts + [currentChunk];
    }
  }

  /** The chunk length counts the events taken from the object opened last, also after it was closed. */
  predicate CountsChunk(dir: Directory, c: Cursor, chunkLen: nat)
    requires InStore(dir, c)
  {
    chunkLen == if c.open == 0 then 0 else if c.taken.Some? then c.taken.value else |dir[c.open - 1].events|
  }

  class S3Reader {
    var objects: Directory
    var timesAdvanced: seq<nat>
    var reader: Option<nat>
    var nextObjectIdx: nat
    var currentChunkLen: nat

    ghost predicate Valid()
      reads this
    {
      && Sorted(objects) && timesAdvanced == Names(objects)
      && InStore(objects, Place()) && CountsChunk(objects, Place(), currentChunkLen)
    }

    function Place(): Cursor
      reads this
    {
      Cursor(nextObjectIdx, reader)
    }

    constructor (objects: Directory)
      requires Sorted(objects)
      ensures Valid() && this.objects == objects && Place() == Cursor(0, None)
    {
      this.objects, timesAdvanced, reader := objects, Names(objects), None;
      nextObjectIdx, currentChunkLen := 0, 0;
    }

    method Read() returns (e: Option<LogEvent>)
      requires Valid()
      modifies this`reader, this`nextObjectIdx, this`currentChunkLen
      ensures Valid() && (Place(), e) == Advanced(objects, old(Place()))
    {
      var place, chunkLen := Place(), currentChunkLen;
      e := None;
      while true
        invariant InStore(objects, place) && Advanced(objects, place) == Advanced(objects, old(Place()))
        invariant CountsChunk(objects, place, chunkLen)
        decreases |objects| - place.open, place.taken.Some?
      {
        match place.taken {
          case Some(position) =>
            var events := objects[place.open - 1].events;
            if position < |events| {
              place, chunkLen, e := Cursor(place.open, Some(position + 1)), chunkLen + 1, Some(events[position]);
              break;
            }
            place := Cursor(place.open, None);
          case None =>
            if place.open >= |timesAdvanced| {
              break;
            }
            place, chunkLen := Cursor(place.open + 1, Some(0)), 0;
        }
      }
      nextObjectIdx, reader, currentChunkLen := place.open, place.taken, chunkLen;
    }

    /** Rewrites the read part of the last object under a fresh name, then deletes that object and all behind it. */
    method Truncate(freshName: nat)
      requires Valid()
      requires forall i :: 0 <= i < |objects| ==> objects[i].name < freshName
      modifies this`objects
      ensures Sorted(objects) && EventsOf(objects) == old(ReadSoFar(objects, Place()))
      ensures var older := if nextObjectIdx > 0 then nextObjectIdx - 1 else 0;
              older <= |old(objects)| && Renewed(old(objects), older, objects, freshName) &&
              |objects| == older + if currentChunkLen > 0 then 1 else 0
    {
      objects := RewriteObjects(objects, timesAdvanced, Place(), currentChunkLen, freshName);
    }
  }

  method RewriteObjects(dir: Directory, names: seq<nat>, c: Cursor, chunkLen: nat, freshName: nat) returns (left: Directory)
    requires Sorted(dir) && names == Names(dir) && InStore(dir, c) && CountsChunk(dir, c, chunkLen)
    requires forall i :: 0 <= i < |dir| ==> dir[i].name < freshName
    ensures Sorted(left) && EventsOf(left) == ReadSoFar(dir, c)
    ensures var older := if c.open > 0 then c.open - 1 else 0;
            Renewed(dir, older, left, freshName) && |left| == older + if chunkLen > 0 then 1 else 0
  {
    var longer := dir;
    if c.open > 0 && chunkLen > 0 {
      var parts := CopyPrefix(dir[c.open - 1].events, chunkLen);
      PutLast(dir, File(freshName, Flatten(parts)));
      longer := Put(dir, File(freshName, Flatten(parts)));
    }
    var removalStart := if c.open > 0 then c.open - 1 else 0;
    RewrittenReads(dir, c, chunkLen, freshName, longer);
    LongerNames(dir, longer, freshName);
    left := RemoveFiles(longer, names, removalStart);
    RenewedBy(dir, longer, removalStart, freshName);
  }

  lemma RenewedBy(dir: Directory, longer: Directory, older: nat, freshName: nat)
    requires older <= |dir| <= |longer| <= |dir| + 1 && longer[..|dir|] == dir
    requires |longer| > |dir| ==> longer[|dir|].name == freshName
    ensures var left := longer[..older] + longer[|dir|..];
            Renewed(dir, older, left, freshName) && |left| == older + |longer| - |dir|
  {
    assert longer[..older] == longer[..|dir|][..older];
  }

  lemma LongerNames(dir: Directory, longer: Directory, freshName: nat)
    requires Sorted(dir) && forall i :: 0 <= i < |dir| ==> dir[i].name < freshName
    requires longer == dir || (|longer| == |dir| + 1 && longer[..|dir|] == dir && longer[|dir|].name == freshName)
    ensures Sorted(longer) && forall i :: 0 <= i < |dir| ==> longer[i].name == dir[i].name
  {
    assert forall i :: 0 <= i < |dir| ==> longer[i] == dir[i];
  }

  /** What a truncation leaves: the first `older` objects, and perhaps one more under the fresh name. */
  predicate Renewed(before: Directory, older: nat, after: Directory, freshName: nat)
    requires older <= |before|
  {
    older <= |after| <= older + 1 && after[..older] == before[..older] && (|after| > older ==> after[older].name == freshName)
  }

  /** The objects before the last one and its rewritten part hold exactly what was read. */
  lemma RewrittenReads(dir: Directory, c: Cursor, chunkLen: nat, freshName: nat, longer: Directory)
    requires InStore(dir, c) && CountsChunk(dir, c, chunkLen)
    requires longer == dir + if chunkLen > 0 then [File(freshName, dir[c.open - 1].events[..chunkLen])] else []
    ensures var start := if c.open > 0 then c.open - 1 else 0;
            EventsOf(longer[..start] + longer[|dir|..]) == ReadSoFar(dir, c)
  {
    var start := if c.open > 0 then c.open - 1 else 0;
    var front := dir[..start];
    assert longer[..start] == front;
    if c.open > 0 {
      var events := dir[c.open - 1].events;
      FileClosed(dir, c.open);
      assert events[..|events|] == events;
      assert ReadSoFar(dir, c) == EventsOf(front) + events[..chunkLen];
      if chunkLen > 0 {
        assert longer[|dir|..] == [File(freshName, events[..chunkLen])];
        EventsOfSnoc(front, File(freshName, events[..chunkLen]));
      } else {
        assert front + longer[|dir|..] == front && EventsOf(front) + events[..0] == EventsOf(front);
      }
    }
  }
}
