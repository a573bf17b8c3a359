/**
 Stores across restarts. A start cuts the store at the finalised time and then adds its own events under names taken
 from the clock: a local file when its first event is written, an S3 object when its upload is begun, which for the
 first upload of a start is before the cut renames the part it keeps.
 */
module SnapshotRestart {
  import opened Values
  import opened Offsets
  import opened SnapshotLog
  import opened SnapshotStores

  // ---------------------------------------------------------------- cutting a store

  /** Reading up to the first mark that reaches the threshold reads exactly the kept log. */
  lemma ReadToMark(log: seq<LogEvent>, threshold: TotalFrontier, n: nat)
    requires n < |log| && threshold != At(0) && Reaches(log[n], threshold)
    requires forall i :: 0 <= i < n ==> !Reaches(log[i], threshold)
    ensures CutIndex(log, threshold) == n && Kept(log, threshold) == log[..n + 1]
  {
    CutIndexUnique(log, threshold, n);
  }

  lemma ReadToEnd(log: seq<LogEvent>, threshold: TotalFrontier)
    requires threshold != At(0) && forall i :: 0 <= i < |log| ==> !Reaches(log[i], threshold)
    ensures CutIndex(log, threshold) == |log| && Kept(log, threshold) == log
  {
    CutIndexUnique(log, threshold, |log|);
  }

  /** One read further into a store of which the first `n` events were read. */
  lemma AfterRead(dir: Directory, c: Cursor, n: nat, d: Cursor, e: Option<LogEvent>)
    requires InStore(dir, c) && n <= |EventsOf(dir)| && ReadSoFar(dir, c) == EventsOf(dir)[..n]
    requires (d, e) == Advanced(dir, c)
    ensures e == (if n < |EventsOf(dir)| then Some(EventsOf(dir)[n]) else None)
    ensures ReadSoFar(dir, d) == EventsOf(dir)[..if e.Some? then n + 1 else n]
    ensures e.Some? ==> d.open > 0 && d.taken.Some? && d.taken.value > 0
  {
    NextRead(dir, c, n);
  }

  lemma WholeRead(dir: Directory, c: Cursor, log: seq<LogEvent>, n: nat)
    requires InStore(dir, c) && n == |log| && ReadSoFar(dir, c) == log[..n]
    ensures ReadSoFar(dir, c) == log
  {}

  /** One read of a local store of which the first `n` events were read. */
  method NextLocal(r: LocalReader, ghost log: seq<LogEvent>, ghost n: nat) returns (e: Option<LogEvent>)
    requires r.Valid() && log == EventsOf(r.files) && n <= |log| && ReadSoFar(r.files, r.Place()) == log[..n]
    modifies r`reader, r`nextFileIdx
    ensures r.Valid() && e == if n < |log| then Some(log[n]) else None
    ensures ReadSoFar(r.files, r.Place()) == log[..if e.Some? then n + 1 else n]
  {
    ghost var before := r.Place();
    e := r.Read();
    AfterRead(r.files, before, n, r.Place(), e);
  }

  /** The loop of `SnapshotReader` over local files: whatever stops it, exactly the kept log has been read. */
  method FindCutLocal(r: LocalReader, threshold: TotalFrontier) returns (cut: bool)
    requires r.Valid() && r.Place() == Cursor(0, None) && threshold != At(0)
    modifies r`reader, r`nextFileIdx
    ensures r.Valid() && ReadSoFar(r.files, r.Place()) == Kept(EventsOf(r.files), threshold)
    ensures !cut ==> Kept(EventsOf(r.files), threshold) == EventsOf(r.files)
  {
    ghost var log := EventsOf(r.files);
    ghost var n := 0;
    while true
      invariant r.Valid() && n <= |log| && ReadSoFar(r.files, r.Place()) == log[..n]
      invariant forall i :: 0 <= i < n ==> !Reaches(log[i], threshold)
      decreases |log| - n
    {
      var e := NextLocal(r, log, n);
      if e == None {
        ReadToEnd(log, threshold);
        WholeRead(r.files, r.Place(), log, n);
        return false;
      }
      if Reaches(e.value, threshold) {
        ReadToMark(log, threshold, n);
        return true;
      }
      n := n + 1;
    }
  }

  /** A start on local files leaves the kept log on disk, and no new name. */
  method CutLocal(files: Directory, threshold: TotalFrontier) returns (left: Directory)
    requires Sorted(files)
    ensures Sorted(left) && EventsOf(left) == Kept(EventsOf(files), threshold)
    ensures |left| <= |files| && forall i :: 0 <= i < |left| ==> left[i].name == files[i].name
  {
    var r := new LocalReader(files);
    var cut := true;
    if threshold != At(0) {
      cut := FindCutLocal(r, threshold);
    }
    if cut {
      r.Truncate();
    }
    left := r.files;
  }

  method NextS3(r: S3Reader, ghost log: seq<LogEvent>, ghost n: nat) returns (e: Option<LogEvent>)
    requires r.Valid() && log == EventsOf(r.objects) && n <= |log| && ReadSoFar(r.objects, r.Place()) == log[..n]
    modifies r`reader, r`nextObjectIdx, r`currentChunkLen
    ensures r.Valid() && e == if n < |log| then Some(log[n]) else None
    ensures ReadSoFar(r.objects, r.Place()) == log[..if e.Some? then n + 1 else n]
    ensures e.Some? ==> r.nextObjectIdx > 0 && r.currentChunkLen > 0
  {
    ghost var before := r.Place();
    e := r.Read();
    AfterRead(r.objects, before, n, r.Place(), e);
  }

  /** The loop of `SnapshotReader` over S3 objects. */
  method FindCutS3(r: S3Reader, threshold: TotalFrontier) returns (cut: bool)
    requires r.Valid() && r.Place() == Cursor(0, None) && threshold != At(0)
    modifies r`reader, r`nextObjectIdx, r`currentChunkLen
    ensures r.Valid() && ReadSoFar(r.objects, r.Place()) == Kept(EventsOf(r.objects), threshold)
    ensures cut ==> r.nextObjectIdx > 0 && r.currentChunkLen > 0
    ensures !cut ==> Kept(EventsOf(r.objects), threshold) == EventsOf(r.objects)
    ensures cut <==> CutIndex(EventsOf(r.objects), threshold) < |EventsOf(r.objects)|
  {
    ghost var log := EventsOf(r.objects);
    ghost var n := 0;
    while true
      invariant r.Valid() && n <= |log| && ReadSoFar(r.objects, r.Place()) == log[..n]
      invariant forall i :: 0 <= i < n ==> !Reaches(log[i], threshold)
      decreases |log| - n
    {
      var e := NextS3(r, log, n);
      if e == None {
        ReadToEnd(log, threshold);
        return false;
      }
      if Reaches(e.value, threshold) {
        ReadToMark(log, threshold, n);
        return true;
      }
      n := n + 1;
    }
  }

  /** A start on S3 leaves the kept log too, but the kept part of the object that is cut gets the name `freshName`. */
  method CutS3(objects: Directory, threshold: TotalFrontier, freshName: nat) returns (left: Directory, older: nat)
    requires Sorted(objects) && forall i :: 0 <= i < |objects| ==> objects[i].name < freshName
    ensures Sorted(left) && EventsOf(left) == Kept(EventsOf(objects), threshold)
    ensures older <= |objects| && Renewed(objects, older, left, freshName)
    ensures threshold != At(0) && CutIndex(EventsOf(objects), threshold) < |EventsOf(objects)| ==>
              older < |objects| && |left| == older + 1
  {
    var r := new S3Reader(objects);
    if threshold == At(0) {
      r.Truncate(freshName);
      return r.objects, 0;
    }
    var cut := FindCutS3(r, threshold);
    if !cut {
      return objects, |objects|;
    }
    older := r.nextObjectIdx - 1;
    r.Truncate(freshName);
    left := r.objects;
  }

  // ---------------------------------------------------------------- adding objects

  lemma {:induction false} EventsOfConcat(a: Directory, b: Directory)
    ensures EventsOf(a + b) == EventsOf(a) + EventsOf(b)
    decreases |b|
  {
    if b == [] {
      assert a + b == a && EventsOf(a) + [] == EventsOf(a);
    } else {
      var init, last := b[..|b| - 1], b[|b| - 1];
      EventsOfConcat(a, init);
      EventsOfSnoc(a + init, last);
      assert a + b == a + init + [last];
      assert EventsOf(b) == EventsOf(init) + last.events;
      ConcatAssociates(EventsOf(a), EventsOf(init), last.events);
    }
  }

  /** A new object takes its place between smaller and greater names. */
  lemma {:induction false} PutBetween(a: Directory, f: File, b: Directory)
    requires forall i :: 0 <= i < |a| ==> a[i].name < f.name
    requires forall i :: 0 <= i < |b| ==> f.name < b[i].name
    ensures Put(a + b, f) == a + [f] + b
  {
    if a == [] {
      assert a + b == b && a + [f] + b == [f] + b;
    } else {
      var dir := a + b;
      assert dir[0] == a[0] && dir[1..] == a[1..] + b;
      PutBetween(a[1..], f, b);
      assert Put(dir, f) == [a[0]] + (a[1..] + [f] + b);
      ConsAround(a, f, b);
    }
  }

  lemma ConsAround(a: Directory, f: File, b: Directory)
    requires a != []
    ensures [a[0]] + (a[1..] + [f] + b) == a + [f] + b
  {}

  /** The store once all uploads of a start are finalised. */
  function Finalised(dir: Directory, uploads: seq<File>): Directory {
    if uploads == [] then dir else Put(Finalised(dir, uploads[..|uploads| - 1]), uploads[|uploads| - 1])
  }

  predicate AllBelow(files: seq<File>, name: nat) {
    forall i :: 0 <= i < |files| ==> files[i].name < name
  }

  /** Names taken from the clock one after the other, behind all names of `dir`. */
  ghost predicate Behind(dir: Directory, uploads: seq<File>) {
    Sorted(uploads) && forall i, j :: 0 <= i < |dir| && 0 <= j < |uploads| ==> dir[i].name < uploads[j].name
  }

  lemma {:induction false} FinalisedBehind(dir: Directory, uploads: seq<File>)
    requires Behind(dir, uploads)
    ensures Finalised(dir, uploads) == dir + uploads
    decreases |uploads|
  {
    if uploads != [] {
      var init, last := uploads[..|uploads| - 1], uploads[|uploads| - 1];
      FinalisedBehind(dir, init);
      PutLast(dir + init, last);
      assert dir + init + [last] == dir + uploads;
    } else {
      assert dir + uploads == dir;
    }
  }

  lemma {:induction false} FinalisedBefore(front: Directory, uploads: seq<File>, mid: File)
    requires Behind(front, uploads) && AllBelow(uploads, mid.name)
    ensures Finalised(front + [mid], uploads) == front + uploads + [mid]
    decreases |uploads|
  {
    if uploads != [] {
      var init, last := uploads[..|uploads| - 1], uploads[|uploads| - 1];
      FinalisedBefore(front, init, mid);
      PutBetween(front + init, last, [mid]);
      assert front + init + [last] + [mid] == front + uploads + [mid];
    } else {
      assert front + uploads == front;
    }
  }

  lemma {:induction false} FinalisedConcat(dir: Directory, a: seq<File>, b: seq<File>)
    ensures Finalised(dir, a + b) == Finalised(Finalised(dir, a), b)
    decreases |b|
  {
    if b == [] {
      assert a + b == a;
    } else {
      FinalisedConcat(dir, a, b[..|b| - 1]);
      assert (a + b)[..|a + b| - 1] == a + b[..|b| - 1];
    }
  }

  /** Uploads named before the renamed part come before it, the others behind it. */
  lemma FinalisedAround(front: Directory, mid: File, early: seq<File>, late: seq<File>)
    requires Around(front, mid, early, late)
    ensures Finalised(front + [mid], early + late) == front + early + [mid] + late
  {
    FinalisedConcat(front + [mid], early, late);
    FinalisedBefore(front, early, mid);
    FinalisedBehind(front + early + [mid], late);
  }

  /** The names of a start: `early` before that of the renamed part `mid`, `late` behind it, all behind the older objects. */
  ghost predicate Around(front: Directory, mid: File, early: seq<File>, late: seq<File>) {
    Behind(front, early) && AllBelow(early, mid.name) && Behind(front + early + [mid], late)
  }

  lemma EventsAround(front: Directory, mid: File, early: seq<File>, late: seq<File>)
    ensures EventsOf(front + early + [mid] + late) == EventsOf(front) + (EventsOf(early) + mid.events) + EventsOf(late)
  {
    EventsOfConcat(front + early + [mid], late);
    EventsOfSnoc(front + early, mid);
    EventsOfConcat(front, early);
    ConcatAssociates(EventsOf(front), EventsOf(early), mid.events);
  }

  lemma Cancel(a: seq<LogEvent>, x: seq<LogEvent>, y: seq<LogEvent>, b: seq<LogEvent>)
    requires |x| == |y|
    ensures a + x + b == a + y + b <==> x == y
  {
    if a + x + b == a + y + b {
      assert x == (a + x + b)[|a|..|a| + |x|] && y == (a + y + b)[|a|..|a| + |y|];
    }
  }

  // ---------------------------------------------------------------- what the next start reads

  /**
   S3: after a cut that renamed its part to `mid`, a fresh reader returns the kept log followed by the new events if
   and only if the events uploaded under earlier names commute with the renamed part.
   */
  lemma S3ContinuesIff(front: Directory, mid: File, early: seq<File>, late: seq<File>)
    requires Around(front, mid, early, late)
    ensures EventsOf(Finalised(front + [mid], early + late)) == EventsOf(front + [mid]) + EventsOf(early + late) <==>
            EventsOf(early) + mid.events == mid.events + EventsOf(early)
  {
    FinalisedAround(front, mid, early, late);
    EventsAround(front, mid, early, late);
    KeptThenNew(front, mid, early, late);
    Cancel(EventsOf(front), EventsOf(early) + mid.events, mid.events + EventsOf(early), EventsOf(late));
  }

  lemma KeptThenNew(front: Directory, mid: File, early: seq<File>, late: seq<File>)
    ensures EventsOf(front + [mid]) + EventsOf(early + late) ==
            EventsOf(front) + (mid.events + EventsOf(early)) + EventsOf(late)
  {
    var f, e, m, l := EventsOf(front), EventsOf(early), mid.events, EventsOf(late);
    EventsOfSnoc(front, mid);
    EventsOfConcat(early, late);
    ConcatAssociates(f + m, e, l);
    ConcatAssociates(f, m, e);
  }

  /** So it does when all names are behind the renamed one. */
  lemma S3ContinuesBehind(front: Directory, mid: File, uploads: seq<File>)
    requires Behind(front + [mid], uploads)
    ensures EventsOf(Finalised(front + [mid], uploads)) == EventsOf(front + [mid]) + EventsOf(uploads)
  {
    FinalisedBehind(front + [mid], uploads);
    EventsOfConcat(front + [mid], uploads);
  }

  lemma NotCommuting(x: seq<LogEvent>, y: seq<LogEvent>)
    requires x != [] && y != [] && x[0] != y[0]
    ensures x + y != y + x
  {
    assert (x + y)[0] == x[0] && (y + x)[0] == y[0];
  }

  /** If the first new event is not the first of the renamed part, this is decided by the name of the first upload. */
  lemma S3ContinuesIffNamedBehind(front: Directory, mid: File, first: File, late: seq<File>)
    requires first.name < mid.name ==> Around(front, mid, [first], late)
    requires mid.name < first.name ==> Behind(front + [mid], [first] + late)
    requires first.name != mid.name && first.events != [] && mid.events != [] && first.events[0] != mid.events[0]
    ensures EventsOf(Finalised(front + [mid], [first] + late)) == EventsOf(front + [mid]) + EventsOf([first] + late) <==>
            mid.name < first.name
  {
    if first.name < mid.name {
      S3ContinuesIff(front, mid, [first], late);
      EventsOfOne(first);
      NotCommuting(first.events, mid.events);
    } else {
      S3ContinuesBehind(front, mid, [first] + late);
    }
  }

  lemma EventsOfOne(f: File)
    ensures EventsOf([f]) == f.events
  {
    assert [f] == [] + [f];
    EventsOfSnoc([], f);
    assert EventsOf([]) == [];
  }

  /** Local files continue the kept log: the writer names its file when it writes its first event, behind all others. */
  lemma LocalContinues(left: Directory, f: File)
    requires AllBelow(left, f.name)
    ensures EventsOf(Put(left, f)) == EventsOf(left) + f.events
  {
    PutLast(left, f);
    EventsOfSnoc(left, f);
  }

  // ---------------------------------------------------------------- any number of starts

  /** One start: the finalised time it found, and the events that it left on disk, under a name of its own. */
  datatype Incarnation = Incarnation(threshold: TotalFrontier, name: nat, events: seq<LogEvent>)

  /** The log of the recovery machine after these starts. */
  function LogAfter(log: seq<LogEvent>, starts: seq<Incarnation>): seq<LogEvent>
    decreases |starts|
  {
    if starts == [] then log else LogAfter(Kept(log, starts[0].threshold) + starts[0].events, starts[1..])
  }

  ghost predicate NamesGrow(dir: Directory, starts: seq<Incarnation>) {
    && (forall i, j :: 0 <= i < |dir| && 0 <= j < |starts| ==> dir[i].name < starts[j].name)
    && (forall i, j :: 0 <= i < j < |starts| ==> starts[i].name < starts[j].name)
  }

  /** Over any number of starts the local store holds exactly that log. */
  method LocalStarts(files: Directory, starts: seq<Incarnation>) returns (after: Directory)
    requires Sorted(files) && NamesGrow(files, starts)
    ensures EventsOf(after) == LogAfter(EventsOf(files), starts)
  {
    after := files;
    for i := 0 to |starts|
      invariant Sorted(after) && NamesGrow(after, starts[i..])
      invariant LogAfter(EventsOf(after), starts[i..]) == LogAfter(EventsOf(files), starts)
    {
      var left := CutLocal(after, starts[i].threshold);
      ghost var later := starts[i + 1..];
      LogAfterOne(EventsOf(after), starts, i);
      NamesGrowNext(after, left, starts, i, later);
      after := StartWritten(left, starts[i], later);
    }
    assert starts[|starts|..] == [];
  }

  lemma LogAfterOne(log: seq<LogEvent>, starts: seq<Incarnation>, i: nat)
    requires i < |starts|
    ensures LogAfter(log, starts[i..]) == LogAfter(Kept(log, starts[i].threshold) + starts[i].events, starts[i + 1..])
  {
    assert starts[i..][1..] == starts[i + 1..];
  }

  lemma NamesGrowNext(before: Directory, left: Directory, starts: seq<Incarnation>, i: nat, later: seq<Incarnation>)
    requires i < |starts| && NamesGrow(before, starts[i..]) && later == starts[i + 1..]
    requires |left| <= |before| && forall j :: 0 <= j < |left| ==> left[j].name == before[j].name
    ensures AllBelow(left, starts[i].name) && NamesGrow(left, later)
    ensures forall j :: 0 <= j < |later| ==> starts[i].name < later[j].name
  {
    var now := starts[i..];
    assert now[0] == starts[i] && forall j :: 0 <= j < |later| ==> later[j] == now[j + 1];
  }

  /** What a start adds: a file, once it has written an event. */
  method StartWritten(left: Directory, start: Incarnation, ghost later: seq<Incarnation>) returns (after: Directory)
    requires Sorted(left) && AllBelow(left, start.name) && NamesGrow(left, later)
    requires forall j :: 0 <= j < |later| ==> start.name < later[j].name
    ensures Sorted(after) && NamesGrow(after, later) && EventsOf(after) == EventsOf(left) + start.events
  {
    if start.events == [] {
      assert EventsOf(left) + start.events == EventsOf(left);
      return left;
    }
    after := Put(left, File(start.name, start.events));
    LocalContinues(left, File(start.name, start.events));
    PutLast(left, File(start.name, start.events));
    SnocGrows(left, File(start.name, start.events), later);
  }

  lemma SnocGrows(left: Directory, f: File, later: seq<Incarnation>)
    requires Sorted(left) && AllBelow(left, f.name) && NamesGrow(left, later)
    requires forall j :: 0 <= j < |later| ==> f.name < later[j].name
    ensures Sorted(left + [f]) && NamesGrow(left + [f], later)
  {
    var d := left + [f];
    assert forall i :: 0 <= i < |d| ==> d[i].name == if i < |left| then left[i].name else f.name;
  }

  // ---------------------------------------------------------------- any number of starts on S3

  /** One start on S3: the name that its cut gives to the part it keeps, and the objects that it finalised. */
  datatype S3Start = S3Start(threshold: TotalFrontier, renamed: nat, uploads: seq<File>)

  function LastName(start: S3Start): nat {
    if start.uploads == [] then start.renamed else start.uploads[|start.uploads| - 1].name
  }

  /** All names are taken one after the other, in each start the new name of the kept part before those of the uploads. */
  predicate S3NamesGrow(last: nat, starts: seq<S3Start>)
    decreases |starts|
  {
    starts == [] ||
    (last < starts[0].renamed && UploadsBehind(starts[0]) && S3NamesGrow(LastName(starts[0]), starts[1..]))
  }

  predicate UploadsBehind(start: S3Start) {
    (forall i, j :: 0 <= i < j < |start.uploads| ==> start.uploads[i].name < start.uploads[j].name) &&
    forall i :: 0 <= i < |start.uploads| ==> start.renamed < start.uploads[i].name
  }

  /** The starts with the events they added, wherever these were stored. */
  predicate SameEvents(starts: seq<S3Start>, incarnations: seq<Incarnation>) {
    |starts| == |incarnations| &&
    forall i :: 0 <= i < |starts| ==>
      starts[i].threshold == incarnations[i].threshold && EventsOf(starts[i].uploads) == incarnations[i].events
  }

  /** Over any number of such starts the S3 store holds exactly the same log. */
  method S3Starts(objects: Directory, last: nat, starts: seq<S3Start>, ghost incarnations: seq<Incarnation>)
    returns (after: Directory)
    requires Sorted(objects) && AllBelow(objects, last + 1) && S3NamesGrow(last, starts) && SameEvents(starts, incarnations)
    ensures EventsOf(after) == LogAfter(EventsOf(objects), incarnations)
  {
    after := objects;
    ghost var top := last;
    for i := 0 to |starts|
      invariant Sorted(after) && AllBelow(after, top + 1) && S3NamesGrow(top, starts[i..])
      invariant LogAfter(EventsOf(after), incarnations[i..]) == LogAfter(EventsOf(objects), incarnations)
    {
      assert starts[i..][0] == starts[i] && starts[i..][1..] == starts[i + 1..];
      LogAfterOne(EventsOf(after), incarnations, i);
      after := S3Written(after, top, starts[i]);
      top := LastName(starts[i]);
    }
    assert incarnations[|starts|..] == [];
  }

  /** One start: the cut, and its objects. */
  method S3Written(objects: Directory, ghost last: nat, start: S3Start) returns (after: Directory)
    requires Sorted(objects) && AllBelow(objects, last + 1) && last < start.renamed && UploadsBehind(start)
    ensures Sorted(after) && AllBelow(after, LastName(start) + 1)
    ensures EventsOf(after) == Kept(EventsOf(objects), start.threshold) + EventsOf(start.uploads)
  {
    var left, older := CutS3(objects, start.threshold, start.renamed);
    RenewedBelow(objects, older, left, start.renamed);
    FinalisedBehind(left, start.uploads);
    EventsOfConcat(left, start.uploads);
    AppendedGrows(left, start);
    after := Finalised(left, start.uploads);
  }

  lemma RenewedBelow(objects: Directory, older: nat, left: Directory, renamed: nat)
    requires AllBelow(objects, renamed) && older <= |objects| && Renewed(objects, older, left, renamed)
    ensures AllBelow(left, renamed + 1)
  {
    forall i | 0 <= i < |left| ensures left[i].name <= renamed {
      if i < older {
        assert left[i] == left[..older][i] == objects[..older][i];
      }
    }
  }

  lemma AppendedGrows(left: Directory, start: S3Start)
    requires Sorted(left) && AllBelow(left, start.renamed + 1) && UploadsBehind(start)
    ensures Sorted(left + start.uploads) && AllBelow(left + start.uploads, LastName(start) + 1)
  {}

  // ---------------------------------------------------------------- the S3 run that loses rows

  /** A cut inside the new events, read first, drops the kept log that was to come before them. */
  lemma CutInFront(n: seq<LogEvent>, k: seq<LogEvent>, threshold: TotalFrontier)
    requires CutIndex(n, threshold) < |n|
    ensures Kept(n + k, threshold) == Kept(n, threshold)
  {
    var c := CutIndex(n, threshold);
    CutIndexUnique(n + k, threshold, c);
    assert (n + k)[..c + 1] == n[..c + 1];
  }

  lemma CutBehind(k: seq<LogEvent>, n: seq<LogEvent>, threshold: TotalFrontier)
    requires threshold != At(0) && CutIndex(k, threshold) == |k|
    ensures Kept(k + n, threshold) == k + Kept(n, threshold)
  {
    var c, log := CutIndex(n, threshold), k + n;
    assert forall i :: |k| <= i < |log| ==> log[i] == n[i - |k|];
    CutIndexUnique(log, threshold, |k| + c);
    if c < |n| {
      assert log[..|k| + c + 1] == k + n[..c + 1];
    }
  }

  lemma LostRows(kept: seq<LogEvent>, added: seq<LogEvent>, second: TotalFrontier)
    requires second != At(0) && CutIndex(kept, second) == |kept| && Rows(kept) != []
    ensures var lost := Kept(added, second);
            Rows(Kept(kept + added, second)) == Rows(kept) + Rows(lost) && Rows(Kept(kept + added, second)) != Rows(lost)
  {
    CutBehind(kept, added, second);
    RowsConcat(kept, Kept(added, second));
    assert |Rows(kept) + Rows(Kept(added, second))| == |Rows(kept)| + |Rows(Kept(added, second))|;
  }

  /** The first start: the store then holds the new events before the kept ones. */
  method NewBeforeKept(stored: seq<LogEvent>, added: seq<LogEvent>, first: TotalFrontier, old_: nat, begun: nat, renamed: nat)
    returns (after: Directory)
    requires old_ < begun < renamed && first != At(0) && CutIndex(stored, first) < |stored|
    ensures Sorted(after) && AllBelow(after, renamed + 1) && EventsOf(after) == added + Kept(stored, first)
  {
    var before, upload := File(old_, stored), File(begun, added);
    EventsOfOne(before);
    var left, older := CutS3([before], first, renamed);
    assert left == [left[0]] && left[0].name == renamed;
    EventsOfOne(upload);
    EventsOfConcat([upload], left);
    after := Put(left, upload);
    assert after == [upload] + left;
  }

  /**
   Two starts on S3. The first keeps a part of an object and renames it, but its own events `added` go to an upload
   that was begun before. The second start reads these first, cuts inside them, and so deletes the kept log, although
   its finalised time lies behind it: all rows of the kept log are gone.
   */
  method KeptRowsLost(stored: seq<LogEvent>, added: seq<LogEvent>, first: TotalFrontier, second: TotalFrontier,
                      names: (nat, nat, nat, nat))
    returns (after: Directory)
    requires names.0 < names.1 < names.2 < names.3 && first != At(0) && second != At(0)
    requires CutIndex(stored, first) < |stored| && CutIndex(added, second) < |added|
    requires var kept := Kept(stored, first); CutIndex(kept, second) == |kept| && Rows(kept) != []
    ensures EventsOf(after) == Kept(added, second)
    ensures var kept := Kept(stored, first);
            && Rows(Kept(kept + added, second)) == Rows(kept) + Rows(EventsOf(after))
            && Rows(Kept(kept + added, second)) != Rows(EventsOf(after))
  {
    ghost var kept := Kept(stored, first);
    var between := NewBeforeKept(stored, added, first, names.0, names.1, names.2);
    CutInFront(added, kept, second);
    LostRows(kept, added, second);
    var older;
    after, older := CutS3(between, second, names.3);
  }
}
