/**
 The log of the recovery machine and the stores that hold it. Over every run local files hold what the machine has on
 disk; S3 objects do so as long as the uploads of a start are named behind the part that its cut renamed.
 */
module RecoveryStores {
  import opened Offsets
  import opened SnapshotLog
  import opened SnapshotStores
  import opened SnapshotRestart
  import opened LogInvariant
  import opened Recovery
  import Uploader = SnapshotUploader

  // ---------------------------------------------------------------- the starts of a run

  /**
   The starts of a run, read off its steps: for each the finalised time it found and the events it added that were on
   disk when it crashed, or, for the last one, within the first `onDisk` events of the log. The current start found
   `found` and kept the first `kept` events of its log; `names` are the names that starts take from the clock.
   */
  ghost function StartsOf(src: Source, s: Sys, found: TotalFrontier, kept: nat, steps: seq<SysStep>, onDisk: nat,
                          names: nat -> nat, i: nat): seq<Incarnation>
    requires EnabledRun(src, s, steps)
    decreases |steps|
  {
    if steps == [] then [Incarnation(found, names(i), Between(Log(s), kept, onDisk))]
    else if steps[0].Crash? then
      var disk := Log(s)[..steps[0].onDisk];
      [Incarnation(found, names(i), Between(Log(s), kept, steps[0].onDisk))] +
      StartsOf(src, SysStepped(src, s, steps[0]), s.threshold, |Kept(disk, s.threshold)|, steps[1..], onDisk, names, i + 1)
    else StartsOf(src, SysStepped(src, s, steps[0]), found, kept, steps[1..], onDisk, names, i)
  }

  function Between(log: seq<LogEvent>, from: nat, to: nat): seq<LogEvent> {
    if from <= to <= |log| then log[from..to] else []
  }

  /** Steps other than a crash only add to the log. */
  lemma StepAppends(src: Source, s: Sys, step: SysStep)
    requires s.conn.writer.Some? && s.durable <= |Log(s)| && Enabled(s, step) && !step.Crash?
    ensures var t := SysStepped(src, s, step); t.conn.writer.Some? && Log(s) <= Log(t) && s.durable <= t.durable <= |Log(t)|
  {
    if step.Read? {
      ReadAppends(src, s, step.key, step.now);
    }
  }

  /** The kept part of the log is on disk from the start. */
  ghost predicate Keeps(s: Sys, before: seq<LogEvent>, found: TotalFrontier, kept: nat) {
    && s.conn.writer.Some? && kept <= s.durable <= |Log(s)|
    && Kept(before, found) == Log(s)[..kept]
  }

  lemma CrashKeeps(src: Source, s: Sys, crash: SysStep)
    requires crash.Crash? && Enabled(s, crash)
    ensures var disk := Log(s)[..crash.onDisk];
            Keeps(SysStepped(src, s, crash), disk, s.threshold, |Kept(disk, s.threshold)|)
  {
    var disk := Log(s)[..crash.onDisk];
    RestartOutcome(s.conn.numColumns, disk, s.threshold, crash.mode, crash.batchClock, crash.clock);
  }

  lemma StillKeeps(s: Sys, t: Sys, before: seq<LogEvent>, found: TotalFrontier, kept: nat)
    requires Keeps(s, before, found, kept) && t.conn.writer.Some? && Log(s) <= Log(t) && s.durable <= t.durable <= |Log(t)|
    ensures Keeps(t, before, found, kept)
  {
    assert Log(t)[..kept] == Log(s)[..kept];
  }

  /** What a start kept and what it added since is what it has on disk. */
  lemma KeptAndAdded(s: Sys, before: seq<LogEvent>, found: TotalFrontier, kept: nat, onDisk: nat)
    requires Keeps(s, before, found, kept) && s.durable <= onDisk <= |Log(s)|
    ensures Kept(before, found) + Between(Log(s), kept, onDisk) == Log(s)[..onDisk]
  {}

  lemma LogAfterFirst(before: seq<LogEvent>, first: Incarnation, later: seq<Incarnation>, disk: seq<LogEvent>)
    requires Kept(before, first.threshold) + first.events == disk
    ensures LogAfter(before, [first] + later) == LogAfter(disk, later)
  {
    assert ([first] + later)[1..] == later;
  }

  lemma {:induction false} LogOfStarts(src: Source, s: Sys, before: seq<LogEvent>, found: TotalFrontier, kept: nat,
                                       steps: seq<SysStep>, onDisk: nat, names: nat -> nat, i: nat)
    requires EnabledRun(src, s, steps) && Keeps(s, before, found, kept)
    requires RunSys(src, s, steps).durable <= onDisk <= |Log(RunSys(src, s, steps))|
    ensures LogAfter(before, StartsOf(src, s, found, kept, steps, onDisk, names, i)) == Log(RunSys(src, s, steps))[..onDisk]
    decreases |steps|
  {
    if steps == [] {
      KeptAndAdded(s, before, found, kept, onDisk);
      LogAfterFirst(before, Incarnation(found, names(i), Between(Log(s), kept, onDisk)), [], Log(s)[..onDisk]);
    } else if steps[0].Crash? {
      var t, disk := SysStepped(src, s, steps[0]), Log(s)[..steps[0].onDisk];
      CrashKeeps(src, s, steps[0]);
      var later := StartsOf(src, t, s.threshold, |Kept(disk, s.threshold)|, steps[1..], onDisk, names, i + 1);
      LogOfStarts(src, t, disk, s.threshold, |Kept(disk, s.threshold)|, steps[1..], onDisk, names, i + 1);
      KeptAndAdded(s, before, found, kept, steps[0].onDisk);
      LogAfterFirst(before, Incarnation(found, names(i), Between(Log(s), kept, steps[0].onDisk)), later, disk);
    } else {
      var t := SysStepped(src, s, steps[0]);
      StepAppends(src, s, steps[0]);
      StillKeeps(s, t, before, found, kept);
      LogOfStarts(src, t, before, found, kept, steps[1..], onDisk, names, i);
    }
  }

  /** The log after the starts of a run, from an empty store, is what the recovery machine has on disk. */
  lemma StartsGiveLog(src: Source, numColumns: nat, mode: ReplayMode, batchClock: nat, clock: nat, steps: seq<SysStep>,
                      onDisk: nat, names: nat -> nat)
    requires var start := Started(numColumns, mode, batchClock, clock);
             && EnabledRun(src, start, steps)
             && RunSys(src, start, steps).durable <= onDisk <= |Log(RunSys(src, start, steps))|
    ensures var start := Started(numColumns, mode, batchClock, clock);
            LogAfter([], StartsOf(src, start, At(0), 0, steps, onDisk, names, 0)) == Log(RunSys(src, start, steps))[..onDisk]
  {
    var start := Started(numColumns, mode, batchClock, clock);
    RestartOutcome(numColumns, [], At(0), mode, batchClock, clock);
    assert Kept([], At(0)) == [] == Log(start)[..0];
    LogOfStarts(src, start, [], At(0), 0, steps, onDisk, names, 0);
  }

  // ---------------------------------------------------------------- local files

  ghost predicate Increasing(names: nat -> nat) {
    forall i: nat, j: nat :: i < j ==> names(i) < names(j)
  }

  ghost predicate NamedFrom(starts: seq<Incarnation>, names: nat -> nat, i: nat) {
    forall j :: 0 <= j < |starts| ==> starts[j].name == names(i + j)
  }

  lemma NamedFirst(first: Incarnation, later: seq<Incarnation>, names: nat -> nat, i: nat)
    requires first.name == names(i) && NamedFrom(later, names, i + 1)
    ensures NamedFrom([first] + later, names, i)
  {
    forall j | 0 <= j < |[first] + later| ensures ([first] + later)[j].name == names(i + j) {
      if j > 0 {
        assert later[j - 1].name == names(i + 1 + (j - 1));
      }
    }
  }

  lemma {:induction false} StartNames(src: Source, s: Sys, found: TotalFrontier, kept: nat, steps: seq<SysStep>,
                                      onDisk: nat, names: nat -> nat, i: nat)
    requires EnabledRun(src, s, steps)
    ensures var starts := StartsOf(src, s, found, kept, steps, onDisk, names, i);
            NamedFrom(starts, names, i)
    decreases |steps|
  {
    if steps == [] {
    } else if steps[0].Crash? {
      var disk := Log(s)[..steps[0].onDisk];
      var t, kept' := SysStepped(src, s, steps[0]), |Kept(disk, s.threshold)|;
      StartNames(src, t, s.threshold, kept', steps[1..], onDisk, names, i + 1);
      NamedFirst(Incarnation(found, names(i), Between(Log(s), kept, steps[0].onDisk)),
                 StartsOf(src, t, s.threshold, kept', steps[1..], onDisk, names, i + 1), names, i);
    } else {
      StartNames(src, SysStepped(src, s, steps[0]), found, kept, steps[1..], onDisk, names, i);
    }
  }

  /**
   Local files over a whole run, with any number of crashes and cuts: they hold exactly what the recovery machine has on
   disk, at the end of every run and for every part of its last events that has reached the disk.
   */
  method LocalStoreFollowsRun(starts: seq<Incarnation>, ghost src: Source, ghost numColumns: nat, ghost mode: ReplayMode,
                              ghost batchClock: nat, ghost clock: nat, ghost steps: seq<SysStep>, ghost onDisk: nat,
                              ghost names: nat -> nat)
    returns (files: Directory)
    requires Increasing(names)
    requires var start := Started(numColumns, mode, batchClock, clock);
             && EnabledRun(src, start, steps)
             && RunSys(src, start, steps).durable <= onDisk <= |Log(RunSys(src, start, steps))|
             && starts == StartsOf(src, start, At(0), 0, steps, onDisk, names, 0)
    ensures EventsOf(files) == Log(RunSys(src, Started(numColumns, mode, batchClock, clock), steps))[..onDisk]
  {
    StartNames(src, Started(numColumns, mode, batchClock, clock), At(0), 0, steps, onDisk, names, 0);
    StartsGiveLog(src, numColumns, mode, batchClock, clock, steps, onDisk, names);
    files := LocalStarts([], starts);
  }

  // ---------------------------------------------------------------- S3

  /** The finalised objects of the uploader, under the names that their uploads were begun with. */
  function Named(objects: seq<seq<LogEvent>>, names: seq<nat>): (files: seq<File>)
    requires |names| == |objects|
    ensures |files| == |objects|
  {
    seq(|objects|, i requires 0 <= i < |objects| => File(names[i], objects[i]))
  }

  lemma {:induction false} NamedEvents(objects: seq<seq<LogEvent>>, names: seq<nat>)
    requires |names| == |objects|
    ensures EventsOf(Named(objects, names)) == Flatten(objects)
    decreases |objects|
  {
    if objects != [] {
      var n := |objects| - 1;
      NamedEvents(objects[..n], names[..n]);
      assert Named(objects, names)[..n] == Named(objects[..n], names[..n]);
    }
  }

  lemma NamedFront(objects: seq<seq<LogEvent>>, names: seq<nat>, n: nat)
    requires |names| == |objects| && n <= |objects|
    ensures var uploads := Named(objects, names);
            uploads == uploads[..n] + uploads[n..] && EventsOf(uploads[..n]) == Flatten(objects[..n])
  {
    NamedEvents(objects[..n], names[..n]);
    assert Named(objects, names)[..n] == Named(objects[..n], names[..n]);
  }

  /**
   Store, uploader and cut together: after any interleaving of a start's writer and uploader, a fresh reader finds the
   kept log followed by all events of the last resolved flush if and only if the events of the first `early` uploads,
   those begun before the cut renamed its part, commute with that part.
   */
  lemma S3DurableIff(steps: seq<Uploader.Step>, names: seq<nat>, front: Directory, mid: File, early: nat)
    requires Uploader.EnabledRun(Uploader.INITIAL, steps)
    requires var w := Uploader.Run(Uploader.INITIAL, steps);
             && |names| == |w.objects| && early <= |names|
             && var uploads := Named(w.objects, names); Around(front, mid, uploads[..early], uploads[early..])
    ensures var w := Uploader.Run(Uploader.INITIAL, steps);
            && Uploader.Covered(w) <= |w.written|
            && var store := Finalised(front + [mid], Named(w.objects, names));
               var flushed, before := w.written[..Uploader.Covered(w)], Flatten(w.objects[..early]);
               EventsOf(store) == EventsOf(front + [mid]) + flushed <==> before + mid.events == mid.events + before
  {
    var w := Uploader.Run(Uploader.INITIAL, steps);
    var uploads := Named(w.objects, names);
    Uploader.NothingLost(steps);
    NamedEvents(w.objects, names);
    NamedFront(w.objects, names, early);
    S3ContinuesIff(front, mid, uploads[..early], uploads[early..]);
  }

  /** The first new event is a mark with a stamp of its own, so this means that nothing was uploaded early. */
  lemma S3DurableIffNothingEarly(steps: seq<Uploader.Step>, names: seq<nat>, front: Directory, mid: File, early: nat)
    requires Uploader.EnabledRun(Uploader.INITIAL, steps)
    requires var w := Uploader.Run(Uploader.INITIAL, steps);
             && |names| == |w.objects| && early <= |names|
             && var uploads := Named(w.objects, names); Around(front, mid, uploads[..early], uploads[early..])
    requires var before := Flatten(Uploader.Run(Uploader.INITIAL, steps).objects[..early]);
             mid.events != [] && (before != [] ==> before[0] != mid.events[0])
    ensures var w := Uploader.Run(Uploader.INITIAL, steps);
            && Uploader.Covered(w) <= |w.written|
            && var store := Finalised(front + [mid], Named(w.objects, names));
               EventsOf(store) == EventsOf(front + [mid]) + w.written[..Uploader.Covered(w)] <==>
               Flatten(w.objects[..early]) == []
  {
    S3DurableIff(steps, names, front, mid, early);
    var before := Flatten(Uploader.Run(Uploader.INITIAL, steps).objects[..early]);
    if before != [] {
      NotCommuting(before, mid.events);
    } else {
      assert before + mid.events == mid.events + before;
    }
  }

  /** The uploader of a start: the steps of writer and uploader, and the names of the finalised objects. */
  datatype Uploads = Uploads(steps: seq<Uploader.Step>, names: seq<nat>)

  /** The start's objects are those of a run of its uploader, which covers exactly the events that it left on disk. */
  ghost predicate UploadedBy(start: S3Start, incarnation: Incarnation, u: Uploads) {
    && start.threshold == incarnation.threshold && Uploader.EnabledRun(Uploader.INITIAL, u.steps)
    && var w := Uploader.Run(Uploader.INITIAL, u.steps);
       && |u.names| == |w.objects| && start.uploads == Named(w.objects, u.names)
       && Uploader.Covered(w) <= |w.written| && incarnation.events == w.written[..Uploader.Covered(w)]
  }

  /**
   S3 over a whole run, with any number of crashes and any interleavings of writers and uploaders: if in each start the
   cut renamed its part before the uploads were begun, the objects hold exactly what the recovery machine has on disk.
   */
  method S3StoreFollowsRun(starts: seq<S3Start>, first: nat, ghost uploads: seq<Uploads>, ghost src: Source,
                           ghost numColumns: nat, ghost mode: ReplayMode, ghost batchClock: nat, ghost clock: nat,
                           ghost steps: seq<SysStep>, ghost onDisk: nat, ghost names: nat -> nat)
    returns (objects: Directory)
    requires S3NamesGrow(first, starts) && |starts| == |uploads|
    requires var start := Started(numColumns, mode, batchClock, clock);
             && EnabledRun(src, start, steps)
             && RunSys(src, start, steps).durable <= onDisk <= |Log(RunSys(src, start, steps))|
             && var incarnations := StartsOf(src, start, At(0), 0, steps, onDisk, names, 0);
                |starts| == |incarnations| && forall i :: 0 <= i < |starts| ==> UploadedBy(starts[i], incarnations[i], uploads[i])
    ensures EventsOf(objects) == Log(RunSys(src, Started(numColumns, mode, batchClock, clock), steps))[..onDisk]
  {
    ghost var incarnations := StartsOf(src, Started(numColumns, mode, batchClock, clock), At(0), 0, steps, onDisk, names, 0);
    forall i | 0 <= i < |starts| ensures EventsOf(starts[i].uploads) == incarnations[i].events {
      assert UploadedBy(starts[i], incarnations[i], uploads[i]);
      Uploader.NothingLost(uploads[i].steps);
      NamedEvents(Uploader.Run(Uploader.INITIAL, uploads[i].steps).objects, uploads[i].names);
    }
    StartsGiveLog(src, numColumns, mode, batchClock, clock, steps, onDisk, names);
    objects := S3Starts([], first, starts, incarnations);
  }
}
