/**
 The whole persistence protocol as a state machine: reading, logging, feeding the session, finalising a
 time, crashing with an arbitrary unflushed tail lost, cutting the log, replaying it and seeking the source.
 */
module Recovery {
  import opened Offsets
  import opened SnapshotLog
  import opened Connector
  import opened LogInvariant

  /**
   `next` is the source's position per key. `durable` is how much of the log is known to be flushed, and
   `threshold` the finalised time in the metadata store. `origins` records from which key each logged row
   came; it is history that no step reads.
   */
  datatype Sys = Sys(conn: Conn, next: map<OffsetKey, nat>, origins: seq<OffsetKey>, durable: nat, threshold: TotalFrontier)

  datatype SysStep =
    | Read(key: OffsetKey, now: nat)
    | Tick(now: nat)
    | SourceBoundary(result: ReadResult, now: nat)
    | EndOfInput
    | Finalise(time: TotalFrontier)
    | Crash(onDisk: nat, mode: ReplayMode, batchClock: nat, clock: nat)

  function Log(s: Sys): seq<LogEvent> {
    if s.conn.writer.Some? then s.conn.writer.value else []
  }

  function Next(s: Sys, k: OffsetKey): nat {
    if k in s.next then s.next[k] else 0
  }

  /**
   Any time may be finalised, also one beyond all marks of this input: other inputs may run on after this one ended.
   A finalised time is stored after all writers were flushed. A crash keeps at least what was flushed.
   */
  predicate Enabled(s: Sys, step: SysStep) {
    match step
    case Read(_, _) => s.conn.status.Running?
    case Tick(_) => s.conn.status.Running?
    case SourceBoundary(result, _) => s.conn.status.Running? && (result.NewSource? || result.FinishedSource?)
    case EndOfInput => s.conn.status.Running?
    case Finalise(_) => !s.conn.status.Panicked?
    case Crash(onDisk, _, _, _) => s.durable <= onDisk <= |Log(s)|
  }

  ghost function Resumed(src: Source, f: Frontier): map<OffsetKey, nat> {
    if FrontierOf(src, f) then map k | k in f :: SeekPosition(src, f, k) else map[]
  }

  ghost function SysStepped(src: Source, s: Sys, step: SysStep): Sys
    requires Enabled(s, step)
  {
    match step
    case Read(k, now) =>
      var n := Next(s, k);
      var entry := Realtime(Data(src.outcome(k, n), k, src.offset(k, n)));
      s.(conn := Stepped(s.conn, Receive(entry, now)), next := s.next[k := n + 1],
         origins := s.origins + Repeated(k, |EntryRows(src.outcome(k, n))|))
    case Tick(now) => s.(conn := Stepped(s.conn, Timer(now)))
    case SourceBoundary(result, now) => s.(conn := Stepped(s.conn, Receive(Realtime(result), now)))
    case EndOfInput => s.(conn := Stepped(s.conn, Receive(Realtime(Finished), 0)))
    case Finalise(time) => s.(durable := |Log(s)|, threshold := time)
    case Crash(onDisk, mode, batchClock, clock) =>
      var disk := Log(s)[..onDisk];
      var kept := Kept(disk, s.threshold);
      Sys(Restarted(s.conn.numColumns, disk, s.threshold, mode, batchClock, clock),
          Resumed(src, RestoredFrontier(kept, s.threshold)),
          if |Rows(kept)| <= |s.origins| then s.origins[..|Rows(kept)|] else s.origins,
          |kept|, s.threshold)
  }

  /** The first start is a restart on an empty log. */
  ghost function Started(numColumns: nat, mode: ReplayMode, batchClock: nat, clock: nat): Sys {
    Sys(Restarted(numColumns, [], At(0), mode, batchClock, clock), map[], [], 0, At(0))
  }

  ghost predicate EnabledRun(src: Source, s: Sys, steps: seq<SysStep>)
    decreases |steps|
  {
    steps == [] || (Enabled(s, steps[0]) && EnabledRun(src, SysStepped(src, s, steps[0]), steps[1..]))
  }

  ghost function RunSys(src: Source, s: Sys, steps: seq<SysStep>): Sys
    requires EnabledRun(src, s, steps)
    decreases |steps|
  {
    if steps == [] then s else RunSys(src, SysStepped(src, s, steps[0]), steps[1..])
  }

  /** Per offset key, the session was given exactly the rows of an uninterrupted read up to the source's position, in order. */
  ghost predicate ExactlyOnce(src: Source, s: Sys) {
    && |OpsOf(s.conn.session)| == |s.origins|
    && forall k :: Select(OpsOf(s.conn.session), s.origins, k) == RowsUpTo(src, k, Next(s, k))
  }

  /** A crash is safe unless no mark on disk reaches the finalised time and rows lie behind the last mark. */
  predicate SafeCrash(s: Sys, step: SysStep)
    requires Enabled(s, step)
  {
    step.Crash? ==> CutSafe(Log(s)[..step.onDisk], s.threshold)
  }

  ghost predicate SafeRun(src: Source, s: Sys, steps: seq<SysStep>)
    requires EnabledRun(src, s, steps)
    decreases |steps|
  {
    steps == [] || (SafeCrash(s, steps[0]) && SafeRun(src, SysStepped(src, s, steps[0]), steps[1..]))
  }

  // ---------------------------------------------------------------- the invariant

  /** The connector's frontier accounts for all rows read so far, although it may lag behind entries without rows. */
  ghost predicate Live(src: Source, s: Sys) {
    && s.conn.writer.Some?
    && Mirrors(s.conn.(status := Running), Log(s))
    && Marked(Log(s), s.conn.session.time)
    && Summarises(src, s.conn.frontier, Rows(Log(s)), s.origins)
    && forall k :: RowsUpTo(src, k, SeekPosition(src, s.conn.frontier, k)) == RowsUpTo(src, k, Next(s, k))
  }

  ghost predicate Inv(src: Source, numColumns: nat, s: Sys) {
    && s.conn.writer.Some? && s.conn.numColumns == numColumns
    && LogOk(src, Log(s), s.origins)
    && s.durable <= |Log(s)|
    && (!s.conn.status.Panicked? ==> Live(src, s))
  }

  lemma LiveIsExactlyOnce(src: Source, s: Sys)
    requires Live(src, s)
    ensures ExactlyOnce(src, s)
  {
    forall k ensures Select(OpsOf(s.conn.session), s.origins, k) == RowsUpTo(src, k, Next(s, k)) {
      assert Select(Rows(Log(s)), s.origins, k) == RowsUpTo(src, k, SeekPosition(src, s.conn.frontier, k));
    }
  }

  /** Overwriting the offset of `k` moves the seek position of `k` just behind that entry, and no other. */
  lemma AdvancedSeek(src: Source, numColumns: nat, f: Frontier, k: OffsetKey, n: nat)
    requires SourceOk(src, numColumns) && FrontierOf(src, f)
    ensures FrontierOf(src, f[k := src.offset(k, n)])
    ensures SeekPosition(src, f[k := src.offset(k, n)], k) == n + 1
    ensures forall j :: j != k ==> SeekPosition(src, f[k := src.offset(k, n)], j) == SeekPosition(src, f, j)
  {
    var f' := f[k := src.offset(k, n)];
    forall j | j in f' ensures exists m: nat :: src.offset(j, m) == f'[j] {
      if j == k {
        assert src.offset(j, n) == f'[j];
      }
    }
  }

  /** Adding the rows of the next entry of `k` moves the summary from one position to the next. */
  lemma ReadSummarised(src: Source, numColumns: nat, f: Frontier, ops: seq<RowOp>, origins: seq<OffsetKey>,
                       k: OffsetKey, n: nat)
    requires SourceOk(src, numColumns) && Summarises(src, f, ops, origins)
    requires RowsUpTo(src, k, SeekPosition(src, f, k)) == RowsUpTo(src, k, n)
    ensures var more := EntryRows(src.outcome(k, n));
            Summarises(src, f[k := src.offset(k, n)], ops + more, origins + Repeated(k, |more|))
  {
    var f' := f[k := src.offset(k, n)];
    var more := EntryRows(src.outcome(k, n));
    AdvancedSeek(src, numColumns, f, k, n);
    forall j ensures Select(ops + more, origins + Repeated(k, |more|), j) == RowsUpTo(src, j, SeekPosition(src, f', j)) {
      assert Select(ops, origins, j) == RowsUpTo(src, j, SeekPosition(src, f, j));
      SelectedNext(ops, origins, more, k, j, RowsUpTo(src, j, SeekPosition(src, f, j)));
      if j == k {
        RowsUpToNext(src, k, n);
      }
    }
  }

  lemma SelectedNext(ops: seq<RowOp>, origins: seq<OffsetKey>, more: seq<RowOp>, k: OffsetKey, j: OffsetKey, before: seq<RowOp>)
    requires |ops| == |origins| && Select(ops, origins, j) == before
    ensures Select(ops + more, origins + Repeated(k, |more|), j) == if j == k then before + more else before
  {
    SelectAppended(ops, origins, more, k, j);
    assert before + [] == before;
  }

  lemma RowsUpToNext(src: Source, k: OffsetKey, n: nat)
    ensures RowsUpTo(src, k, n + 1) == RowsUpTo(src, k, n) + EntryRows(src.outcome(k, n))
  {}

  lemma ParsedReadKeepsInv(src: Source, numColumns: nat, s: Sys, k: OffsetKey, now: nat, t: Sys)
    requires SourceOk(src, numColumns) && Inv(src, numColumns, s) && s.conn.status.Running?
    requires src.outcome(k, Next(s, k)).Parsed? && t == SysStepped(src, s, Read(k, now))
    ensures Inv(src, numColumns, t)
  {
    var n := Next(s, k);
    var events := src.outcome(k, n).events;
    EntryHandled(src, s.conn, events, now, s.origins, k);
    var d := OnParsedAll(s.conn, events, now);
    assert d.backfilled && t.conn == d.(frontier := s.conn.frontier[k := src.offset(k, n)]);
    assert Log(t) == d.writer.value && Mirrors(t.conn, Log(t));
    ReadSummarised(src, numColumns, s.conn.frontier, Rows(Log(s)), s.origins, k, n);
    assert Summarises(src, t.conn.frontier, Rows(Log(t)), t.origins);
    AdvancedSeek(src, numColumns, s.conn.frontier, k, n);
    forall j ensures RowsUpTo(src, j, SeekPosition(src, t.conn.frontier, j)) == RowsUpTo(src, j, Next(t, j)) {
      if j != k {
        assert Next(t, j) == Next(s, j);
        assert RowsUpTo(src, j, SeekPosition(src, s.conn.frontier, j)) == RowsUpTo(src, j, Next(s, j));
      }
    }
  }

  lemma ReadKeepsInv(src: Source, numColumns: nat, s: Sys, k: OffsetKey, now: nat)
    requires SourceOk(src, numColumns) && Inv(src, numColumns, s) && s.conn.status.Running?
    ensures Inv(src, numColumns, SysStepped(src, s, Read(k, now)))
  {
    var t := SysStepped(src, s, Read(k, now));
    if src.outcome(k, Next(s, k)).ParseFailed? {
      assert t.conn == s.conn && t.origins == s.origins;
      SkippedReadKeepsInv(src, numColumns, s, k, t);
    } else {
      ParsedReadKeepsInv(src, numColumns, s, k, now, t);
    }
  }

  /** An entry that cannot be parsed only moves the source on. */
  lemma SkippedReadKeepsInv(src: Source, numColumns: nat, s: Sys, k: OffsetKey, t: Sys)
    requires Inv(src, numColumns, s) && src.outcome(k, Next(s, k)).ParseFailed?
    requires t == s.(next := s.next[k := Next(s, k) + 1])
    ensures Inv(src, numColumns, t)
  {
    if Live(src, s) {
      forall j ensures RowsUpTo(src, j, Next(t, j)) == RowsUpTo(src, j, Next(s, j)) {
        if j == k {
          assert RowsUpTo(src, k, Next(s, k) + 1) == RowsUpTo(src, k, Next(s, k));
        }
      }
    }
  }

  lemma CommitKeepsInv(src: Source, numColumns: nat, s: Sys, c: Conn, now: nat)
    requires Inv(src, numColumns, s) && s.conn.status.Running?
    requires c == s.conn.(commitAllowed := c.commitAllowed)
    ensures Inv(src, numColumns, s.(conn := Committed(c, now)))
  {
    var t := s.(conn := Committed(c, now));
    CommittedMirrors(c, Log(s), now);
    var mark := AdvanceTime(t.conn.time, c.frontier);
    LogOkExtended(src, Log(s), s.origins, mark, []);
    assert s.origins + [] == s.origins;
    RowsSnoc(Log(s), mark);
    assert Rows(Log(t)) == Rows(Log(s));
  }

  lemma EndKeepsInv(src: Source, numColumns: nat, s: Sys)
    requires Inv(src, numColumns, s) && s.conn.status.Running?
    ensures Inv(src, numColumns, SysStepped(src, s, EndOfInput))
  {
    var t := SysStepped(src, s, EndOfInput);
    var mark := AdvanceTime(s.conn.time + 2, s.conn.frontier);
    LogOkExtended(src, Log(s), s.origins, mark, []);
    assert s.origins + [] == s.origins;
    RowsSnoc(Log(s), mark);
    assert Rows(Log(t)) == Rows(Log(s));
    MarkedExtended(Log(s), mark, s.conn.session.time);
  }

  /** The marks of the kept log stay truthful. */
  lemma CrashKeepsLog(src: Source, s: Sys, step: SysStep)
    requires LogOk(src, Log(s), s.origins) && step.Crash? && Enabled(s, step)
    ensures var disk := Log(s)[..step.onDisk];
            var kept := Kept(disk, s.threshold);
            && |kept| <= |disk| && LogOk(src, disk, OriginsBefore(Log(s), s.origins, step.onDisk))
            && |Rows(kept)| <= |s.origins|
            && s.origins[..|Rows(kept)|] == OriginsBefore(disk, OriginsBefore(Log(s), s.origins, step.onDisk), |kept|)
            && LogOk(src, kept, s.origins[..|Rows(kept)|])
  {
    var disk := Log(s)[..step.onDisk];
    var kept := Kept(disk, s.threshold);
    var origins := OriginsBefore(Log(s), s.origins, step.onDisk);
    LogOkPrefix(src, Log(s), s.origins, step.onDisk);
    RowsOfPrefix(Log(s), step.onDisk);
    KeptShape(disk, s.threshold);
    LogOkPrefix(src, disk, origins, |kept|);
    RowsOfPrefix(disk, |kept|);
  }

  lemma ResumedPositions(src: Source, s: Sys, f: Frontier, k: OffsetKey)
    requires FrontierOf(src, f) && s.next == Resumed(src, f)
    ensures Next(s, k) == SeekPosition(src, f, k)
  {}

  /** A restart on a truthful log, with the source put where the restored frontier says, starts in the invariant. */
  lemma RestartedInv(src: Source, numColumns: nat, t: Sys, kept: seq<LogEvent>, restored: Frontier)
    requires RestartedOn(t.conn, numColumns, kept, restored) && LogOk(src, kept, t.origins) && t.durable <= |kept|
    requires t.conn.status.Running? ==> Summarises(src, restored, Rows(kept), t.origins)
    requires t.conn.status.Running? ==> forall k :: Next(t, k) == SeekPosition(src, restored, k)
    ensures Inv(src, numColumns, t)
  {
    if t.conn.status.Running? {
      var mark := AdvanceTime(t.conn.time, restored);
      LogOkExtended(src, kept, t.origins, mark, []);
      assert t.origins + [] == t.origins;
      RowsSnoc(kept, mark);
      assert Rows(Log(t)) == Rows(kept);
    }
  }

  lemma CrashRestarts(src: Source, s: Sys, step: SysStep)
    requires LogOk(src, Log(s), s.origins) && step.Crash? && Enabled(s, step) && SafeCrash(s, step)
    ensures Inv(src, s.conn.numColumns, SysStepped(src, s, step))
  {
    var t := SysStepped(src, s, step);
    var disk := Log(s)[..step.onDisk];
    var kept := Kept(disk, s.threshold);
    var restored := RestoredFrontier(kept, s.threshold);
    CrashKeepsLog(src, s, step);
    RestartOutcome(s.conn.numColumns, disk, s.threshold, step.mode, step.batchClock, step.clock);
    RestoredSummarises(src, disk, OriginsBefore(Log(s), s.origins, step.onDisk), s.threshold);
    forall k ensures Next(t, k) == SeekPosition(src, restored, k) {
      ResumedPositions(src, t, restored, k);
    }
    RestartedInv(src, s.conn.numColumns, t, kept, restored);
  }

  lemma StepKeepsInv(src: Source, numColumns: nat, s: Sys, step: SysStep)
    requires SourceOk(src, numColumns) && Inv(src, numColumns, s) && Enabled(s, step) && SafeCrash(s, step)
    ensures Inv(src, numColumns, SysStepped(src, s, step))
  {
    match step {
      case Read(k, now) => ReadKeepsInv(src, numColumns, s, k, now);
      case Tick(now) => CommitKeepsInv(src, numColumns, s, s.conn, now);
      case SourceBoundary(result, now) =>
        if result.FinishedSource? && result.commitAllowed {
          CommitKeepsInv(src, numColumns, s, s.conn.(commitAllowed := true), now);
        }
      case EndOfInput => EndKeepsInv(src, numColumns, s);
      case Finalise(_) =>
      case Crash(_, _, _, _) => CrashRestarts(src, s, step);
    }
  }

  lemma StartedInv(src: Source, numColumns: nat, mode: ReplayMode, batchClock: nat, clock: nat)
    ensures Inv(src, numColumns, Started(numColumns, mode, batchClock, clock))
  {
    RestartOutcome(numColumns, [], At(0), mode, batchClock, clock);
    assert Kept([], At(0)) == [];
    NothingSummarised(src);
    RestartedInv(src, numColumns, Started(numColumns, mode, batchClock, clock), [], map[]);
  }

  lemma {:induction false} RunKeepsInv(src: Source, numColumns: nat, s: Sys, steps: seq<SysStep>)
    requires SourceOk(src, numColumns) && Inv(src, numColumns, s)
    requires EnabledRun(src, s, steps) && SafeRun(src, s, steps)
    ensures Inv(src, numColumns, RunSys(src, s, steps))
    decreases |steps|
  {
    if steps != [] {
      StepKeepsInv(src, numColumns, s, steps[0]);
      RunKeepsInv(src, numColumns, SysStepped(src, s, steps[0]), steps[1..]);
    }
  }

  /**
   Exactly-once recovery. Over every run, with any number of crashes, any loss of unflushed events, any
   interleaving of keys and any finalised times, the session of the current incarnation was given, per offset
   key, the row operations of one uninterrupted read up to where the source now stands.
   */
  lemma ExactlyOnceRecovery(src: Source, numColumns: nat, mode: ReplayMode, batchClock: nat, clock: nat,
                            steps: seq<SysStep>)
    requires SourceOk(src, numColumns)
    requires EnabledRun(src, Started(numColumns, mode, batchClock, clock), steps)
    requires SafeRun(src, Started(numColumns, mode, batchClock, clock), steps)
    ensures var s := RunSys(src, Started(numColumns, mode, batchClock, clock), steps);
            !s.conn.status.Panicked? ==> ExactlyOnce(src, s)
  {
    StartedInv(src, numColumns, mode, batchClock, clock);
    RunKeepsInv(src, numColumns, Started(numColumns, mode, batchClock, clock), steps);
    var s := RunSys(src, Started(numColumns, mode, batchClock, clock), steps);
    if !s.conn.status.Panicked? {
      LiveIsExactlyOnce(src, s);
    }
  }

  /** Where the cut is not safe, rows behind the last mark are replayed and read again. */
  lemma UnsafeCrashRepeats(src: Source, s: Sys, step: SysStep)
    requires LogOk(src, Log(s), s.origins) && step.Crash? && Enabled(s, step) && !SafeCrash(s, step)
    requires !SysStepped(src, s, step).conn.status.Panicked?
    ensures !ExactlyOnce(src, SysStepped(src, s, step))
  {
    var t := SysStepped(src, s, step);
    var disk := Log(s)[..step.onDisk];
    CrashKeepsLog(src, s, step);
    RestartOutcome(s.conn.numColumns, disk, s.threshold, step.mode, step.batchClock, step.clock);
    KeptShape(disk, s.threshold);
    assert Kept(disk, s.threshold) == disk;
    RowsSnoc(disk, AdvanceTime(t.conn.time, LastFrontier(disk)));
    assert OpsOf(t.conn.session) == Rows(disk);
    var k := TailNotSummarised(src, disk, OriginsBefore(Log(s), s.origins, step.onDisk));
    ResumedPositions(src, t, LastFrontier(disk), k);
    assert Select(OpsOf(t.conn.session), t.origins, k) != RowsUpTo(src, k, Next(t, k));
  }

  /** On any truthful log a crash preserves exactly-once delivery if and only if it is safe. */
  lemma CrashOfLogExactIffSafe(src: Source, s: Sys, step: SysStep)
    requires LogOk(src, Log(s), s.origins) && step.Crash? && Enabled(s, step)
    requires !SysStepped(src, s, step).conn.status.Panicked?
    ensures ExactlyOnce(src, SysStepped(src, s, step)) <==> SafeCrash(s, step)
  {
    if SafeCrash(s, step) {
      CrashRestarts(src, s, step);
      LiveIsExactlyOnce(src, SysStepped(src, s, step));
    } else {
      UnsafeCrashRepeats(src, s, step);
    }
  }

  /**
   After every run, for every finalised time and every loss of unflushed events, the next crash preserves
   exactly-once delivery if and only if a mark on disk reaches the finalised time or no row lies behind the last mark.
   */
  lemma CrashExactIffSafe(src: Source, numColumns: nat, mode: ReplayMode, batchClock: nat, clock: nat,
                          steps: seq<SysStep>, crash: SysStep)
    requires SourceOk(src, numColumns)
    requires var start := Started(numColumns, mode, batchClock, clock);
             && EnabledRun(src, start, steps) && SafeRun(src, start, steps)
             && crash.Crash? && Enabled(RunSys(src, start, steps), crash)
             && !SysStepped(src, RunSys(src, start, steps), crash).conn.status.Panicked?
    ensures var s := RunSys(src, Started(numColumns, mode, batchClock, clock), steps);
            ExactlyOnce(src, SysStepped(src, s, crash)) <==> SafeCrash(s, crash)
  {
    var start := Started(numColumns, mode, batchClock, clock);
    StartedInv(src, numColumns, mode, batchClock, clock);
    RunKeepsInv(src, numColumns, start, steps);
    CrashOfLogExactIffSafe(src, RunSys(src, start, steps), crash);
  }

  /** Two runs that leave the source at the same positions gave their sessions the same rows, key by key, crashes or not. */
  lemma SameAsUninterrupted(src: Source, numColumns: nat, mode: ReplayMode, batchClock: nat, clock: nat,
                            steps: seq<SysStep>, uninterrupted: seq<SysStep>, k: OffsetKey)
    requires SourceOk(src, numColumns)
    requires var start := Started(numColumns, mode, batchClock, clock);
             && EnabledRun(src, start, steps) && SafeRun(src, start, steps)
             && EnabledRun(src, start, uninterrupted) && SafeRun(src, start, uninterrupted)
             && !RunSys(src, start, steps).conn.status.Panicked?
             && !RunSys(src, start, uninterrupted).conn.status.Panicked?
             && Next(RunSys(src, start, steps), k) == Next(RunSys(src, start, uninterrupted), k)
    requires forall i :: 0 <= i < |uninterrupted| ==> !uninterrupted[i].Crash?
    ensures var start := Started(numColumns, mode, batchClock, clock);
            var s, u := RunSys(src, start, steps), RunSys(src, start, uninterrupted);
            && |OpsOf(s.conn.session)| == |s.origins| && |OpsOf(u.conn.session)| == |u.origins|
            && Select(OpsOf(s.conn.session), s.origins, k) == Select(OpsOf(u.conn.session), u.origins, k)
  {
    ExactlyOnceRecovery(src, numColumns, mode, batchClock, clock, steps);
    ExactlyOnceRecovery(src, numColumns, mode, batchClock, clock, uninterrupted);
  }

  // ---------------------------------------------------------------- sinks that finalise only reached times

  /** Only times that this session has reached are finalised, and everything once this input has ended. */
  predicate Reached(s: Sys, step: SysStep) {
    match step
    case Finalise(At(t)) => t <= s.conn.session.time
    case Finalise(Done) => s.conn.status.Ended?
    case _ => true
  }

  ghost predicate ReachedRun(src: Source, s: Sys, steps: seq<SysStep>)
    requires EnabledRun(src, s, steps)
    decreases |steps|
  {
    steps == [] || (Reached(s, steps[0]) && ReachedRun(src, SysStepped(src, s, steps[0]), steps[1..]))
  }

  /** No crash loses the mark of the end of the input and keeps rows behind the mark before. */
  ghost predicate NoTailAfterDone(src: Source, s: Sys, steps: seq<SysStep>)
    requires EnabledRun(src, s, steps)
    decreases |steps|
  {
    steps == [] ||
    ((steps[0].Crash? && s.threshold.Done? ==> TailRows(Log(s)[..steps[0].onDisk]) == []) &&
     NoTailAfterDone(src, SysStepped(src, s, steps[0]), steps[1..]))
  }

  /** A finalised time is backed by a flushed mark at or above it. */
  ghost predicate ThresholdBacked(s: Sys) {
    || s.threshold == At(0)
    || s.threshold.Done?
    || exists m :: 0 <= m < s.durable && m < |Log(s)| && Reaches(Log(s)[m], s.threshold)
  }

  lemma BackedExtended(s: Sys, t: Sys)
    requires ThresholdBacked(s) && t.durable == s.durable && t.threshold == s.threshold && Log(s) <= Log(t)
    ensures ThresholdBacked(t)
  {
    if s.threshold != At(0) && !s.threshold.Done? {
      var m :| 0 <= m < s.durable && m < |Log(s)| && Reaches(Log(s)[m], s.threshold);
      assert Log(t)[m] == Log(s)[m];
    }
  }

  /** A backed time can be cut at a mark that no crash loses. */
  lemma BackedCut(s: Sys, step: SysStep)
    requires ThresholdBacked(s) && step.Crash? && Enabled(s, step) && s.threshold != At(0) && !s.threshold.Done?
    ensures CutIndex(Log(s)[..step.onDisk], s.threshold) < step.onDisk
  {
    var m :| 0 <= m < s.durable && m < |Log(s)| && Reaches(Log(s)[m], s.threshold);
    assert Reaches(Log(s)[..step.onDisk][m], s.threshold);
  }

  lemma CrashKeepsBacked(src: Source, s: Sys, step: SysStep)
    requires ThresholdBacked(s) && step.Crash? && Enabled(s, step) && s.conn.writer.Some?
    ensures ThresholdBacked(SysStepped(src, s, step))
  {
    if s.threshold != At(0) && !s.threshold.Done? {
      var t := SysStepped(src, s, step);
      var disk := Log(s)[..step.onDisk];
      var c := CutIndex(disk, s.threshold);
      BackedCut(s, step);
      RestartOutcome(s.conn.numColumns, disk, s.threshold, step.mode, step.batchClock, step.clock);
      assert Log(t)[c] == disk[c];
    }
  }

  lemma {:induction false} ParsingAppends(c: Conn, events: seq<ParsedEvent>, now: nat)
    requires c.writer.Some?
    ensures OnParsedAll(c, events, now).writer.Some? && c.writer.value <= OnParsedAll(c, events, now).writer.value
    decreases |events|
  {
    if events != [] {
      ParsingAppends(OnParsed(c, events[0], now), events[1..], now);
    }
  }

  lemma ReadAppends(src: Source, s: Sys, k: OffsetKey, now: nat)
    requires s.conn.writer.Some? && s.conn.status.Running?
    ensures var t := SysStepped(src, s, Read(k, now)); t.conn.writer.Some? && Log(s) <= Log(t)
  {
    var outcome := src.outcome(k, Next(s, k));
    if outcome.Parsed? {
      ParsingAppends(s.conn, if s.conn.backfilled then outcome.events else WithoutCommits(outcome.events), now);
    }
  }

  lemma StepKeepsBacked(src: Source, numColumns: nat, s: Sys, step: SysStep)
    requires Inv(src, numColumns, s) && ThresholdBacked(s) && Enabled(s, step) && Reached(s, step)
    ensures ThresholdBacked(SysStepped(src, s, step))
  {
    match step {
      case Read(k, now) =>
        ReadAppends(src, s, k, now);
        BackedExtended(s, SysStepped(src, s, step));
      case Finalise(At(t)) =>
        var m :| 0 <= m < |Log(s)| && Log(s)[m].AdvanceTime? && s.conn.session.time <= Log(s)[m].time;
        assert Reaches(Log(SysStepped(src, s, step))[m], At(t));
      case Finalise(Done) =>
      case Crash(_, _, _, _) => CrashKeepsBacked(src, s, step);
      case _ => BackedExtended(s, SysStepped(src, s, step));
    }
  }

  lemma {:induction false} ReachedRunIsSafe(src: Source, numColumns: nat, s: Sys, steps: seq<SysStep>)
    requires SourceOk(src, numColumns) && Inv(src, numColumns, s) && ThresholdBacked(s) && EnabledRun(src, s, steps)
    requires ReachedRun(src, s, steps) && NoTailAfterDone(src, s, steps)
    ensures SafeRun(src, s, steps)
    decreases |steps|
  {
    if steps != [] {
      if steps[0].Crash? && s.threshold != At(0) && !s.threshold.Done? {
        BackedCut(s, steps[0]);
      }
      assert SafeCrash(s, steps[0]);
      StepKeepsInv(src, numColumns, s, steps[0]);
      StepKeepsBacked(src, numColumns, s, steps[0]);
      ReachedRunIsSafe(src, numColumns, SysStepped(src, s, steps[0]), steps[1..]);
    }
  }

  /** With such sinks delivery is exactly once, except for rows behind the last mark after everything was finalised. */
  lemma ExactlyOnceForReachedTimes(src: Source, numColumns: nat, mode: ReplayMode, batchClock: nat, clock: nat,
                                   steps: seq<SysStep>)
    requires SourceOk(src, numColumns)
    requires var start := Started(numColumns, mode, batchClock, clock);
             EnabledRun(src, start, steps) && ReachedRun(src, start, steps) && NoTailAfterDone(src, start, steps)
    ensures var s := RunSys(src, Started(numColumns, mode, batchClock, clock), steps);
            !s.conn.status.Panicked? ==> ExactlyOnce(src, s)
  {
    var start := Started(numColumns, mode, batchClock, clock);
    StartedInv(src, numColumns, mode, batchClock, clock);
    ReachedRunIsSafe(src, numColumns, start, steps);
    ExactlyOnceRecovery(src, numColumns, mode, batchClock, clock, steps);
  }

  /** Finalising flushes the log and does not add to it. */
  lemma {:induction false} FinalisedRun(src: Source, s: Sys, finals: seq<SysStep>)
    requires EnabledRun(src, s, finals) && finals != [] && forall i :: 0 <= i < |finals| ==> finals[i].Finalise?
    ensures var t := RunSys(src, s, finals); Log(t) == Log(s) && t.durable == |Log(t)|
    decreases |finals|
  {
    var next := SysStepped(src, s, finals[0]);
    if |finals| > 1 {
      FinalisedRun(src, next, finals[1..]);
    } else {
      assert RunSys(src, next, finals[1..]) == next;
    }
  }

  /**
   An input that ended is safe once some time was finalised, whatever times the other inputs finalise and however often:
   the mark of its end is then on disk, with no row behind it.
   */
  lemma EndedInputIsSafe(src: Source, numColumns: nat, mode: ReplayMode, batchClock: nat, clock: nat,
                         steps: seq<SysStep>, finals: seq<SysStep>, crash: SysStep)
    requires SourceOk(src, numColumns) && crash.Crash?
    requires finals != [] && forall i :: 0 <= i < |finals| ==> finals[i].Finalise?
    requires var start := Started(numColumns, mode, batchClock, clock);
             && EnabledRun(src, start, steps) && SafeRun(src, start, steps)
             && var s := RunSys(src, start, steps);
                && Enabled(s, EndOfInput)
                && var ended := SysStepped(src, s, EndOfInput);
                   EnabledRun(src, ended, finals) && Enabled(RunSys(src, ended, finals), crash)
    ensures var s := RunSys(src, Started(numColumns, mode, batchClock, clock), steps);
            SafeCrash(RunSys(src, SysStepped(src, s, EndOfInput), finals), crash)
  {
    StartedInv(src, numColumns, mode, batchClock, clock);
    RunKeepsInv(src, numColumns, Started(numColumns, mode, batchClock, clock), steps);
    EndedThenFinalised(src, RunSys(src, Started(numColumns, mode, batchClock, clock), steps), finals, crash);
  }

  lemma EndedThenFinalised(src: Source, s: Sys, finals: seq<SysStep>, crash: SysStep)
    requires s.conn.status.Running? && s.conn.backfilled && s.conn.writer.Some? && crash.Crash?
    requires finals != [] && forall i :: 0 <= i < |finals| ==> finals[i].Finalise?
    requires var ended := SysStepped(src, s, EndOfInput);
             EnabledRun(src, ended, finals) && Enabled(RunSys(src, ended, finals), crash)
    ensures SafeCrash(RunSys(src, SysStepped(src, s, EndOfInput), finals), crash)
  {
    var ended := SysStepped(src, s, EndOfInput);
    assert Log(ended) != [] && Log(ended)[|Log(ended)| - 1].AdvanceTime?;
    FinalisedRun(src, ended, finals);
    FlushedMarkIsSafe(RunSys(src, ended, finals), crash);
  }

  lemma FlushedMarkIsSafe(s: Sys, crash: SysStep)
    requires crash.Crash? && Enabled(s, crash) && s.durable == |Log(s)| > 0 && Log(s)[|Log(s)| - 1].AdvanceTime?
    ensures SafeCrash(s, crash)
  {
    assert Log(s)[..crash.onDisk] == Log(s);
    assert Log(s)[|Log(s)|..] == [];
  }
}
