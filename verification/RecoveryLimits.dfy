/**
 The limits of recovery: where exactly-once delivery and faithful replay fail, with the exact conditions, and
 the conditions on the clock under which every cut of the log is exact.
 */
module RecoveryLimits {
  import opened Values
  import opened Offsets
  import opened SnapshotLog
  import opened Connector
  import opened LogInvariant
  import opened Recovery

  /** A persisting replay carries no marks, so it cannot run ahead of the clock. */
  lemma {:induction false} PersistingReplayRuns(c: Conn, log: seq<LogEvent>)
    requires c.status.Running? && !c.backfilled && c.session.time == 0
    ensures var d := Run(c, ReplaySteps(Sent(log, Persisting)));
            d.status.Running? && !d.backfilled && d.session.time == 0 && d.time == c.time
    decreases |log|
  {
    if log != [] {
      if log[0].Row? {
        var sent := Sent(log, Persisting);
        assert sent[0] == log[0] && sent[1..] == Sent(log[1..], Persisting);
        var step := Receive(Snapshot(log[0]), 0);
        assert ReplaySteps(sent)[0] == step && ReplaySteps(sent)[1..] == ReplaySteps(sent[1..]);
        PersistingReplayRuns(Stepped(c, step), log[1..]);
      } else {
        assert Sent(log, Persisting) == Sent(log[1..], Persisting);
        PersistingReplayRuns(c, log[1..]);
      }
    }
  }

  lemma PersistingRestartRuns(numColumns: nat, disk: seq<LogEvent>, threshold: TotalFrontier, clock: nat)
    ensures Restarted(numColumns, disk, threshold, Persisting, 0, clock).status.Running?
  {
    var c := Initial(numColumns, Some(Kept(disk, threshold)));
    var sent := Sent(Replayed(disk, threshold), Persisting);
    var sentinel := Receive(RewindFinishSentinel(RestoredFrontier(Kept(disk, threshold), threshold)), clock);
    assert [] + sent == sent;
    PersistingReplayRuns(c, Replayed(disk, threshold));
    RunConcat(c, ReplaySteps(sent), [sentinel]);
    var r := Run(c, ReplaySteps(sent));
    assert Run(r, [sentinel]) == Run(Stepped(r, sentinel), [sentinel][1..]) == Stepped(r, sentinel);
  }

  lemma RunCons(src: Source, s: Sys, step: SysStep, next: Sys, rest: seq<SysStep>)
    requires Enabled(s, step) && next == SysStepped(src, s, step) && EnabledRun(src, next, rest)
    ensures EnabledRun(src, s, [step] + rest) && RunSys(src, s, [step] + rest) == RunSys(src, next, rest)
  {
    assert ([step] + rest)[1..] == rest;
  }

  lemma {:induction false} RunSnoc(src: Source, s: Sys, steps: seq<SysStep>, last: Sys, step: SysStep, next: Sys)
    requires EnabledRun(src, s, steps) && RunSys(src, s, steps) == last
    requires Enabled(last, step) && next == SysStepped(src, last, step)
    ensures EnabledRun(src, s, steps + [step]) && RunSys(src, s, steps + [step]) == next
    decreases |steps|
  {
    if steps == [] {
      RunCons(src, s, step, next, []);
      assert steps + [step] == [step] + [];
    } else {
      var second := SysStepped(src, s, steps[0]);
      RunSnoc(src, second, steps[1..], last, step, next);
      RunCons(src, s, steps[0], second, steps[1..] + [step]);
      assert steps + [step] == [steps[0]] + (steps[1..] + [step]);
    }
  }

  // ---------------------------------------------------------------- rows delivered twice

  /** Reading an entry of one row appends that row to the log. */
  lemma ReadOneRow(src: Source, numColumns: nat, s: Sys, k: OffsetKey, op: RowOp, now: nat)
    requires SourceOk(src, numColumns) && Inv(src, numColumns, s) && s.conn.status.Running?
    requires src.outcome(k, Next(s, k)) == Parsed([Change(op)])
    ensures Log(SysStepped(src, s, Read(k, now))) == Log(s) + [Row(op)]
  {
    var events := [Change(op)];
    assert AllFit(events, numColumns) && Fits(events[0].op, numColumns);
    assert OnParsedAll(s.conn, events, now) == OnParsedAll(OnParsed(s.conn, events[0], now), events[1..], now);
  }

  lemma RowBehindTail(log: seq<LogEvent>, op: RowOp)
    ensures TailRows(log + [Row(op)]) != []
  {
    var longer := log + [Row(op)];
    var start := TailStart(longer);
    assert start <= |log| by {
      assert longer[|log|].Row?;
    }
    assert longer[start..] == longer[start..|log|] + [Row(op)];
    RowsSnoc(longer[start..|log|], Row(op));
  }

  /**
   Once a time beyond all marks is stored, the next incarnation is unprotected until it reaches and finalises a time
   itself: a row that reaches the disk behind the last mark is replayed after a crash and read from the source again.
   */
  lemma RowsBeyondMarksAreDuplicated(src: Source, numColumns: nat, mode: ReplayMode, batchClock: nat, firstClock: nat,
                                     steps: seq<SysStep>, k: OffsetKey, op: RowOp, now: nat, clock: nat)
    requires SourceOk(src, numColumns)
    requires var start := Started(numColumns, mode, batchClock, firstClock);
             && EnabledRun(src, start, steps) && SafeRun(src, start, steps)
             && var s := RunSys(src, start, steps);
                && s.conn.status.Running? && s.threshold != At(0) && CutIndex(Log(s), s.threshold) == |Log(s)|
                && src.outcome(k, Next(s, k)) == Parsed([Change(op)])
    ensures var s := RunSys(src, Started(numColumns, mode, batchClock, firstClock), steps);
            var t := SysStepped(src, s, Read(k, now));
            var crash := Crash(|Log(t)|, Persisting, 0, clock);
            Enabled(t, crash) && !ExactlyOnce(src, SysStepped(src, t, crash))
  {
    var start := Started(numColumns, mode, batchClock, firstClock);
    StartedInv(src, numColumns, mode, batchClock, firstClock);
    RunKeepsInv(src, numColumns, start, steps);
    RowBeyondMarksRepeats(src, numColumns, RunSys(src, start, steps), k, op, now, clock);
  }

  lemma RowBeyondMarksRepeats(src: Source, numColumns: nat, s: Sys, k: OffsetKey, op: RowOp, now: nat, clock: nat)
    requires SourceOk(src, numColumns) && Inv(src, numColumns, s) && s.conn.status.Running?
    requires s.threshold != At(0) && CutIndex(Log(s), s.threshold) == |Log(s)|
    requires src.outcome(k, Next(s, k)) == Parsed([Change(op)])
    ensures var t := SysStepped(src, s, Read(k, now));
            var crash := Crash(|Log(t)|, Persisting, 0, clock);
            Enabled(t, crash) && !ExactlyOnce(src, SysStepped(src, t, crash))
  {
    var t := SysStepped(src, s, Read(k, now));
    var crash := Crash(|Log(t)|, Persisting, 0, clock);
    ReadKeepsInv(src, numColumns, s, k, now);
    ReadOneRow(src, numColumns, s, k, op, now);
    assert Log(t)[..|Log(t)|] == Log(t);
    CutIndexUnique(Log(t), t.threshold, |Log(t)|);
    RowBehindTail(Log(s), op);
    PersistingRestartRuns(t.conn.numColumns, Log(t), t.threshold, clock);
    CrashOfLogExactIffSafe(src, t, crash);
  }

  lemma StartedShape(numColumns: nat, clock: nat)
    ensures var s := Started(numColumns, Persisting, 0, clock);
            && s.conn.status.Running? && s.conn.backfilled
            && Log(s) == [AdvanceTime(Even(clock), map[])] && s.conn.session.time == Even(clock)
            && s.conn.frontier == map[]
  {
    PersistingRestartRuns(numColumns, [], At(0), clock);
    RestartOutcome(numColumns, [], At(0), Persisting, 0, clock);
    assert Kept([], At(0)) == [] && RestoredFrontier([], At(0)) == map[];
  }

  lemma EndShape(src: Source, s: Sys)
    requires s.conn.status.Running? && s.conn.backfilled && s.conn.writer.Some?
    ensures var t := SysStepped(src, s, EndOfInput);
            && t.conn.status.Ended? && t.conn.writer.Some?
            && |Log(t)| == |Log(s)| + 1 && Log(t)[|Log(t)| - 1].AdvanceTime?
  {}

  /** A crash that loses nothing of a log that ends with a mark. */
  lemma RestartAfterDone(src: Source, numColumns: nat, s: Sys, clock: nat)
    requires Inv(src, numColumns, s) && s.threshold.Done?
    requires Log(s) != [] && Log(s)[|Log(s)| - 1].AdvanceTime?
    ensures var crash := Crash(|Log(s)|, Persisting, 0, clock);
            && Enabled(s, crash)
            && var t := SysStepped(src, s, crash);
               && Inv(src, numColumns, t) && t.conn.status.Running? && t.threshold.Done?
               && |Log(t)| == |Log(s)| + 1
               && t.next == Resumed(src, LastFrontier(Log(s)))
  {
    var crash := Crash(|Log(s)|, Persisting, 0, clock);
    assert Log(s)[..|Log(s)|] == Log(s);
    assert Log(s)[|Log(s)|..] == [] && TailRows(Log(s)) == [];
    CutIndexUnique(Log(s), Done, |Log(s)|);
    PersistingRestartRuns(numColumns, Log(s), s.threshold, clock);
    RestartOutcome(numColumns, Log(s), s.threshold, Persisting, 0, clock);
    CrashRestarts(src, s, crash);
  }

  /** The steps that lead there: the input ends, everything is finalised, and the program is started again. */
  function ToDone(clock: nat): seq<SysStep> {
    [EndOfInput] + [Finalise(Done)] + [Crash(2, Persisting, 0, clock)]
  }

  lemma ThreeSteps(src: Source, s0: Sys, a: SysStep, s1: Sys, b: SysStep, s2: Sys, c: SysStep, s3: Sys)
    requires Enabled(s0, a) && s1 == SysStepped(src, s0, a)
    requires Enabled(s1, b) && s2 == SysStepped(src, s1, b)
    requires Enabled(s2, c) && s3 == SysStepped(src, s2, c)
    ensures EnabledRun(src, s0, [a] + [b] + [c]) && RunSys(src, s0, [a] + [b] + [c]) == s3
  {
    assert [] + [a] == [a];
    RunSnoc(src, s0, [], s0, a, s1);
    RunSnoc(src, s0, [a], s1, b, s2);
    RunSnoc(src, s0, [a] + [b], s2, c, s3);
  }

  lemma ToDoneRuns(src: Source, numColumns: nat, s0: Sys, clock: nat)
    requires Inv(src, numColumns, s0) && s0.conn.status.Running? && s0.conn.backfilled && |Log(s0)| == 1
    requires s0.conn.frontier == map[]
    ensures EnabledRun(src, s0, ToDone(clock))
    ensures var s := RunSys(src, s0, ToDone(clock));
            && Inv(src, numColumns, s) && s.conn.status.Running? && s.threshold.Done? && |Log(s)| == 3
            && s.next == map[]
  {
    var s2 := EndedAndDone(src, numColumns, s0);
    RestartAfterDone(src, numColumns, s2, clock);
    var crash := Crash(2, Persisting, 0, clock);
    ThreeSteps(src, s0, EndOfInput, SysStepped(src, s0, EndOfInput), Finalise(Done), s2, crash, SysStepped(src, s2, crash));
  }

  lemma EndedAndDone(src: Source, numColumns: nat, s0: Sys) returns (s2: Sys)
    requires Inv(src, numColumns, s0) && s0.conn.status.Running? && s0.conn.backfilled && |Log(s0)| == 1
    requires s0.conn.frontier == map[]
    ensures var s1 := SysStepped(src, s0, EndOfInput);
            Enabled(s1, Finalise(Done)) && s2 == SysStepped(src, s1, Finalise(Done))
    ensures Inv(src, numColumns, s2) && s2.threshold.Done? && |Log(s2)| == 2
    ensures Log(s2)[1].AdvanceTime? && LastFrontier(Log(s2)) == map[]
  {
    EndKeepsInv(src, numColumns, s0);
    EndShape(src, s0);
    s2 := SysStepped(src, SysStepped(src, s0, EndOfInput), Finalise(Done));
  }

  /** A whole run that delivers a row twice. */
  lemma DuplicationIsReachable(src: Source, numColumns: nat, k: OffsetKey, op: RowOp, clocks: (nat, nat, nat), now: nat)
    requires SourceOk(src, numColumns) && src.outcome(k, 0) == Parsed([Change(op)])
    ensures var start := Started(numColumns, Persisting, 0, clocks.0);
            var steps := ToDone(clocks.1) + [Read(k, now)] + [Crash(4, Persisting, 0, clocks.2)];
            EnabledRun(src, start, steps) && !ExactlyOnce(src, RunSys(src, start, steps))
  {
    StartedInv(src, numColumns, Persisting, 0, clocks.0);
    StartedShape(numColumns, clocks.0);
    DuplicatingRun(src, numColumns, Started(numColumns, Persisting, 0, clocks.0), k, op, clocks.1, clocks.2, now);
  }

  lemma DuplicatingRun(src: Source, numColumns: nat, s0: Sys, k: OffsetKey, op: RowOp, clock1: nat, clock2: nat, now: nat)
    requires SourceOk(src, numColumns) && src.outcome(k, 0) == Parsed([Change(op)])
    requires Inv(src, numColumns, s0) && s0.conn.status.Running? && s0.conn.backfilled && |Log(s0)| == 1
    requires s0.conn.frontier == map[]
    ensures var steps := ToDone(clock1) + [Read(k, now)] + [Crash(4, Persisting, 0, clock2)];
            EnabledRun(src, s0, steps) && !ExactlyOnce(src, RunSys(src, s0, steps))
  {
    ToDoneRuns(src, numColumns, s0, clock1);
    var s := RunSys(src, s0, ToDone(clock1));
    CutIndexUnique(Log(s), Done, |Log(s)|);
    ReadOneRow(src, numColumns, s, k, op, now);
    RowBeyondMarksRepeats(src, numColumns, s, k, op, now, clock2);
    var t := SysStepped(src, s, Read(k, now));
    var crash := Crash(4, Persisting, 0, clock2);
    RunSnoc(src, s0, ToDone(clock1), s, Read(k, now), t);
    RunSnoc(src, s0, ToDone(clock1) + [Read(k, now)], t, crash, SysStepped(src, t, crash));
  }

  // ---------------------------------------------------------------- rows of the wrong width

  function FittingOps(events: seq<ParsedEvent>, numColumns: nat): seq<RowOp> {
    if events == [] then []
    else (if events[0].Change? && Fits(events[0].op, numColumns) then [events[0].op] else []) +
         FittingOps(events[1..], numColumns)
  }

  lemma {:induction false} FittingOpsComplete(events: seq<ParsedEvent>, numColumns: nat)
    ensures |FittingOps(events, numColumns)| <= |ChangeOps(events)|
    ensures |FittingOps(events, numColumns)| == |ChangeOps(events)| <==> AllFit(events, numColumns)
    ensures AllFit(events, numColumns) ==> FittingOps(events, numColumns) == ChangeOps(events)
  {
    if events != [] {
      FittingOpsComplete(events[1..], numColumns);
      AllFitTail(events, numColumns);
    }
  }

  lemma AllFitTail(events: seq<ParsedEvent>, numColumns: nat)
    requires events != []
    ensures AllFit(events, numColumns) <==>
            (events[0].Change? ==> Fits(events[0].op, numColumns)) && AllFit(events[1..], numColumns)
  {
    assert forall i :: 0 < i < |events| ==> events[i] == events[1..][i - 1];
    assert forall i :: 0 <= i < |events[1..]| ==> events[1..][i] == events[i + 1];
  }

  /** From `c` to `d` the rows in `logged` were appended to the log and those in `fed` given to the session. */
  ghost predicate Delivered(c: Conn, d: Conn, logged: seq<RowOp>, fed: seq<RowOp>) {
    && c.writer.Some? && d.writer.Some? && d.numColumns == c.numColumns
    && d.status.Running? && d.backfilled && TimesInOrder(d)
    && Rows(d.writer.value) == Rows(c.writer.value) + logged
    && OpsOf(d.session) == OpsOf(c.session) + fed
  }

  lemma DeliveredTransitive(a: Conn, b: Conn, c: Conn, l1: seq<RowOp>, f1: seq<RowOp>, l2: seq<RowOp>, f2: seq<RowOp>)
    requires Delivered(a, b, l1, f1) && Delivered(b, c, l2, f2)
    ensures Delivered(a, c, l1 + l2, f1 + f2)
  {
    assert Rows(a.writer.value) + l1 + l2 == Rows(a.writer.value) + (l1 + l2);
    assert OpsOf(a.session) + f1 + f2 == OpsOf(a.session) + (f1 + f2);
  }

  lemma EventLoggedAndFed(c: Conn, e: ParsedEvent, now: nat)
    requires c.status.Running? && c.backfilled && TimesInOrder(c) && c.writer.Some?
    ensures Delivered(c, OnParsed(c, e, now), if e.Change? then [e.op] else [],
                      if e.Change? && Fits(e.op, c.numColumns) then [e.op] else [])
  {
    var d := OnParsed(c, e, now);
    OnParsedTimes(c, e, now);
    match e {
      case Unusable =>
      case CommitTime =>
        RowsSnoc(c.writer.value, AdvanceTime(d.time, c.frontier));
        assert OpsOf(d.session) == OpsOf(c.session);
      case Change(op) =>
        RowsSnoc(c.writer.value, Row(op));
        assert OpsOf(d.session) == OpsOf(c.session) + (if Fits(op, c.numColumns) then [op] else []);
    }
  }

  /** Every row is logged, but only rows of the declared width are fed. */
  lemma {:induction false} LoggedAndFed(c: Conn, events: seq<ParsedEvent>, now: nat)
    requires c.status.Running? && c.backfilled && TimesInOrder(c) && c.writer.Some?
    ensures Delivered(c, OnParsedAll(c, events, now), ChangeOps(events), FittingOps(events, c.numColumns))
    decreases |events|
  {
    if events != [] {
      var e, rest := events[0], events[1..];
      var next := OnParsed(c, e, now);
      EventLoggedAndFed(c, e, now);
      LoggedAndFed(next, rest, now);
      DeliveredTransitive(c, next, OnParsedAll(next, rest, now),
                          if e.Change? then [e.op] else [], if e.Change? && Fits(e.op, c.numColumns) then [e.op] else [],
                          ChangeOps(rest), FittingOps(rest, c.numColumns));
    }
  }

  /** A replay reproduces what the session was given if and only if every row of the entry has the declared width. */
  lemma ReplayMatchesFeedIff(c: Conn, log: seq<LogEvent>, events: seq<ParsedEvent>, now: nat)
    requires Mirrors(c, log)
    ensures var d := OnParsedAll(c, events, now);
            d.writer.Some? && (OpsOf(d.session) == Rows(d.writer.value) <==> AllFit(events, c.numColumns))
  {
    LoggedAndFed(c, events, now);
    FittingOpsComplete(events, c.numColumns);
  }

  // ---------------------------------------------------------------- exact cuts

  /** Logged stamps never decrease, the log starts with a mark, and a live connector's time bounds the stamps. */
  ghost predicate StampsOk(c: Conn) {
    && c.writer.Some?
    && NonDecreasingStamps(c.writer.value)
    && (c.writer.value != [] ==> c.writer.value[0].AdvanceTime?)
    && (c.backfilled && c.status.Running? ==> c.writer.value != [] && StampsUpTo(c.writer.value, c.time))
  }

  ghost predicate StampsUpTo(log: seq<LogEvent>, time: nat) {
    forall i :: 0 <= i < |log| && log[i].AdvanceTime? ==> log[i].time <= time
  }

  lemma CommittedStamps(c: Conn, now: nat)
    requires StampsOk(c) && TimesInOrder(c) && c.status.Running? && c.backfilled
    ensures StampsOk(Committed(c, now))
  {
    CommittedTimes(c, now);
  }

  lemma {:induction false} OnParsedAllStamps(c: Conn, events: seq<ParsedEvent>, now: nat)
    requires StampsOk(c) && TimesInOrder(c) && c.status.Running? && c.backfilled
    ensures StampsOk(OnParsedAll(c, events, now))
    decreases |events|
  {
    if events != [] {
      OnParsedTimes(c, events[0], now);
      if events[0].CommitTime? {
        CommittedStamps(c, now);
      }
      OnParsedAllStamps(OnParsed(c, events[0], now), events[1..], now);
    }
  }

  /** The clock at a restart is not behind the stamps that the restart keeps. */
  predicate ClockNotBehind(s: Sys, step: SysStep)
    requires Enabled(s, step)
  {
    step.Crash? ==>
      var kept := Kept(Log(s)[..step.onDisk], s.threshold);
      forall i :: 0 <= i < |kept| && kept[i].AdvanceTime? ==> kept[i].time <= Even(step.clock)
  }

  ghost predicate ClockNeverBehind(src: Source, s: Sys, steps: seq<SysStep>)
    requires EnabledRun(src, s, steps)
    decreases |steps|
  {
    steps == [] || (ClockNotBehind(s, steps[0]) && ClockNeverBehind(src, SysStepped(src, s, steps[0]), steps[1..]))
  }

  lemma CrashKeepsStamps(src: Source, numColumns: nat, s: Sys, step: SysStep)
    requires StampsOk(s.conn) && step.Crash? && Enabled(s, step) && ClockNotBehind(s, step)
    ensures StampsOk(SysStepped(src, s, step).conn)
  {
    var t := SysStepped(src, s, step);
    var disk := Log(s)[..step.onDisk];
    var kept := Kept(disk, s.threshold);
    RestartOutcome(s.conn.numColumns, disk, s.threshold, step.mode, step.batchClock, step.clock);
    KeptShape(disk, s.threshold);
    assert kept == Log(s)[..|kept|];
    RestartedStamps(t.conn, s.conn.numColumns, kept, RestoredFrontier(kept, s.threshold));
  }

  lemma RestartedStamps(d: Conn, numColumns: nat, kept: seq<LogEvent>, restored: Frontier)
    requires RestartedOn(d, numColumns, kept, restored) && NonDecreasingStamps(kept)
    requires kept != [] ==> kept[0].AdvanceTime?
    requires d.status.Running? ==> StampsUpTo(kept, d.time)
    ensures StampsOk(d)
  {
    if d.status.Running? {
      StampsExtended(kept, AdvanceTime(d.time, restored));
    }
  }

  lemma StampsExtended(log: seq<LogEvent>, mark: LogEvent)
    requires NonDecreasingStamps(log) && mark.AdvanceTime? && StampsUpTo(log, mark.time)
    ensures NonDecreasingStamps(log + [mark]) && StampsUpTo(log + [mark], mark.time)
  {}

  lemma StepKeepsStamps(src: Source, numColumns: nat, s: Sys, step: SysStep)
    requires Inv(src, numColumns, s) && StampsOk(s.conn) && Enabled(s, step) && ClockNotBehind(s, step)
    ensures StampsOk(SysStepped(src, s, step).conn)
  {
    match step {
      case Read(k, now) =>
        var outcome := src.outcome(k, Next(s, k));
        if outcome.Parsed? {
          OnParsedAllStamps(s.conn, outcome.events, now);
        }
      case Tick(now) => CommittedStamps(s.conn, now);
      case SourceBoundary(result, now) => CommittedStamps(s.conn.(commitAllowed := true), now);
      case EndOfInput =>
      case Finalise(_) =>
      case Crash(_, _, _, _) => CrashKeepsStamps(src, numColumns, s, step);
    }
  }

  lemma {:induction false} RunKeepsStamps(src: Source, numColumns: nat, s: Sys, steps: seq<SysStep>)
    requires SourceOk(src, numColumns) && Inv(src, numColumns, s) && StampsOk(s.conn)
    requires EnabledRun(src, s, steps) && SafeRun(src, s, steps) && ClockNeverBehind(src, s, steps)
    ensures Inv(src, numColumns, RunSys(src, s, steps)) && StampsOk(RunSys(src, s, steps).conn)
    decreases |steps|
  {
    if steps != [] {
      StepKeepsInv(src, numColumns, s, steps[0]);
      StepKeepsStamps(src, numColumns, s, steps[0]);
      RunKeepsStamps(src, numColumns, SysStepped(src, s, steps[0]), steps[1..]);
    }
  }

  /**
   In every run whose restart clocks are never behind the stamps they keep, a crash in any state and for any finalised
   time replays exactly the rows whose logical time is below that time.
   */
  lemma EveryCutIsExact(src: Source, numColumns: nat, mode: ReplayMode, batchClock: nat, clock: nat,
                        steps: seq<SysStep>, onDisk: nat)
    requires SourceOk(src, numColumns)
    requires var start := Started(numColumns, mode, batchClock, clock);
             && EnabledRun(src, start, steps) && SafeRun(src, start, steps) && ClockNeverBehind(src, start, steps)
             && onDisk <= |Log(RunSys(src, start, steps))|
    ensures var s := RunSys(src, Started(numColumns, mode, batchClock, clock), steps);
            var disk := Log(s)[..onDisk];
            disk != [] ==>
              disk[0].AdvanceTime? && Rows(Replayed(disk, s.threshold)) == RowsBefore(disk, s.threshold, disk[0].time)
  {
    var start := Started(numColumns, mode, batchClock, clock);
    StartedInv(src, numColumns, mode, batchClock, clock);
    StartedStamps(numColumns, mode, batchClock, clock);
    RunKeepsStamps(src, numColumns, start, steps);
    var s := RunSys(src, start, steps);
    if onDisk > 0 {
      OrderedCutIsExact(Log(s)[..onDisk], s.threshold);
    }
  }

  lemma StartedStamps(numColumns: nat, mode: ReplayMode, batchClock: nat, clock: nat)
    ensures StampsOk(Started(numColumns, mode, batchClock, clock).conn)
  {
    RestartOutcome(numColumns, [], At(0), mode, batchClock, clock);
    assert Kept([], At(0)) == [];
  }

  lemma OrderedCutIsExact(disk: seq<LogEvent>, threshold: TotalFrontier)
    requires disk != [] && disk[0].AdvanceTime? && NonDecreasingStamps(disk)
    ensures Rows(Replayed(disk, threshold)) == RowsBefore(disk, threshold, disk[0].time)
  {
    var c := CutIndex(disk, threshold);
    ExactCutIff(disk, threshold);
    if c < |disk| {
      ExactCut(disk, threshold);
    }
  }

  /**
   A run that reaches a log with stamps that go back: a time is finalised, the program is started again with a clock
   behind it, and a row is read. The row's logical time is below the finalised one, and a cut does not replay it.
   */
  lemma ClockBehindLosesRows(src: Source, numColumns: nat, k: OffsetKey, op: RowOp, before: nat, behind: nat, now: nat)
    requires SourceOk(src, numColumns) && src.outcome(k, 0) == Parsed([Change(op)]) && Even(behind) < Even(before)
    ensures var start := Started(numColumns, Persisting, 0, before);
            var steps := [Finalise(At(Even(before)))] + [Crash(1, Persisting, 0, behind)] + [Read(k, now)];
            && EnabledRun(src, start, steps)
            && var s := RunSys(src, start, steps);
               && Log(s) == [AdvanceTime(Even(before), map[]), AdvanceTime(Even(behind), map[]), Row(op)]
               && s.threshold == At(Even(before))
               && Rows(Replayed(Log(s), s.threshold)) != RowsBefore(Log(s), s.threshold, Even(before))
  {
    var start := Started(numColumns, Persisting, 0, before);
    StartedInv(src, numColumns, Persisting, 0, before);
    StartedShape(numColumns, before);
    BehindRun(src, numColumns, start, k, op, before, behind, now);
    LosingLog(Even(before), Even(behind), op);
  }

  lemma LosingLog(before: nat, behind: nat, op: RowOp)
    requires behind < before
    ensures var log := [AdvanceTime(before, map[]), AdvanceTime(behind, map[]), Row(op)];
            Rows(Replayed(log, At(before))) != RowsBefore(log, At(before), before)
  {
    var log := [AdvanceTime(before, map[]), AdvanceTime(behind, map[]), Row(op)];
    CutIndexUnique(log, At(before), 0);
    assert LowRowAt(log, At(before), 1);
    ExactCutIff(log, At(before));
  }

  lemma BehindRun(src: Source, numColumns: nat, s0: Sys, k: OffsetKey, op: RowOp, before: nat, behind: nat, now: nat)
    requires SourceOk(src, numColumns) && src.outcome(k, 0) == Parsed([Change(op)]) && Even(before) > 0
    requires Inv(src, numColumns, s0) && s0.conn.status.Running? && Log(s0) == [AdvanceTime(Even(before), map[])]
    ensures var steps := [Finalise(At(Even(before)))] + [Crash(1, Persisting, 0, behind)] + [Read(k, now)];
            && EnabledRun(src, s0, steps)
            && var s := RunSys(src, s0, steps);
               && Log(s) == [AdvanceTime(Even(before), map[]), AdvanceTime(Even(behind), map[]), Row(op)]
               && s.threshold == At(Even(before))
  {
    var finalise, crash := Finalise(At(Even(before))), Crash(1, Persisting, 0, behind);
    var s1 := SysStepped(src, s0, finalise);
    RestartBehind(src, numColumns, s1, before, behind);
    var s2 := SysStepped(src, s1, crash);
    ReadOneRow(src, numColumns, s2, k, op, now);
    ThreeSteps(src, s0, finalise, s1, crash, s2, Read(k, now), SysStepped(src, s2, Read(k, now)));
  }

  lemma RestartBehind(src: Source, numColumns: nat, s: Sys, before: nat, behind: nat)
    requires Inv(src, numColumns, s) && Log(s) == [AdvanceTime(Even(before), map[])] && s.threshold == At(Even(before))
    requires s.durable == 1 && Even(before) > 0
    ensures var crash := Crash(1, Persisting, 0, behind);
            && Enabled(s, crash)
            && var t := SysStepped(src, s, crash);
               && Inv(src, numColumns, t) && t.conn.status.Running? && t.threshold == s.threshold && t.next == map[]
               && Log(t) == [AdvanceTime(Even(before), map[]), AdvanceTime(Even(behind), map[])]
  {
    var crash := Crash(1, Persisting, 0, behind);
    var disk := Log(s)[..1];
    assert disk == Log(s);
    CutIndexUnique(disk, s.threshold, 0);
    assert Kept(disk, s.threshold) == disk;
    PersistingRestartRuns(numColumns, disk, s.threshold, behind);
    RestartOutcome(numColumns, disk, s.threshold, Persisting, 0, behind);
    CrashRestarts(src, s, crash);
  }
}
