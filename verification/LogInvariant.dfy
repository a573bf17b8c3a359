/**
 What the snapshot log stands for: each logged frontier summarises exactly the rows logged before it. Every
 parsed entry keeps this, cutting at a mark keeps this, and replaying a log reproduces its rows.
 */
module LogInvariant {
  import opened Values
  import opened Offsets
  import opened SnapshotLog
  import opened Connector

  /** For every offset key a sequence of entries that never ends: what each parses to, and its offset. */
  datatype Source = Source(outcome: (OffsetKey, nat) -> Outcome, offset: (OffsetKey, nat) -> OffsetValue)

  function ChangeOps(events: seq<ParsedEvent>): seq<RowOp> {
    if events == [] then []
    else (if events[0].Change? then [events[0].op] else []) + ChangeOps(events[1..])
  }

  function EntryRows(outcome: Outcome): seq<RowOp> {
    if outcome.ParseFailed? then [] else ChangeOps(outcome.events)
  }

  /** The row operations that one uninterrupted read of the first `n` entries of a key delivers, in order. */
  function RowsUpTo(src: Source, k: OffsetKey, n: nat): seq<RowOp> {
    if n == 0 then [] else RowsUpTo(src, k, n - 1) + EntryRows(src.outcome(k, n - 1))
  }

  /** No commit follows a row inside one parsed entry: a parser that emits a commit emits nothing else. */
  predicate CommitsFirst(events: seq<ParsedEvent>) {
    forall i, j :: 0 <= i < j < |events| && events[i].Change? ==> !events[j].CommitTime?
  }

  predicate AllFit(events: seq<ParsedEvent>, numColumns: nat) {
    forall i :: 0 <= i < |events| && events[i].Change? ==> Fits(events[i].op, numColumns)
  }

  /** Offsets tell the entries of a key apart, rows have the declared width, and commits come first. */
  ghost predicate SourceOk(src: Source, numColumns: nat) {
    && (forall k, n: nat, m: nat :: src.offset(k, n) == src.offset(k, m) ==> n == m)
    && (forall k, n: nat :: src.outcome(k, n).Parsed? ==>
          CommitsFirst(src.outcome(k, n).events) && AllFit(src.outcome(k, n).events, numColumns))
  }

  /** A frontier made of offsets of this source. */
  ghost predicate FrontierOf(src: Source, f: Frontier) {
    forall k :: k in f ==> exists n: nat :: src.offset(k, n) == f[k]
  }

  /** Where a source resumes after `seek`: just behind the stored offset, or at the start of a key without one. */
  ghost function SeekPosition(src: Source, f: Frontier, k: OffsetKey): nat
    requires FrontierOf(src, f)
  {
    if k in f then (var n: nat :| src.offset(k, n) == f[k]; n + 1) else 0
  }

  // ---------------------------------------------------------------- rows by origin

  /** The operations that came from key `k`, given the origin of each operation. */
  function Select(ops: seq<RowOp>, origins: seq<OffsetKey>, k: OffsetKey): seq<RowOp>
    requires |ops| == |origins|
  {
    if ops == [] then []
    else (if origins[0] == k then [ops[0]] else []) + Select(ops[1..], origins[1..], k)
  }

  lemma {:induction false} SelectConcat(a: seq<RowOp>, ta: seq<OffsetKey>, b: seq<RowOp>, tb: seq<OffsetKey>, k: OffsetKey)
    requires |a| == |ta| && |b| == |tb|
    ensures Select(a + b, ta + tb, k) == Select(a, ta, k) + Select(b, tb, k)
  {
    if a == [] {
      assert a + b == b && ta + tb == tb;
    } else {
      SelectConcat(a[1..], ta[1..], b, tb, k);
      assert (a + b)[1..] == a[1..] + b && (ta + tb)[1..] == ta[1..] + tb;
      var first := if ta[0] == k then [a[0]] else [];
      assert Select(a + b, ta + tb, k) == first + Select(a[1..] + b, ta[1..] + tb, k);
      assert first + (Select(a[1..], ta[1..], k) + Select(b, tb, k)) == first + Select(a[1..], ta[1..], k) + Select(b, tb, k);
    }
  }

  function Repeated(k: OffsetKey, n: nat): (r: seq<OffsetKey>)
    ensures |r| == n
  {
    seq(n, i => k)
  }

  lemma {:induction false} SelectRepeated(ops: seq<RowOp>, origin: OffsetKey, k: OffsetKey)
    ensures Select(ops, Repeated(origin, |ops|), k) == if k == origin then ops else []
  {
    if ops != [] {
      SelectRepeated(ops[1..], origin, k);
      assert Repeated(origin, |ops|)[1..] == Repeated(origin, |ops| - 1);
    }
  }

  /** Adding the rows of one entry of key `origin`. */
  lemma SelectAppended(ops: seq<RowOp>, origins: seq<OffsetKey>, more: seq<RowOp>, origin: OffsetKey, k: OffsetKey)
    requires |ops| == |origins|
    ensures Select(ops + more, origins + Repeated(origin, |more|), k) ==
            Select(ops, origins, k) + (if k == origin then more else [])
  {
    SelectConcat(ops, origins, more, Repeated(origin, |more|), k);
    SelectRepeated(more, origin, k);
  }

  // ---------------------------------------------------------------- what a frontier summarises

  /** The frontier stands for exactly these rows: per key, what the source delivers up to the seek position. */
  ghost predicate Summarises(src: Source, f: Frontier, ops: seq<RowOp>, origins: seq<OffsetKey>) {
    && |ops| == |origins| && FrontierOf(src, f)
    && forall k :: Select(ops, origins, k) == RowsUpTo(src, k, SeekPosition(src, f, k))
  }

  /** The origins of the rows in the first `m` events. */
  function OriginsBefore(log: seq<LogEvent>, origins: seq<OffsetKey>, m: nat): seq<OffsetKey>
    requires m <= |log| && |origins| == |Rows(log)|
  {
    RowsOfPrefix(log, m);
    origins[..|Rows(log[..m])|]
  }

  lemma RowsOfPrefix(log: seq<LogEvent>, m: nat)
    requires m <= |log|
    ensures |Rows(log[..m])| <= |Rows(log)| && Rows(log)[..|Rows(log[..m])|] == Rows(log[..m])
  {
    RowsConcat(log[..m], log[m..]);
    assert log == log[..m] + log[m..];
  }

  ghost predicate MarkOk(src: Source, log: seq<LogEvent>, origins: seq<OffsetKey>, m: nat)
    requires m < |log| && log[m].AdvanceTime? && |origins| == |Rows(log)|
  {
    Summarises(src, log[m].frontier, Rows(log[..m]), OriginsBefore(log, origins, m))
  }

  /** The inductive invariant of the log: each logged frontier summarises exactly the rows logged before it. */
  ghost predicate LogOk(src: Source, log: seq<LogEvent>, origins: seq<OffsetKey>) {
    && |origins| == |Rows(log)|
    && forall m :: 0 <= m < |log| && log[m].AdvanceTime? ==> MarkOk(src, log, origins, m)
  }

  lemma LogOkPrefix(src: Source, log: seq<LogEvent>, origins: seq<OffsetKey>, n: nat)
    requires LogOk(src, log, origins) && n <= |log|
    ensures LogOk(src, log[..n], OriginsBefore(log, origins, n))
  {
    var short := log[..n];
    RowsOfPrefix(log, n);
    forall m | 0 <= m < n && short[m].AdvanceTime? ensures MarkOk(src, short, OriginsBefore(log, origins, n), m) {
      assert MarkOk(src, log, origins, m);
      assert short[..m] == log[..m];
      RowsOfPrefix(short, m);
      assert OriginsBefore(short, OriginsBefore(log, origins, n), m) == OriginsBefore(log, origins, m);
    }
  }

  lemma LogOkExtended(src: Source, log: seq<LogEvent>, origins: seq<OffsetKey>, e: LogEvent, more: seq<OffsetKey>)
    requires LogOk(src, log, origins)
    requires e.Row? ==> |more| == 1
    requires e.AdvanceTime? ==> more == [] && Summarises(src, e.frontier, Rows(log), origins)
    ensures LogOk(src, log + [e], origins + more)
  {
    var longer, all := log + [e], origins + more;
    RowsSnoc(log, e);
    forall m | 0 <= m < |longer| && longer[m].AdvanceTime? ensures MarkOk(src, longer, all, m) {
      RowsOfPrefix(log, if m < |log| then m else |log|);
      assert longer[..m] == log[..m];
      if m < |log| {
        assert MarkOk(src, log, origins, m);
        assert OriginsBefore(longer, all, m) == OriginsBefore(log, origins, m);
      } else {
        assert log[..m] == log;
        assert OriginsBefore(longer, all, m) == origins;
      }
    }
  }

  // ---------------------------------------------------------------- one entry

  function OpsOf(s: Session): (ops: seq<RowOp>)
    ensures |ops| == |s.ops|
  {
    seq(|s.ops|, i requires 0 <= i < |s.ops| => s.ops[i].1)
  }

  lemma {:induction false} CommitsFirstTail(events: seq<ParsedEvent>)
    requires events != [] && CommitsFirst(events)
    ensures CommitsFirst(events[1..])
    ensures events[0].Change? ==> forall i :: 0 <= i < |events[1..]| ==> !events[1..][i].CommitTime?
  {}

  predicate HasCommit(events: seq<ParsedEvent>) {
    exists i :: 0 <= i < |events| && events[i].CommitTime?
  }

  /** A live connector whose session holds exactly the rows of its log. */
  ghost predicate Mirrors(c: Conn, log: seq<LogEvent>) {
    && c.status.Running? && c.backfilled && TimesInOrder(c)
    && c.writer == Some(log) && OpsOf(c.session) == Rows(log)
  }

  /** Some mark of the log is at or above the session's time. */
  ghost predicate Marked(log: seq<LogEvent>, time: nat) {
    exists m :: 0 <= m < |log| && log[m].AdvanceTime? && time <= log[m].time
  }

  lemma CommittedMirrors(c: Conn, log: seq<LogEvent>, now: nat)
    requires Mirrors(c, log)
    ensures var d := Committed(c, now);
            && d.frontier == c.frontier && d.numColumns == c.numColumns && d.writer.Some?
            && d.writer.value == log + [AdvanceTime(d.time, c.frontier)]
            && Mirrors(d, d.writer.value) && Marked(d.writer.value, d.session.time)
  {
    var d := Committed(c, now);
    CommittedTimes(c, now);
    RowsSnoc(log, AdvanceTime(d.time, c.frontier));
    assert OpsOf(d.session) == OpsOf(c.session);
    assert d.writer.value[|log|] == AdvanceTime(d.time, c.frontier);
  }

  lemma FedMirrors(c: Conn, log: seq<LogEvent>, op: RowOp)
    requires Mirrors(c, log) && Fits(op, c.numColumns)
    ensures Mirrors(OnParsed(c, Change(op), 0), log + [Row(op)])
  {
    RowsSnoc(log, Row(op));
    OnParsedTimes(c, Change(op), 0);
    assert OpsOf(OnParsed(c, Change(op), 0).session) == OpsOf(c.session) + [op];
  }

  lemma MarkedExtended(log: seq<LogEvent>, e: LogEvent, time: nat)
    requires Marked(log, time)
    ensures Marked(log + [e], time)
  {
    var m :| 0 <= m < |log| && log[m].AdvanceTime? && time <= log[m].time;
    assert (log + [e])[m] == log[m];
  }

  /** From `c`, which mirrors `log`, to `d`: the rows `more` of key `origin` were logged and fed, and every mark is truthful. */
  ghost predicate Grown(src: Source, c: Conn, d: Conn, origins: seq<OffsetKey>, more: seq<RowOp>, origin: OffsetKey) {
    && c.writer.Some? && d.writer.Some?
    && d.frontier == c.frontier && d.numColumns == c.numColumns
    && Mirrors(d, d.writer.value) && Marked(d.writer.value, d.session.time)
    && c.writer.value <= d.writer.value
    && Rows(d.writer.value) == Rows(c.writer.value) + more
    && LogOk(src, d.writer.value, origins + Repeated(origin, |more|))
  }

  lemma EventHandled(src: Source, c: Conn, e: ParsedEvent, now: nat, origins: seq<OffsetKey>, origin: OffsetKey)
    requires c.writer.Some? && Mirrors(c, c.writer.value) && Marked(c.writer.value, c.session.time)
    requires LogOk(src, c.writer.value, origins)
    requires e.Change? ==> Fits(e.op, c.numColumns)
    requires e.CommitTime? ==> Summarises(src, c.frontier, Rows(c.writer.value), origins)
    ensures Grown(src, c, OnParsed(c, e, now), origins, if e.Change? then [e.op] else [], origin)
  {
    var log := c.writer.value;
    assert origins + Repeated(origin, 0) == origins;
    match e {
      case Unusable =>
      case CommitTime =>
        CommittedMirrors(c, log, now);
        var mark := AdvanceTime(Committed(c, now).time, c.frontier);
        LogOkExtended(src, log, origins, mark, []);
        assert origins + [] == origins;
        RowsSnoc(log, mark);
      case Change(op) =>
        FedMirrors(c, log, op);
        LogOkExtended(src, log, origins, Row(op), [origin]);
        assert Repeated(origin, 1) == [origin];
        MarkedExtended(log, Row(op), c.session.time);
        RowsSnoc(log, Row(op));
    }
  }

  lemma GrownTransitive(src: Source, a: Conn, b: Conn, c: Conn, origins: seq<OffsetKey>,
                        first: seq<RowOp>, second: seq<RowOp>, origin: OffsetKey)
    requires Grown(src, a, b, origins, first, origin)
    requires Grown(src, b, c, origins + Repeated(origin, |first|), second, origin)
    ensures Grown(src, a, c, origins, first + second, origin)
  {
    assert origins + Repeated(origin, |first|) + Repeated(origin, |second|) ==
           origins + Repeated(origin, |first + second|);
    assert Rows(a.writer.value) + first + second == Rows(a.writer.value) + (first + second);
  }

  /** Handling a parsed entry appends its rows to the log and to the session, and keeps every mark truthful. */
  lemma {:induction false} EntryHandled(src: Source, c: Conn, events: seq<ParsedEvent>, now: nat,
                                        origins: seq<OffsetKey>, origin: OffsetKey)
    requires c.writer.Some? && Mirrors(c, c.writer.value) && Marked(c.writer.value, c.session.time)
    requires LogOk(src, c.writer.value, origins)
    requires CommitsFirst(events) && AllFit(events, c.numColumns)
    requires HasCommit(events) ==> Summarises(src, c.frontier, Rows(c.writer.value), origins)
    ensures Grown(src, c, OnParsedAll(c, events, now), origins, ChangeOps(events), origin)
    decreases |events|
  {
    if events == [] {
      assert origins + Repeated(origin, 0) == origins;
    } else {
      var e, rest := events[0], events[1..];
      var next := OnParsed(c, e, now);
      var first := if e.Change? then [e.op] else [];
      CommitsFirstTail(events);
      assert e.CommitTime? ==> HasCommit(events);
      EventHandled(src, c, e, now, origins, origin);
      var origins' := origins + Repeated(origin, |first|);
      if HasCommit(rest) {
        var i :| 0 <= i < |rest| && rest[i].CommitTime?;
        assert events[i + 1].CommitTime?;
        assert !e.Change? && origins' == origins && Rows(next.writer.value) == Rows(c.writer.value);
      }
      EntryHandled(src, next, rest, now, origins', origin);
      GrownTransitive(src, c, next, OnParsedAll(c, events, now), origins, first, ChangeOps(rest), origin);
    }
  }

  // ---------------------------------------------------------------- cutting

  /** The position just after the last mark. */
  function TailStart(log: seq<LogEvent>): (t: nat)
    ensures t <= |log|
    ensures t > 0 ==> log[t - 1].AdvanceTime? && LastFrontier(log) == log[t - 1].frontier
    ensures t == 0 ==> LastFrontier(log) == map[]
    decreases |log|
  {
    if log == [] then 0
    else if log[|log| - 1].AdvanceTime? then |log|
    else TailStart(log[..|log| - 1])
  }

  /** The rows after the last mark: no frontier in the log accounts for them. */
  function TailRows(log: seq<LogEvent>): seq<RowOp> {
    Rows(log[TailStart(log)..])
  }

  /** The reader can cut the log at a mark, or there is nothing behind the last mark that it would replay for nothing. */
  predicate CutSafe(disk: seq<LogEvent>, threshold: TotalFrontier) {
    threshold == At(0) || CutIndex(disk, threshold) < |disk| || TailRows(disk) == []
  }

  lemma NothingSummarised(src: Source)
    ensures Summarises(src, map[], [], [])
  {}

  lemma KeptRows(log: seq<LogEvent>, threshold: TotalFrontier)
    ensures Kept(log, threshold) == log[..|Kept(log, threshold)|]
    ensures Rows(Replayed(log, threshold)) == Rows(Kept(log, threshold))
  {
    var c := CutIndex(log, threshold);
    if threshold != At(0) {
      if c < |log| {
        RowsSnoc(log[..c], log[c]);
        assert log[..c + 1] == log[..c] + [log[c]];
      } else {
        assert log[..c] == log;
      }
    }
  }

  lemma RowsUpToTail(log: seq<LogEvent>)
    ensures Rows(log) == Rows(log[..TailStart(log)]) + TailRows(log)
  {
    var t := TailStart(log);
    RowsConcat(log[..t], log[t..]);
    assert log == log[..t] + log[t..];
  }

  /** A truthful mark also accounts for the log that ends with it. */
  lemma MarkSummarises(src: Source, log: seq<LogEvent>, origins: seq<OffsetKey>, m: nat)
    requires LogOk(src, log, origins) && m < |log| && log[m].AdvanceTime?
    ensures Summarises(src, log[m].frontier, Rows(log[..m + 1]), OriginsBefore(log, origins, m + 1))
  {
    assert MarkOk(src, log, origins, m);
    assert log[..m + 1] == log[..m] + [log[m]];
    RowsSnoc(log[..m], log[m]);
    assert Rows(log[..m + 1]) == Rows(log[..m]);
    assert OriginsBefore(log, origins, m + 1) == OriginsBefore(log, origins, m);
  }

  /** The last frontier accounts for the rows up to the last mark. */
  lemma LastFrontierSummarises(src: Source, log: seq<LogEvent>, origins: seq<OffsetKey>)
    requires LogOk(src, log, origins)
    ensures var t := TailStart(log);
            Summarises(src, LastFrontier(log), Rows(log[..t]), OriginsBefore(log, origins, t))
  {
    var t := TailStart(log);
    if t > 0 {
      MarkSummarises(src, log, origins, t - 1);
    } else {
      assert log[..0] == [] && OriginsBefore(log, origins, 0) == [];
      NothingSummarised(src);
    }
  }

  /** What the kept log and the frontier restored from it are, in terms of the log on disk. */
  lemma KeptShape(disk: seq<LogEvent>, threshold: TotalFrontier)
    ensures var kept, c := Kept(disk, threshold), CutIndex(disk, threshold);
            && |kept| == (if threshold == At(0) then 0 else if c < |disk| then c + 1 else |disk|)
            && kept == disk[..|kept|]
            && RestoredFrontier(kept, threshold) ==
               (if threshold == At(0) then map[] else if c < |disk| then disk[c].frontier else LastFrontier(disk))
  {
    KeptReadsTheSame(disk, threshold);
    assert disk[..|disk|] == disk;
  }

  /** After a safe cut the restored frontier summarises the kept log. */
  lemma RestoredSummarises(src: Source, disk: seq<LogEvent>, origins: seq<OffsetKey>, threshold: TotalFrontier)
    requires LogOk(src, disk, origins)
    requires CutSafe(disk, threshold)
    ensures var kept := Kept(disk, threshold);
            |kept| <= |disk| &&
            Summarises(src, RestoredFrontier(kept, threshold), Rows(kept), OriginsBefore(disk, origins, |kept|))
  {
    KeptShape(disk, threshold);
    var kept := Kept(disk, threshold);
    if threshold == At(0) {
      assert OriginsBefore(disk, origins, 0) == [];
      NothingSummarised(src);
    } else if CutIndex(disk, threshold) < |disk| {
      MarkSummarises(src, disk, origins, CutIndex(disk, threshold));
    } else {
      RowsUpToTail(disk);
      assert Rows(kept) == Rows(disk[..TailStart(disk)]);
      LastFrontierSummarises(src, disk, origins);
      assert OriginsBefore(disk, origins, TailStart(disk)) == OriginsBefore(disk, origins, |kept|);
    }
  }

  lemma {:induction false} SelectKeepsFirst(ops: seq<RowOp>, origins: seq<OffsetKey>)
    requires |ops| == |origins| && ops != []
    ensures Select(ops, origins, origins[0]) != []
  {}

  /** Otherwise the frontier misses a row that the replay delivers: for some key it stands for fewer rows. */
  lemma TailNotSummarised(src: Source, disk: seq<LogEvent>, origins: seq<OffsetKey>) returns (k: OffsetKey)
    requires LogOk(src, disk, origins) && TailRows(disk) != []
    ensures FrontierOf(src, LastFrontier(disk))
    ensures Select(Rows(disk), origins, k) != RowsUpTo(src, k, SeekPosition(src, LastFrontier(disk), k))
  {
    var t := TailStart(disk);
    var tail := TailRows(disk);
    RowsUpToTail(disk);
    RowsOfPrefix(disk, t);
    var before := OriginsBefore(disk, origins, t);
    LastFrontierSummarises(src, disk, origins);
    var after := origins[|before|..];
    assert origins == before + after;
    k := after[0];
    SelectConcat(Rows(disk[..t]), before, tail, after, k);
    SelectKeepsFirst(tail, after);
  }

  // ---------------------------------------------------------------- replaying

  function ReplaySteps(events: seq<LogEvent>): (steps: seq<Step>)
    ensures |steps| == |events| && forall i :: 0 <= i < |steps| ==> RewindStep(steps[i])
  {
    if events == [] then [] else [Receive(Snapshot(events[0]), 0)] + ReplaySteps(events[1..])
  }

  lemma {:induction false} ReplayRun(c: Conn, events: seq<LogEvent>)
    requires TimesInOrder(c) && c.status.Running? && !c.backfilled && c.time == 0
    ensures var d := Run(c, ReplaySteps(events));
            && TimesInOrder(d) && !d.backfilled && d.time == 0 && !d.status.Ended?
            && d.writer == c.writer && d.numColumns == c.numColumns
            && (d.status.Running? ==> OpsOf(d.session) == OpsOf(c.session) + Rows(events))
    decreases |events|
  {
    if events != [] {
      var step := Receive(Snapshot(events[0]), 0);
      var next := Stepped(c, step);
      assert ReplaySteps(events)[0] == step && ReplaySteps(events)[1..] == ReplaySteps(events[1..]);
      ReplayOne(c, events[0]);
      if next.status.Running? {
        ReplayRun(next, events[1..]);
        assert OpsOf(c.session) + Rows(events) == OpsOf(c.session) + RowOf(events[0]) + Rows(events[1..]);
      } else {
        RunHalted(next, ReplaySteps(events[1..]));
      }
    }
  }

  function RowOf(event: LogEvent): seq<RowOp> {
    if event.Row? then [event.op] else []
  }

  lemma ReplayOne(c: Conn, event: LogEvent)
    requires TimesInOrder(c) && c.status.Running? && !c.backfilled && c.time == 0
    ensures var d := Stepped(c, Receive(Snapshot(event), 0));
            && TimesInOrder(d) && !d.backfilled && d.time == 0 && !d.status.Ended?
            && d.writer == c.writer && d.numColumns == c.numColumns
            && OpsOf(d.session) == OpsOf(c.session) + RowOf(event)
  {
    RewindStepTimes(c, Receive(Snapshot(event), 0));
  }

  /** The events that a rewind sends. */
  function Replay(disk: seq<LogEvent>, threshold: TotalFrontier, mode: ReplayMode, batchClock: nat): seq<LogEvent> {
    (if mode.Batch? then [AdvanceTime(batchClock, map[])] else []) + Sent(Replayed(disk, threshold), mode)
  }

  /** A new connector on the truncated log: a batch replay starts with a time of its own, and the sentinel comes last. */
  function RestartSteps(disk: seq<LogEvent>, threshold: TotalFrontier, mode: ReplayMode, batchClock: nat,
                        clock: nat): seq<Step> {
    ReplaySteps(Replay(disk, threshold, mode, batchClock)) +
    [Receive(RewindFinishSentinel(RestoredFrontier(Kept(disk, threshold), threshold)), clock)]
  }

  function Restarted(numColumns: nat, disk: seq<LogEvent>, threshold: TotalFrontier, mode: ReplayMode,
                     batchClock: nat, clock: nat): Conn
  {
    Run(Initial(numColumns, Some(Kept(disk, threshold))), RestartSteps(disk, threshold, mode, batchClock, clock))
  }

  /** A connector just restarted on a log: it mirrors the log and has added one mark to it, unless it panicked. */
  ghost predicate RestartedOn(d: Conn, numColumns: nat, kept: seq<LogEvent>, restored: Frontier) {
    && d.numColumns == numColumns && !d.status.Ended?
    && (d.status.Panicked? ==> d.writer == Some(kept))
    && (d.status.Running? ==>
          && d.frontier == restored && d.writer == Some(kept + [AdvanceTime(d.time, restored)])
          && Mirrors(d, d.writer.value) && Marked(d.writer.value, d.session.time))
  }

  /** Unless the clock is behind the replayed stamps, the restarted connector mirrors the kept log, with one mark added. */
  lemma RestartOutcome(numColumns: nat, disk: seq<LogEvent>, threshold: TotalFrontier, mode: ReplayMode,
                       batchClock: nat, clock: nat)
    ensures var kept := Kept(disk, threshold);
            var d := Restarted(numColumns, disk, threshold, mode, batchClock, clock);
            RestartedOn(d, numColumns, kept, RestoredFrontier(kept, threshold)) && (d.status.Running? ==> d.time == Even(clock))
  {
    var kept := Kept(disk, threshold);
    var restored := RestoredFrontier(kept, threshold);
    var c := Initial(numColumns, Some(kept));
    var sent := Replay(disk, threshold, mode, batchClock);
    var sentinel := Receive(RewindFinishSentinel(restored), clock);
    ReplayHasKeptRows(disk, threshold, mode, batchClock);
    assert OpsOf(c.session) == [] && [] + Rows(kept) == Rows(kept);
    ReplayRun(c, sent);
    RunConcat(c, ReplaySteps(sent), [sentinel]);
    var r := Run(c, ReplaySteps(sent));
    if r.status.Running? {
      assert Run(r, [sentinel]) == Run(Stepped(r, sentinel), [sentinel][1..]) == Stepped(r, sentinel);
      SentinelHandled(r, kept, restored, clock);
    } else {
      RunHalted(r, [sentinel]);
    }
  }

  lemma ReplayHasKeptRows(disk: seq<LogEvent>, threshold: TotalFrontier, mode: ReplayMode, batchClock: nat)
    ensures Rows(Replay(disk, threshold, mode, batchClock)) == Rows(Kept(disk, threshold))
  {
    var first := if mode.Batch? then [AdvanceTime(batchClock, map[])] else [];
    KeptRows(disk, threshold);
    SentKeepsRows(Replayed(disk, threshold), mode);
    RowsConcat(first, Sent(Replayed(disk, threshold), mode));
    assert first != [] ==> Rows(first) == Rows(first[1..]);
    assert Rows(first) == [];
  }

  lemma SentinelHandled(r: Conn, kept: seq<LogEvent>, restored: Frontier, clock: nat)
    requires TimesInOrder(r) && r.status.Running? && !r.backfilled && r.time == 0
    requires r.writer == Some(kept) && OpsOf(r.session) == Rows(kept)
    ensures var d := Stepped(r, Receive(RewindFinishSentinel(restored), clock));
            RestartedOn(d, r.numColumns, kept, restored) && (d.status.Running? ==> d.time == Even(clock))
  {
    var filled := r.(backfilled := true, frontier := restored);
    var d := Committed(filled, clock);
    assert Stepped(r, Receive(RewindFinishSentinel(restored), clock)) == d;
    CommittedTimes(filled, clock);
    assert OpsOf(d.session) == OpsOf(r.session);
    if d.status.Running? {
      RowsSnoc(kept, AdvanceTime(d.time, restored));
      assert d.writer.value[|kept|] == AdvanceTime(d.time, restored);
    }
  }

  // ---------------------------------------------------------------- several logs of one source

  /** The offsets of a key are of one kind and grow, so that merging frontiers keeps the one further on. */
  ghost predicate Ranked(src: Source) {
    forall k, n: nat, m: nat :: n < m ==>
      SameKind(src.offset(k, n), src.offset(k, m)) && Rank(src.offset(k, n)) < Rank(src.offset(k, m))
  }

  lemma LaterOffset(src: Source, k: OffsetKey, n: nat, m: nat)
    requires Ranked(src)
    ensures Later(src.offset(k, n), src.offset(k, m)) == src.offset(k, if n < m then m else n)
  {
    if m < n {
      assert SameKind(src.offset(k, m), src.offset(k, n)) && Rank(src.offset(k, m)) < Rank(src.offset(k, n));
    }
  }

  /** The entry whose offset a frontier of the source holds for a key. */
  lemma EntryOf(src: Source, f: Frontier, k: OffsetKey) returns (n: nat)
    requires FrontierOf(src, f) && k in f
    ensures src.offset(k, n) == f[k] && SeekPosition(src, f, k) == n + 1
  {
    n := SeekPosition(src, f, k) - 1;
  }

  lemma MergedFrontierOf(src: Source, f: Frontier, g: Frontier)
    requires FrontierOf(src, f) && FrontierOf(src, g)
    ensures FrontierOf(src, Merged(f, g))
  {
    var h := Merged(f, g);
    forall j | j in h ensures exists n: nat :: src.offset(j, n) == h[j] {
      var n;
      if j in f && h[j] == f[j] {
        n := EntryOf(src, f, j);
      } else {
        n := EntryOf(src, g, j);
      }
      assert src.offset(j, n) == h[j];
    }
  }

  /** The merged frontier resumes each key at the later of the two positions. */
  lemma MergedSeek(src: Source, f: Frontier, g: Frontier, k: OffsetKey)
    requires Ranked(src) && FrontierOf(src, f) && FrontierOf(src, g)
    ensures FrontierOf(src, Merged(f, g))
    ensures var p, q := SeekPosition(src, f, k), SeekPosition(src, g, k);
            SeekPosition(src, Merged(f, g), k) == if p <= q then q else p
  {
    var h := Merged(f, g);
    MergedFrontierOf(src, f, g);
    if k in f && k in g {
      var n := EntryOf(src, f, k);
      var m := EntryOf(src, g, k);
      LaterOffset(src, k, n, m);
      OffsetOfSeek(src, h, k, if n < m then m else n);
    } else if k in f {
      var n := EntryOf(src, f, k);
      OffsetOfSeek(src, h, k, n);
    } else if k in g {
      var n := EntryOf(src, g, k);
      OffsetOfSeek(src, h, k, n);
    }
  }

  lemma OffsetOfSeek(src: Source, f: Frontier, k: OffsetKey, n: nat)
    requires Ranked(src) && FrontierOf(src, f) && k in f && src.offset(k, n) == f[k]
    ensures SeekPosition(src, f, k) == n + 1
  {
    var m := SeekPosition(src, f, k) - 1;
    assert src.offset(k, m) == f[k];
  }

  /** The part of the rows of a key that two logs both hold. */
  function SharedRows(src: Source, k: OffsetKey, p: nat, q: nat): seq<RowOp> {
    RowsUpTo(src, k, if p <= q then p else q)
  }

  /**
   The merged frontier of two truthful logs stands for the rows of both if and only if no key has rows in both: a
   source whose keys move between workers only before they yield rows.
   */
  lemma MergedSummarisesIff(src: Source, f: Frontier, a: seq<RowOp>, ta: seq<OffsetKey>,
                            g: Frontier, b: seq<RowOp>, tb: seq<OffsetKey>)
    requires Ranked(src) && Summarises(src, f, a, ta) && Summarises(src, g, b, tb)
    ensures Summarises(src, Merged(f, g), a + b, ta + tb) <==>
            forall k :: SharedRows(src, k, SeekPosition(src, f, k), SeekPosition(src, g, k)) == []
  {
    forall k ensures FrontierOf(src, Merged(f, g))
             ensures Select(a + b, ta + tb, k) == RowsUpTo(src, k, SeekPosition(src, Merged(f, g), k)) <==>
                     SharedRows(src, k, SeekPosition(src, f, k), SeekPosition(src, g, k)) == []
    {
      MergedSeek(src, f, g, k);
      SelectConcat(a, ta, b, tb, k);
      BothOrOne(RowsUpTo(src, k, SeekPosition(src, f, k)), RowsUpTo(src, k, SeekPosition(src, g, k)));
    }
    if forall k :: SharedRows(src, k, SeekPosition(src, f, k), SeekPosition(src, g, k)) == [] {
    } else {
      var k :| SharedRows(src, k, SeekPosition(src, f, k), SeekPosition(src, g, k)) != [];
      assert Select(a + b, ta + tb, k) != RowsUpTo(src, k, SeekPosition(src, Merged(f, g), k));
    }
  }

  lemma BothOrOne(x: seq<RowOp>, y: seq<RowOp>)
    ensures x + y == y <==> x == []
    ensures x + y == x <==> y == []
  {
    assert |x + y| == |x| + |y|;
    assert x == [] ==> x + y == y;
  }
}
