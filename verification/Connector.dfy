/**
 The connector: the poller that receives entries from the input thread, feeds the input session and
 writes the snapshot log. The class below is the code; `Conn` and `Step` are its meaning on values.
 */
module Connector {
  import opened Values
  import opened Offsets
  import opened SnapshotLog

  /** A parsed event after error removal; `Unusable` is one whose removal failed and which is only logged. */
  datatype ParsedEvent = Unusable | Change(op: RowOp) | CommitTime

  datatype Outcome = ParseFailed | Parsed(events: seq<ParsedEvent>)

  datatype ReadResult =
    | Finished
    | NewSource
    | FinishedSource(commitAllowed: bool)
    | Data(outcome: Outcome, offsetKey: OffsetKey, offsetValue: OffsetValue)

  datatype Entry =
    | Snapshot(event: LogEvent)
    | RewindFinishSentinel(frontier: Frontier)
    | Realtime(result: ReadResult)

  /** What the input session was given so far, each operation with the session time at which it came. */
  datatype Session = Session(time: nat, ops: seq<(nat, RowOp)>)

  /** `Ended`: the poller broke out of its loop. `Panicked`: an assertion of the code failed. */
  datatype Status = Running | Ended | Panicked

  datatype Conn = Conn(
    numColumns: nat,
    time: nat,
    frontier: Frontier,
    backfilled: bool,
    commitAllowed: bool,
    session: Session,
    writer: Option<seq<LogEvent>>,
    status: Status)

  /** A poller step: the commit timer fires, or an entry is received, with the clock reading it sees. */
  datatype Step = Timer(now: nat) | Receive(entry: Entry, now: nat)

  function Initial(numColumns: nat, writer: Option<seq<LogEvent>>): Conn {
    Conn(numColumns, 0, map[], false, true, Session(0, []), writer, Running)
  }

  function Even(t: nat): nat {
    (t / 2) * 2
  }

  /** Inserts and deletes of the wrong width are dropped, after they were logged; upserts are not checked. */
  predicate Fits(op: RowOp, numColumns: nat) {
    match op
    case Insert(_, values) => |values| == numColumns
    case Delete(_, values) => |values| == numColumns
    case Upsert(_, _) => true
  }

  function Fed(c: Conn, op: RowOp): Conn {
    c.(session := c.session.(ops := c.session.ops + [(c.session.time, op)]))
  }

  function Logged(c: Conn, e: LogEvent): Conn {
    match c.writer
    case None => c
    case Some(log) => c.(writer := Some(log + [e]))
  }

  /** The session refuses to go back in time. */
  function AdvancedTo(c: Conn, t: nat): Conn {
    if t < c.session.time then c.(status := Panicked)
    else c.(session := c.session.(time := t))
  }

  function Committed(c: Conn, now: nat): Conn {
    var t := if c.time <= Even(now) then Even(now) else c.time;
    var advanced := AdvancedTo(c.(time := t), t);
    if advanced.status.Running? then Logged(advanced, AdvanceTime(t, c.frontier)) else advanced
  }

  function OnParsed(c: Conn, e: ParsedEvent, now: nat): Conn {
    if !c.status.Running? then c
    else match e
      case Unusable => c
      case Change(op) =>
        var logged := Logged(c, Row(op));
        if Fits(op, c.numColumns) then Fed(logged, op) else logged
      case CommitTime => Committed(c, now)
  }

  function OnParsedAll(c: Conn, events: seq<ParsedEvent>, now: nat): Conn
    decreases |events|
  {
    if events == [] then c else OnParsedAll(OnParsed(c, events[0], now), events[1..], now)
  }

  function WithoutCommits(events: seq<ParsedEvent>): seq<ParsedEvent> {
    if events == [] then []
    else (if events[0].CommitTime? then [] else [events[0]]) + WithoutCommits(events[1..])
  }

  function Handled(c: Conn, entry: Entry, now: nat): Conn {
    match entry
    case Realtime(Finished) =>
      var logged := Logged(c, AdvanceTime(c.time + 2, c.frontier));
      if c.backfilled then logged.(status := Ended) else logged
    case Realtime(FinishedSource(allowed)) =>
      if allowed then Committed(c.(commitAllowed := true), now) else c.(commitAllowed := false)
    case Realtime(NewSource) => c.(commitAllowed := false)
    case Realtime(Data(ParseFailed, _, _)) => c
    case Realtime(Data(Parsed(events), key, value)) =>
      var parsed := OnParsedAll(c, if c.backfilled then events else WithoutCommits(events), now);
      if !parsed.status.Running? || parsed.writer.None? then parsed
      else if !c.backfilled then parsed.(status := Panicked)
      else parsed.(frontier := parsed.frontier[key := value])
    case RewindFinishSentinel(restored) =>
      if c.backfilled then c.(status := Panicked)
      else Committed(c.(backfilled := true, frontier := restored), now)
    case Snapshot(Row(op)) => if c.backfilled then c.(status := Panicked) else Fed(c, op)
    case Snapshot(AdvanceTime(t, _)) => AdvancedTo(c, Even(t))
  }

  function Stepped(c: Conn, step: Step): Conn {
    if !c.status.Running? then c
    else match step
      case Timer(now) => if c.backfilled && c.commitAllowed then Committed(c, now) else c
      case Receive(entry, now) => Handled(c, entry, now)
  }

  function Run(c: Conn, steps: seq<Step>): Conn
    decreases |steps|
  {
    if steps == [] then c else Run(Stepped(c, steps[0]), steps[1..])
  }

  lemma {:induction false} RunConcat(c: Conn, a: seq<Step>, b: seq<Step>)
    ensures Run(c, a + b) == Run(Run(c, a), b)
    decreases |a|
  {
    if a == [] {
      assert a + b == b;
    } else {
      RunConcat(Stepped(c, a[0]), a[1..], b);
      assert (a + b)[0] == a[0] && (a + b)[1..] == a[1..] + b;
    }
  }

  lemma {:induction false} RunHalted(c: Conn, steps: seq<Step>)
    requires !c.status.Running?
    ensures Run(c, steps) == c
  {
    if steps != [] {
      RunHalted(c, steps[1..]);
    }
  }

  // ---------------------------------------------------------------- the code

  datatype ControlFlow = Continue(wakeAt: Option<nat>) | Break

  /** Entries taken from the channel, as steps of the poller. */
  function Receives(entries: seq<(Entry, nat)>): (steps: seq<Step>)
    ensures |steps| == |entries|
  {
    if entries == [] then [] else [Receive(entries[0].0, entries[0].1)] + Receives(entries[1..])
  }

  lemma {:induction false} ReceivesSnoc(entries: seq<(Entry, nat)>, e: (Entry, nat))
    ensures Receives(entries + [e]) == Receives(entries) + [Receive(e.0, e.1)]
  {
    if entries == [] {
      assert entries + [e] == [e];
      assert [e][1..] == [];
    } else {
      ReceivesSnoc(entries[1..], e);
      assert (entries + [e])[0] == entries[0] && (entries + [e])[1..] == entries[1..] + [e];
    }
  }

  /** A replayed mark: the poller yields after it, although the channel may hold more. */
  predicate YieldsAfter(entry: Entry) {
    entry.Snapshot? && entry.event.AdvanceTime?
  }

  const MAX_ENTRIES_IN_BATCH: nat := 100_000

  class Poller {
    const commitDuration: Option<nat>
    const numColumns: nat
    const speedrun: bool
    var currentTimestamp: nat
    var currentFrontier: Frontier
    var backfillingFinished: bool
    var commitAllowed: bool
    var nextCommitAt: Option<nat>
    var sessionTime: nat
    var sessionOps: seq<(nat, RowOp)>
    var snapshotWriter: Option<seq<LogEvent>>
    var status: Status

    ghost function State(): Conn
      reads this
    {
      Conn(numColumns, currentTimestamp, currentFrontier, backfillingFinished, commitAllowed,
           Session(sessionTime, sessionOps), snapshotWriter, status)
    }

    ghost predicate Valid()
      reads this
    {
      nextCommitAt.Some? ==> commitDuration.Some?
    }

    constructor (commitDuration: Option<nat>, numColumns: nat, speedrun: bool, stored: Option<seq<LogEvent>>, now: nat)
      ensures Valid() && State() == Initial(numColumns, stored)
      ensures this.commitDuration == commitDuration && this.speedrun == speedrun
      ensures nextCommitAt == if commitDuration.Some? then Some(now + commitDuration.value) else None
    {
      this.commitDuration, this.numColumns, this.speedrun := commitDuration, numColumns, speedrun;
      currentTimestamp, currentFrontier := 0, map[];
      backfillingFinished, commitAllowed := false, true;
      nextCommitAt := if commitDuration.Some? then Some(now + commitDuration.value) else None;
      sessionTime, sessionOps := 0, [];
      snapshotWriter, status := stored, Running;
    }

    method AdvanceSession(t: nat)
      modifies this`sessionTime, this`status
      ensures State() == AdvancedTo(old(State()), t)
    {
      if t < sessionTime {
        status := Panicked;
      } else {
        sessionTime := t;
      }
    }

    method Write(event: LogEvent)
      modifies this`snapshotWriter
      ensures State() == Logged(old(State()), event)
    {
      match snapshotWriter {
        case None =>
        case Some(log) => snapshotWriter := Some(log + [event]);
      }
    }

    method AdvanceTimeAndLog(now: nat)
      modifies this`currentTimestamp, this`sessionTime, this`status, this`snapshotWriter
      requires status.Running?
      ensures State() == Committed(old(State()), now)
    {
      var newTimestamp := (now / 2) * 2;
      if currentTimestamp <= newTimestamp {
        currentTimestamp := newTimestamp;
      }
      AdvanceSession(currentTimestamp);
      if status.Running? {
        Write(AdvanceTime(currentTimestamp, currentFrontier));
      }
    }

    /** `on_parsed_data`. */
    method OnParsedData(events: seq<ParsedEvent>, now: nat)
      requires status.Running?
      modifies this`currentTimestamp, this`sessionTime, this`sessionOps, this`status, this`snapshotWriter
      ensures State() == OnParsedAll(old(State()), events, now)
    {
      for i := 0 to |events|
        invariant OnParsedAll(State(), events[i..], now) == OnParsedAll(old(State()), events, now)
      {
        assert events[i..][0] == events[i] && events[i..][1..] == events[i + 1..];
        if status.Running? {
          match events[i] {
            case Unusable =>
            case Change(op) =>
              Write(Row(op));
              match op {
                case Insert(_, values) =>
                  if |values| == numColumns {
                    sessionOps := sessionOps + [(sessionTime, op)];
                  }
                case Delete(_, values) =>
                  if |values| == numColumns {
                    sessionOps := sessionOps + [(sessionTime, op)];
                  }
                case Upsert(_, _) =>
                  sessionOps := sessionOps + [(sessionTime, op)];
              }
            case CommitTime =>
              AdvanceTimeAndLog(now);
          }
        }
      }
    }

    /** `handle_input_entry`, together with the two kinds of entry that the poller's own loop handles. */
    method HandleInputEntry(entry: Entry, now: nat)
      requires status.Running?
      modifies this`currentTimestamp, this`currentFrontier, this`backfillingFinished, this`commitAllowed,
               this`sessionTime, this`sessionOps, this`snapshotWriter, this`status
      ensures State() == Handled(old(State()), entry, now)
    {
      match entry {
        case Realtime(Finished) =>
          Write(AdvanceTime(currentTimestamp + 2, currentFrontier));
          if backfillingFinished {
            status := Ended;
          }
        case Realtime(FinishedSource(allowed)) =>
          commitAllowed := allowed;
          if commitAllowed {
            AdvanceTimeAndLog(now);
          }
        case Realtime(NewSource) =>
          commitAllowed := false;
        case Realtime(Data(ParseFailed, _, _)) =>
        case Realtime(Data(Parsed(events), offsetKey, offsetValue)) =>
          var retained := events;
          if !backfillingFinished {
            retained := WithoutCommits(events);
          }
          OnParsedData(retained, now);
          if status.Running? && snapshotWriter.Some? {
            if backfillingFinished {
              currentFrontier := currentFrontier[offsetKey := offsetValue];
            } else {
              status := Panicked;
            }
          }
        case RewindFinishSentinel(restored) =>
          if backfillingFinished {
            status := Panicked;
          } else {
            backfillingFinished := true;
            currentFrontier := restored;
            AdvanceTimeAndLog(now);
          }
        case Snapshot(Row(op)) =>
          if backfillingFinished {
            status := Panicked;
          } else {
            sessionOps := sessionOps + [(sessionTime, op)];
          }
        case Snapshot(AdvanceTime(t, _)) =>
          AdvanceSession((t / 2) * 2);
      }
    }

    /**
     One call of the poller closure: it fires the commit timer when that is due and then drains the channel.
     `consumed` entries are taken, and the state moves by exactly the corresponding steps.
     */
    method Poll(iterationStart: nat, clock: nat, probeLess: bool, channel: seq<(Entry, nat)>, disconnected: bool)
      returns (flow: ControlFlow, consumed: nat, ghost fired: bool)
      requires Valid() && status.Running?
      modifies this
      ensures Valid() && consumed <= |channel| && consumed < MAX_ENTRIES_IN_BATCH
      ensures State() == Run(old(State()), (if fired then [Timer(clock)] else []) + Receives(channel[..consumed]))
      ensures speedrun && !old(backfillingFinished) && probeLess ==>
                !fired && consumed == 0 && flow == Continue(Some(iterationStart)) && State() == old(State())
      ensures !(speedrun && !old(backfillingFinished) && probeLess) ==>
                (fired <==> old(nextCommitAt).Some? && old(nextCommitAt).value <= iterationStart)
      ensures status.Running? && flow.Break? ==> disconnected && consumed == |channel|
      ensures forall i :: 0 <= i < consumed - 1 ==> !YieldsAfter(channel[i].0)
      ensures !(speedrun && !old(backfillingFinished) && probeLess) && status.Running? ==>
                || consumed == |channel|
                || consumed == MAX_ENTRIES_IN_BATCH - 1
                || (consumed > 0 && YieldsAfter(channel[consumed - 1].0) && flow == Continue(Some(iterationStart)))
    {
      consumed, fired, flow := 0, false, Break;
      ghost var start := State();
      ghost var steps: seq<Step> := [];
      assert channel[..0] == [];
      if speedrun && !backfillingFinished && probeLess {
        return Continue(Some(iterationStart)), 0, false;
      }
      if nextCommitAt.Some? && nextCommitAt.value <= iterationStart {
        fired := true;
        steps := [Timer(clock)];
        assert Run(start, steps) == Run(Stepped(start, steps[0]), steps[1..]) == Stepped(start, steps[0]);
        if backfillingFinished && commitAllowed {
          AdvanceTimeAndLog(clock);
        }
        nextCommitAt := Some(nextCommitAt.value + commitDuration.value);
      }
      if status.Running? {
        flow, consumed := DrainChannel(iterationStart, channel, disconnected);
      }
      RunConcat(start, steps, Receives(channel[..consumed]));
    }

    /** Entries are handled until one asks to yield, the poller ends, the batch is full or the channel is empty. */
    method DrainChannel(iterationStart: nat, channel: seq<(Entry, nat)>, disconnected: bool)
      returns (flow: ControlFlow, consumed: nat)
      requires Valid() && status.Running?
      modifies this
      ensures Valid() && consumed <= |channel| && consumed < MAX_ENTRIES_IN_BATCH
      ensures State() == Run(old(State()), Receives(channel[..consumed]))
      ensures status.Running? && flow.Break? ==> disconnected && consumed == |channel|
      ensures forall i :: 0 <= i < consumed - 1 ==> !YieldsAfter(channel[i].0)
      ensures status.Running? ==>
                || consumed == |channel|
                || consumed == MAX_ENTRIES_IN_BATCH - 1
                || (consumed > 0 && YieldsAfter(channel[consumed - 1].0) && flow == Continue(Some(iterationStart)))
    {
      consumed := 0;
      ghost var start := State();
      assert channel[..0] == [];
      while status.Running?
        invariant Valid() && consumed <= |channel| && consumed < MAX_ENTRIES_IN_BATCH
        invariant State() == Run(start, Receives(channel[..consumed]))
        invariant forall i :: 0 <= i < consumed ==> !YieldsAfter(channel[i].0)
        decreases status.Running?, |channel| - consumed
      {
        if consumed + 1 == MAX_ENTRIES_IN_BATCH {
          return Continue(nextCommitAt), consumed;
        }
        if consumed == |channel| {
          if disconnected {
            return Break, consumed;
          }
          return Continue(nextCommitAt), consumed;
        }
        var (entry, now) := channel[consumed];
        TakeOne(start, channel, consumed);
        HandleInputEntry(entry, now);
        consumed := consumed + 1;
        if YieldsAfter(entry) {
          return Continue(Some(iterationStart)), consumed;
        }
      }
      return Break, consumed;
    }
  }

  lemma TakeOne(start: Conn, channel: seq<(Entry, nat)>, n: nat)
    requires n < |channel|
    ensures Run(start, Receives(channel[..n + 1])) ==
            Stepped(Run(start, Receives(channel[..n])), Receive(channel[n].0, channel[n].1))
  {
    var last := Receive(channel[n].0, channel[n].1);
    assert channel[..n + 1] == channel[..n] + [channel[n]];
    ReceivesSnoc(channel[..n], channel[n]);
    RunConcat(start, Receives(channel[..n]), [last]);
    assert [last][1..] == [];
  }

  // ---------------------------------------------------------------- time parity

  ghost predicate OpsInOrder(s: Session) {
    && s.time % 2 == 0
    && (forall i :: 0 <= i < |s.ops| ==> s.ops[i].0 % 2 == 0 && s.ops[i].0 <= s.time)
    && (forall i, j :: 0 <= i < j < |s.ops| ==> s.ops[i].0 <= s.ops[j].0)
  }

  /** Session times are even and never decrease, and after the rewind the session is at the connector's time. */
  ghost predicate TimesInOrder(c: Conn) {
    && c.time % 2 == 0
    && OpsInOrder(c.session)
    && (c.backfilled && !c.status.Panicked? ==> c.time == c.session.time)
  }

  lemma FedTimes(c: Conn, op: RowOp)
    requires TimesInOrder(c)
    ensures TimesInOrder(Fed(c, op))
  {}

  lemma AdvancedToTimes(c: Conn, t: nat)
    requires OpsInOrder(c.session) && t % 2 == 0
    ensures OpsInOrder(AdvancedTo(c, t).session) && c.session.time <= AdvancedTo(c, t).session.time
  {}

  lemma CommittedTimes(c: Conn, now: nat)
    requires c.time % 2 == 0 && OpsInOrder(c.session) && c.status.Running?
    ensures TimesInOrder(Committed(c, now)) && c.session.time <= Committed(c, now).session.time
    ensures Committed(c, now).status.Panicked? <==> c.time < c.session.time && Even(now) < c.session.time
    ensures !Committed(c, now).status.Ended?
  {
    AdvancedToTimes(c, if c.time <= Even(now) then Even(now) else c.time);
  }

  lemma OnParsedTimes(c: Conn, e: ParsedEvent, now: nat)
    requires TimesInOrder(c)
    ensures var d := OnParsed(c, e, now);
            TimesInOrder(d) && c.session.time <= d.session.time && d.backfilled == c.backfilled
    ensures c.backfilled && c.status.Running? ==> OnParsed(c, e, now).status.Running?
  {
    if c.status.Running? {
      match e {
        case Unusable =>
        case Change(op) => FedTimes(Logged(c, Row(op)), op);
        case CommitTime => CommittedTimes(c, now);
      }
    }
  }

  lemma {:induction false} OnParsedAllTimes(c: Conn, events: seq<ParsedEvent>, now: nat)
    requires TimesInOrder(c)
    ensures var d := OnParsedAll(c, events, now);
            TimesInOrder(d) && c.session.time <= d.session.time && d.backfilled == c.backfilled
    ensures c.backfilled && c.status.Running? ==> OnParsedAll(c, events, now).status.Running?
    decreases |events|
  {
    if events != [] {
      OnParsedTimes(c, events[0], now);
      OnParsedAllTimes(OnParsed(c, events[0], now), events[1..], now);
    }
  }

  /** A live step keeps the times in order and never panics. */
  lemma LiveStepTimes(c: Conn, step: Step)
    requires TimesInOrder(c) && !c.status.Panicked? && c.backfilled
    requires LiveStep(step)
    ensures var d := Stepped(c, step);
            TimesInOrder(d) && c.session.time <= d.session.time && d.backfilled && !d.status.Panicked?
  {
    if c.status.Running? {
      match step {
        case Timer(now) => CommittedTimes(c, now);
        case Receive(Realtime(Data(Parsed(events), _, _)), now) => OnParsedAllTimes(c, events, now);
        case Receive(Realtime(FinishedSource(_)), now) => CommittedTimes(c.(commitAllowed := true), now);
        case Receive(_, _) =>
      }
    }
  }

  /** The order in which the input thread sends: snapshot entries, the sentinel, then live reads. */
  predicate RewindStep(step: Step) {
    step.Timer? || step.entry.Snapshot?
  }

  predicate LiveStep(step: Step) {
    step.Timer? || step.entry.Realtime?
  }

  /** The replayed stamps, made even, never go back, and the clock at the end of the rewind is not below them. */
  predicate ClockAhead(rewind: seq<Step>, sessionTime: nat, clock: nat) {
    if rewind == [] then sessionTime <= Even(clock)
    else if rewind[0].Receive? && rewind[0].entry.Snapshot? && rewind[0].entry.event.AdvanceTime? then
      var t := Even(rewind[0].entry.event.time);
      sessionTime <= t && ClockAhead(rewind[1..], t, clock)
    else ClockAhead(rewind[1..], sessionTime, clock)
  }

  lemma RewindStepTimes(c: Conn, step: Step)
    requires TimesInOrder(c) && c.status.Running? && !c.backfilled && RewindStep(step)
    ensures var d := Stepped(c, step);
            && TimesInOrder(d) && c.session.time <= d.session.time && !d.backfilled && d.time == c.time
            && (d.status.Running? || d.status.Panicked?)
  {
    if step.Receive? {
      match step.entry.event {
        case Row(op) => FedTimes(c, op);
        case AdvanceTime(t, _) => AdvancedToTimes(c, Even(t));
      }
    }
  }

  lemma {:induction false} RewindOutcome(c: Conn, rewind: seq<Step>, restored: Frontier, clock: nat)
    requires TimesInOrder(c) && c.status.Running? && !c.backfilled && c.time == 0
    requires forall i :: 0 <= i < |rewind| ==> RewindStep(rewind[i])
    ensures var d := Run(c, rewind + [Receive(RewindFinishSentinel(restored), clock)]);
            && TimesInOrder(d) && c.session.time <= d.session.time
            && (ClockAhead(rewind, c.session.time, clock) ==> d.status.Running? && d.backfilled)
            && (!ClockAhead(rewind, c.session.time, clock) ==> d.status.Panicked?)
    decreases |rewind|
  {
    var sentinel := Receive(RewindFinishSentinel(restored), clock);
    if rewind == [] {
      assert rewind + [sentinel] == [sentinel];
      assert Run(c, [sentinel]) == Run(Stepped(c, sentinel), [sentinel][1..]) == Stepped(c, sentinel);
      CommittedTimes(c.(backfilled := true, frontier := restored), clock);
    } else {
      var next := Stepped(c, rewind[0]);
      RewindStepTimes(c, rewind[0]);
      assert (rewind + [sentinel])[0] == rewind[0] && (rewind + [sentinel])[1..] == rewind[1..] + [sentinel];
      if next.status.Running? {
        RewindOutcome(next, rewind[1..], restored, clock);
      } else {
        RunHalted(next, rewind[1..] + [sentinel]);
      }
    }
  }

  lemma {:induction false} LiveOutcome(c: Conn, live: seq<Step>)
    requires TimesInOrder(c) && !c.status.Panicked? && c.backfilled
    requires forall i :: 0 <= i < |live| ==> LiveStep(live[i])
    ensures var d := Run(c, live);
            TimesInOrder(d) && c.session.time <= d.session.time && d.backfilled && !d.status.Panicked?
    decreases |live|
  {
    if live != [] {
      LiveStepTimes(c, live[0]);
      LiveOutcome(Stepped(c, live[0]), live[1..]);
    }
  }

  /**
   In every run the session time is even and never decreases. The session's assertion fails in exactly the
   runs whose replayed stamps go back or whose clock, at the end of the rewind, is behind them.
   */
  lemma TimeParity(numColumns: nat, writer: Option<seq<LogEvent>>, rewind: seq<Step>, restored: Frontier,
                   clock: nat, live: seq<Step>)
    requires forall i :: 0 <= i < |rewind| ==> RewindStep(rewind[i])
    requires forall i :: 0 <= i < |live| ==> LiveStep(live[i])
    ensures var d := Run(Initial(numColumns, writer), rewind + [Receive(RewindFinishSentinel(restored), clock)] + live);
            TimesInOrder(d) && (d.status.Panicked? <==> !ClockAhead(rewind, 0, clock))
  {
    var c := Initial(numColumns, writer);
    var first := rewind + [Receive(RewindFinishSentinel(restored), clock)];
    RewindOutcome(c, rewind, restored, clock);
    RunConcat(c, first, live);
    if ClockAhead(rewind, 0, clock) {
      LiveOutcome(Run(c, first), live);
    } else {
      RunHalted(Run(c, first), live);
    }
  }

  // ---------------------------------------------------------------- atomic sources

  /** A step that neither ends a source with permission to commit nor carries a commit of its own. */
  predicate Quiet(step: Step) {
    match step
    case Timer(_) => true
    case Receive(Realtime(FinishedSource(allowed)), _) => !allowed
    case Receive(Realtime(Data(Parsed(events), _, _)), _) => forall i :: 0 <= i < |events| ==> !events[i].CommitTime?
    case Receive(Realtime(_), _) => true
    case Receive(_, _) => false
  }

  /** Between `c` and `d` the session only received operations, all at the session time of `c`. */
  ghost predicate OneTime(c: Conn, d: Conn) {
    && d.session.time == c.session.time
    && |c.session.ops| <= |d.session.ops| && d.session.ops[..|c.session.ops|] == c.session.ops
    && (forall i :: |c.session.ops| <= i < |d.session.ops| ==> d.session.ops[i].0 == c.session.time)
  }

  lemma OneTimeTransitive(a: Conn, b: Conn, c: Conn)
    requires OneTime(a, b) && OneTime(b, c)
    ensures OneTime(a, c)
  {
    assert c.session.ops[..|b.session.ops|][..|a.session.ops|] == c.session.ops[..|a.session.ops|];
    forall i | |a.session.ops| <= i < |c.session.ops| ensures c.session.ops[i].0 == a.session.time {
      if i < |b.session.ops| {
        assert c.session.ops[..|b.session.ops|][i] == b.session.ops[i];
      }
    }
  }

  lemma {:induction false} OnParsedAllOneTime(c: Conn, events: seq<ParsedEvent>, now: nat)
    requires forall i :: 0 <= i < |events| ==> !events[i].CommitTime?
    ensures OneTime(c, OnParsedAll(c, events, now))
    ensures OnParsedAll(c, events, now).commitAllowed == c.commitAllowed
    decreases |events|
  {
    if events != [] {
      var next := OnParsed(c, events[0], now);
      OnParsedAllOneTime(next, events[1..], now);
      OneTimeTransitive(c, next, OnParsedAll(c, events, now));
    }
  }

  lemma {:induction false} WithoutCommitsQuiet(events: seq<ParsedEvent>)
    ensures forall i :: 0 <= i < |WithoutCommits(events)| ==> !WithoutCommits(events)[i].CommitTime?
  {
    if events != [] {
      WithoutCommitsQuiet(events[1..]);
    }
  }

  /** While commits are blocked, no timer and no quiet entry moves the session time. */
  lemma {:induction false} BlockedRun(c: Conn, steps: seq<Step>)
    requires !c.commitAllowed
    requires forall i :: 0 <= i < |steps| ==> Quiet(steps[i])
    ensures OneTime(c, Run(c, steps)) && !Run(c, steps).commitAllowed
    decreases |steps|
  {
    if steps != [] {
      var next := Stepped(c, steps[0]);
      if c.status.Running? && steps[0].Receive? {
        match steps[0].entry.result {
          case Data(Parsed(events), _, _) =>
            WithoutCommitsQuiet(events);
            OnParsedAllOneTime(c, if c.backfilled then events else WithoutCommits(events), steps[0].now);
          case _ =>
        }
      }
      assert OneTime(c, next);
      BlockedRun(next, steps[1..]);
      OneTimeTransitive(c, next, Run(c, steps));
    }
  }

  /**
   Sources are atomic: whatever timers fire in between, everything the session is given from the start of a
   source to the entry before the next commit permission carries one session time.
   */
  lemma SourceAtomicity(c: Conn, steps: seq<Step>, now: nat)
    requires forall i :: 0 <= i < |steps| ==> Quiet(steps[i])
    ensures OneTime(c, Run(c, [Receive(Realtime(NewSource), now)] + steps))
  {
    var first := Receive(Realtime(NewSource), now);
    var started := Stepped(c, first);
    assert ([first] + steps)[0] == first && ([first] + steps)[1..] == steps;
    if c.status.Running? {
      BlockedRun(started, steps);
      OneTimeTransitive(c, started, Run(c, [first] + steps));
    } else {
      RunHalted(c, steps);
    }
  }
}
