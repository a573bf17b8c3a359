/**
 The snapshot of one input: a log of row operations and `AdvanceTime` marks, how a reader cuts it at a
 time threshold, and what a restarting connector replays and restores from it.
 */
module SnapshotLog {
  import opened Values
  import opened Offsets

  datatype RowOp =
    | Insert(key: Key, values: seq<Value>)
    | Delete(key: Key, values: seq<Value>)
    | Upsert(key: Key, update: Option<seq<Value>>)

  /** A stored event. The end of the log, which readers report as `Finished`, is `None` below. */
  datatype LogEvent = Row(op: RowOp) | AdvanceTime(time: nat, frontier: Frontier)

  datatype ReplayMode = Batch | Persisting | SelectivePersisting | UdfCaching | SpeedrunReplay

  function Rows(log: seq<LogEvent>): seq<RowOp> {
    if log == [] then []
    else (if log[0].Row? then [log[0].op] else []) + Rows(log[1..])
  }

  lemma {:induction false} RowsConcat(a: seq<LogEvent>, b: seq<LogEvent>)
    ensures Rows(a + b) == Rows(a) + Rows(b)
  {
    if a == [] {
      assert a + b == b;
    } else {
      RowsConcat(a[1..], b);
      assert (a + b)[0] == a[0] && (a + b)[1..] == a[1..] + b;
      ConcatAssociates(if a[0].Row? then [a[0].op] else [], Rows(a[1..]), Rows(b));
    }
  }

  lemma RowsSnoc(log: seq<LogEvent>, e: LogEvent)
    ensures Rows(log + [e]) == Rows(log) + (if e.Row? then [e.op] else [])
  {
    RowsConcat(log, [e]);
    assert Rows([e]) == (if e.Row? then [e.op] else []);
  }

  /** A mark at or above the threshold, which ends the reading. */
  predicate Reaches(e: LogEvent, threshold: TotalFrontier) {
    e.AdvanceTime? && threshold.AtMost(At(e.time))
  }

  /** The position of the first mark that reaches the threshold; the length of the log if there is none. */
  function CutIndex(log: seq<LogEvent>, threshold: TotalFrontier): (c: nat)
    ensures c <= |log|
    ensures forall i :: 0 <= i < c ==> !Reaches(log[i], threshold)
    ensures c < |log| ==> Reaches(log[c], threshold)
  {
    if log == [] || Reaches(log[0], threshold) then 0
    else 1 + CutIndex(log[1..], threshold)
  }

  lemma CutIndexUnique(log: seq<LogEvent>, threshold: TotalFrontier, c: nat)
    requires c <= |log|
    requires forall i :: 0 <= i < c ==> !Reaches(log[i], threshold)
    requires c < |log| ==> Reaches(log[c], threshold)
    ensures CutIndex(log, threshold) == c
  {}

  /** The frontier of the last mark, or the empty frontier before the first one. */
  function LastFrontier(log: seq<LogEvent>): Frontier
    decreases |log|
  {
    if log == [] then map[]
    else if log[|log| - 1].AdvanceTime? then log[|log| - 1].frontier
    else LastFrontier(log[..|log| - 1])
  }

  /** The part of a log that a replaying reader hands out. A zero threshold means that nothing was ever finalised. */
  function Replayed(log: seq<LogEvent>, threshold: TotalFrontier): seq<LogEvent> {
    if threshold == At(0) then [] else log[..CutIndex(log, threshold)]
  }

  /** The log that a truncating reader leaves behind. */
  function Kept(log: seq<LogEvent>, threshold: TotalFrontier): seq<LogEvent> {
    var c := CutIndex(log, threshold);
    if threshold == At(0) then [] else if c < |log| then log[..c + 1] else log
  }

  /** The frontier reported by a reader that ran to its end. */
  function RestoredFrontier(log: seq<LogEvent>, threshold: TotalFrontier): Frontier {
    var c := CutIndex(log, threshold);
    if c < |log| then log[c].frontier else LastFrontier(log)
  }

  /** Of the replayed events, those that are sent on to the connector. */
  function Sent(log: seq<LogEvent>, mode: ReplayMode): seq<LogEvent> {
    if log == [] then []
    else (if log[0].Row? || mode.SpeedrunReplay? then [log[0]] else []) + Sent(log[1..], mode)
  }

  /** Whatever the mode, the rows sent on are the rows replayed, in order. */
  lemma {:induction false} SentKeepsRows(log: seq<LogEvent>, mode: ReplayMode)
    ensures Rows(Sent(log, mode)) == Rows(log)
  {
    if log != [] {
      SentKeepsRows(log[1..], mode);
      RowsConcat(if log[0].Row? || mode.SpeedrunReplay? then [log[0]] else [], Sent(log[1..], mode));
    }
  }

  lemma {:induction false} SentSnoc(log: seq<LogEvent>, e: LogEvent, mode: ReplayMode)
    ensures Sent(log + [e], mode) == Sent(log, mode) + (if e.Row? || mode.SpeedrunReplay? then [e] else [])
  {
    if log == [] {
      assert log + [e] == [e];
      assert Sent([e][1..], mode) == [];
    } else {
      SentSnoc(log[1..], e, mode);
      assert (log + [e])[0] == log[0] && (log + [e])[1..] == log[1..] + [e];
    }
  }

  /** `SnapshotReader` over a stored log, of which it has consumed the first `position` events. */
  class SnapshotReader {
    var log: seq<LogEvent>
    var position: nat
    const threshold: TotalFrontier
    var entriesRead: nat
    var lastFrontier: Frontier
    const truncateAtEnd: bool

    ghost predicate Valid()
      reads this
    {
      position <= |log|
    }

    constructor (stored: seq<LogEvent>, threshold: TotalFrontier, truncateAtEnd: bool)
      ensures Valid() && position == 0 && entriesRead == 0 && lastFrontier == map[]
      ensures this.threshold == threshold && this.truncateAtEnd == truncateAtEnd
      ensures log == if threshold == At(0) && truncateAtEnd then [] else stored
    {
      log, position := stored, 0;
      this.threshold, this.truncateAtEnd := threshold, truncateAtEnd;
      entriesRead, lastFrontier := 0, map[];
      if threshold == At(0) && truncateAtEnd {
        log := [];
      }
    }

    /** Hands out the next event, or `None` at the end of the log and at the mark that reaches the threshold. */
    method Read() returns (e: Option<LogEvent>)
      requires Valid()
      modifies this
      ensures Valid()
      ensures old(position) == |old(log)| ==> e == None && position == old(position) && unchanged(this)
      ensures old(position) < |old(log)| ==>
                var event := old(log)[old(position)];
                && position == old(position) + 1
                && lastFrontier == (if event.AdvanceTime? then event.frontier else old(lastFrontier))
                && (Reaches(event, threshold) ==>
                      e == None && entriesRead == old(entriesRead) &&
                      log == if truncateAtEnd then old(log)[..position] else old(log))
                && (!Reaches(event, threshold) ==>
                      e == Some(event) && entriesRead == old(entriesRead) + 1 && log == old(log))
    {
      if position == |log| {
        return None;
      }
      var event := log[position];
      position := position + 1;
      if event.AdvanceTime? {
        var readFinished := threshold.AtMost(At(event.time));
        lastFrontier := event.frontier;
        if readFinished {
          if truncateAtEnd {
            log := log[..position];
          }
          return None;
        }
      }
      entriesRead := entriesRead + 1;
      return Some(event);
    }
  }

  /** The inner loop of `rewind_from_disk_snapshot`: replays one snapshot and leaves it truncated. */
  method Rewind(stored: seq<LogEvent>, threshold: TotalFrontier, mode: ReplayMode)
    returns (sent: seq<LogEvent>, kept: seq<LogEvent>)
    ensures sent == Sent(Replayed(stored, threshold), mode)
    ensures kept == Kept(stored, threshold)
  {
    var reader := new SnapshotReader(stored, threshold, true);
    ghost var log := reader.log;
    sent := [];
    var finished := false;
    while !finished
      invariant reader.Valid() && reader.threshold == threshold && reader.truncateAtEnd
      invariant !finished ==> reader.log == log && sent == Sent(log[..reader.position], mode)
      invariant !finished ==> forall i :: 0 <= i < reader.position ==> !Reaches(log[i], threshold)
      invariant finished ==> sent == Sent(log[..CutIndex(log, threshold)], mode)
      invariant finished ==> var c := CutIndex(log, threshold); reader.log == if c < |log| then log[..c + 1] else log
      decreases !finished, |log| - reader.position
    {
      ghost var at := reader.position;
      var entryRead := reader.Read();
      match entryRead {
        case None =>
          CutIndexUnique(log, threshold, at);
          finished := true;
        case Some(event) =>
          SentSnoc(log[..at], event, mode);
          assert log[..at + 1] == log[..at] + [event];
          if event.Row? || mode.SpeedrunReplay? {
            sent := sent + [event];
          }
      }
    }
    kept := reader.log;
    assert log[..0] == [];
  }

  /** The inner loop of `frontier_for`: reads one snapshot to its end and reports its last frontier. */
  method ReadFrontier(stored: seq<LogEvent>, threshold: TotalFrontier) returns (frontier: Frontier)
    ensures frontier == RestoredFrontier(stored, threshold)
  {
    var reader := new SnapshotReader(stored, threshold, false);
    var finished := false;
    while !finished
      invariant reader.Valid() && reader.threshold == threshold && !reader.truncateAtEnd && reader.log == stored
      invariant !finished ==> reader.lastFrontier == LastFrontier(stored[..reader.position])
      invariant !finished ==> forall i :: 0 <= i < reader.position ==> !Reaches(stored[i], threshold)
      invariant finished ==> reader.lastFrontier == RestoredFrontier(stored, threshold)
      decreases !finished, |stored| - reader.position
    {
      ghost var at := reader.position;
      var entryRead := reader.Read();
      if entryRead == None {
        CutIndexUnique(stored, threshold, at);
        assert stored[..|stored|] == stored;
        finished := true;
      } else {
        assert stored[..at + 1][..at] == stored[..at];
      }
    }
    frontier := reader.lastFrontier;
  }

  /** `frontier_for`: the frontiers of all snapshots of an input, merged. */
  method FrontierFor(stored: seq<seq<LogEvent>>, threshold: TotalFrontier) returns (frontier: Frontier)
    ensures frontier == MergedAll(seq(|stored|, i requires 0 <= i < |stored| => RestoredFrontier(stored[i], threshold)))
  {
    frontier := map[];
    ghost var all := seq(|stored|, i requires 0 <= i < |stored| => RestoredFrontier(stored[i], threshold));
    for n := 0 to |stored|
      invariant frontier == MergedAll(all[..n])
    {
      var f := ReadFrontier(stored[n], threshold);
      frontier := MergeTwoFrontiers(frontier, f);
      assert all[..n + 1][..n] == all[..n];
    }
    assert all[..|stored|] == all;
  }

  /** Truncating changes neither what a later reader replays nor the frontier it restores. */
  lemma KeptReadsTheSame(log: seq<LogEvent>, threshold: TotalFrontier)
    ensures Replayed(Kept(log, threshold), threshold) == Replayed(log, threshold)
    ensures threshold != At(0) ==> RestoredFrontier(Kept(log, threshold), threshold) == RestoredFrontier(log, threshold)
    ensures Kept(Kept(log, threshold), threshold) == Kept(log, threshold)
  {
    var c, kept := CutIndex(log, threshold), Kept(log, threshold);
    if threshold != At(0) && c < |log| {
      CutIndexUnique(kept, threshold, c);
      assert kept[..c] == log[..c];
    }
  }

  ghost predicate NonDecreasingStamps(log: seq<LogEvent>) {
    forall i, j :: 0 <= i < j < |log| && log[i].AdvanceTime? && log[j].AdvanceTime? ==> log[i].time <= log[j].time
  }

  /** The rows whose logical time, the stamp of the nearest mark before them, lies below the threshold. */
  ghost function RowsBefore(log: seq<LogEvent>, threshold: TotalFrontier, now: nat): seq<RowOp> {
    if log == [] then []
    else match log[0]
      case AdvanceTime(time, _) => RowsBefore(log[1..], threshold, time)
      case Row(op) => (if threshold.AtMost(At(now)) then [] else [op]) + RowsBefore(log[1..], threshold, now)
  }

  /** A mark below the threshold with a row right behind it. */
  predicate LowRowAt(log: seq<LogEvent>, threshold: TotalFrontier, i: nat) {
    i + 1 < |log| && log[i].AdvanceTime? && !Reaches(log[i], threshold) && log[i + 1].Row?
  }

  /** From position `c` on there is such a mark, so a row of a time below the threshold. */
  ghost predicate LowRowsFrom(log: seq<LogEvent>, threshold: TotalFrontier, c: nat) {
    exists i: nat :: c <= i && LowRowAt(log, threshold, i)
  }

  lemma {:induction false} RowsBeforePrefix(log: seq<LogEvent>, threshold: TotalFrontier, now: nat, c: nat)
    requires c < |log| && log[c].AdvanceTime?
    requires !threshold.AtMost(At(now)) && forall i :: 0 <= i < c ==> !Reaches(log[i], threshold)
    ensures RowsBefore(log, threshold, now) == Rows(log[..c]) + RowsBefore(log[c + 1..], threshold, log[c].time)
  {
    if c > 0 {
      RowsBeforePrefix(log[1..], threshold, if log[0].AdvanceTime? then log[0].time else now, c - 1);
      assert log[1..][c..] == log[c + 1..] && log[..c][1..] == log[1..][..c - 1];
    }
  }

  lemma {:induction false} AllRowsBefore(log: seq<LogEvent>, threshold: TotalFrontier, now: nat)
    requires !threshold.AtMost(At(now)) && forall i :: 0 <= i < |log| ==> !Reaches(log[i], threshold)
    ensures RowsBefore(log, threshold, now) == Rows(log)
  {
    if log != [] {
      AllRowsBefore(log[1..], threshold, if log[0].AdvanceTime? then log[0].time else now);
    }
  }

  /** Nothing lies below the threshold exactly when the leading rows do not and no mark introduces a row that does. */
  lemma {:induction false} NoRowsBeforeIff(log: seq<LogEvent>, threshold: TotalFrontier, now: nat)
    ensures RowsBefore(log, threshold, now) == [] <==>
            (log != [] && log[0].Row? ==> threshold.AtMost(At(now))) && !LowRowsFrom(log, threshold, 0)
  {
    if log != [] {
      var rest := log[1..];
      NoRowsBeforeIff(rest, threshold, if log[0].AdvanceTime? then log[0].time else now);
      LowRowsTail(log, threshold, 0);
      if LowRowsFrom(log, threshold, 1) {
        var i: nat :| 1 <= i && LowRowAt(log, threshold, i);
        assert LowRowAt(rest, threshold, i - 1);
      }
      if LowRowsFrom(rest, threshold, 0) {
        var i: nat :| LowRowAt(rest, threshold, i);
        assert LowRowAt(log, threshold, i + 1);
      }
    }
  }

  lemma LowRowsTail(log: seq<LogEvent>, threshold: TotalFrontier, c: nat)
    ensures LowRowsFrom(log, threshold, c) <==> LowRowAt(log, threshold, c) || LowRowsFrom(log, threshold, c + 1)
  {
    if i: nat :| c <= i && LowRowAt(log, threshold, i) {
      assert i == c || c + 1 <= i;
    }
  }

  lemma LowRowsShifted(log: seq<LogEvent>, threshold: TotalFrontier, c: nat)
    requires c <= |log|
    ensures LowRowsFrom(log[c..], threshold, 0) <==> LowRowsFrom(log, threshold, c)
  {
    if i: nat :| LowRowAt(log[c..], threshold, i) {
      assert LowRowAt(log, threshold, c + i);
    }
    if i: nat :| c <= i && LowRowAt(log, threshold, i) {
      assert LowRowAt(log[c..], threshold, i - c);
    }
  }

  /**
   The cut is exact if and only if no mark behind it that is below the threshold has a row right behind it. This
   holds of every log that starts with a mark, whatever its stamps.
   */
  lemma ExactCutIff(log: seq<LogEvent>, threshold: TotalFrontier)
    requires log != [] && log[0].AdvanceTime?
    ensures var c := CutIndex(log, threshold);
            Rows(Replayed(log, threshold)) == RowsBefore(log, threshold, log[0].time) <==>
            (c < |log| ==> !LowRowsFrom(log, threshold, c))
  {
    var c := CutIndex(log, threshold);
    var now := log[0].time;
    if c == |log| {
      AllRowsBefore(log, threshold, now);
      assert log[..c] == log;
    } else {
      var behind := RowsBefore(log[c + 1..], threshold, log[c].time);
      assert RowsBefore(log, threshold, now) == Rows(log[..c]) + behind by {
        if c == 0 {
          assert log[..0] == [] && Rows([]) == [];
        } else {
          RowsBeforePrefix(log, threshold, now, c);
        }
      }
      assert Rows(log[..c]) == Rows(log[..c]) + behind <==> behind == [] by {
        assert |Rows(log[..c]) + behind| == |Rows(log[..c])| + |behind|;
      }
      NoRowsBeforeIff(log[c + 1..], threshold, log[c].time);
      LowRowsShifted(log, threshold, c + 1);
      LowRowsTail(log, threshold, c);
    }
  }

  /**
   From a log that starts with a mark and whose stamps never decrease, a replay returns exactly the rows with a
   logical time below the threshold, and restores the frontier of the cutting mark.
   */
  lemma ExactCut(log: seq<LogEvent>, threshold: TotalFrontier)
    requires log != [] && log[0].AdvanceTime? && NonDecreasingStamps(log)
    requires exists m :: 0 <= m < |log| && Reaches(log[m], threshold)
    ensures Rows(Replayed(log, threshold)) == RowsBefore(log, threshold, log[0].time)
    ensures var c := CutIndex(log, threshold); c < |log| && RestoredFrontier(log, threshold) == log[c].frontier
  {
    var c := CutIndex(log, threshold);
    forall i: nat | c <= i ensures !LowRowAt(log, threshold, i) {
      assert c < i < |log| && log[i].AdvanceTime? ==> log[c].time <= log[i].time;
    }
    ExactCutIff(log, threshold);
  }
}
