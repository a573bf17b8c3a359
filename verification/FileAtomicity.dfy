/**
 The filesystem reader feeding the connector, with commit timers firing at any moment. A modified file is replaced
 as a whole: no commit falls between the first retraction of the old version and the last insertion of the new one.
 */
module FileAtomicity {
  import opened Values
  import opened FileReader
  import opened FileContents
  import O = Offsets
  import C = Connector

  /** A parser as a function of the entry and the metadata of its source. */
  type Parse = (Bytes, Option<Metadata>) -> C.Outcome

  /** The parser meets no commit lines in these files. */
  ghost predicate NoCommitLines(parse: Parse) {
    forall bytes, meta :: parse(bytes, meta).Parsed? ==>
      forall i :: 0 <= i < |parse(bytes, meta).events| ==> !parse(bytes, meta).events[i].CommitTime?
  }

  function Sent(parse: Parse, current: Option<Metadata>, result: ReadResult): C.ReadResult {
    match result
    case NewSource(_) => C.NewSource
    case FinishedSource(allowed) => C.FinishedSource(allowed)
    case Data(_, bytes, path, entries, offset) =>
      C.Data(parse(bytes, current), O.EmptyKey, O.FilePosition(entries, path, offset))
  }

  datatype Duo = Duo(x: System, conn: C.Conn)

  datatype Turn = ReaderTurn(fs: Fs, now: nat, clock: nat) | TimerTurn(clock: nat)

  ghost predicate Turned(parse: Parse, d: Duo, turn: Turn, e: Duo) {
    match turn
    case TimerTurn(clock) => e == Duo(d.x, C.Stepped(d.conn, C.Timer(clock)))
    case ReaderTurn(fs, now, clock) =>
      exists out :: Stepped(d.x, fs, now, e.x, out) &&
        e.conn == if out.Got? then C.Stepped(d.conn, C.Receive(C.Realtime(Sent(parse, d.x.current, out.result)), clock)) else d.conn
  }

  /** No file is open, no source end is pending and no replacement is planned. */
  predicate Whole(s: State) {
    s.reader.None? && s.deferred.None? && s.nextFileForInsertion.None?
  }

  /** Commits are allowed only while the emitted rows are whole versions. */
  ghost predicate Inv(d: Duo) {
    FileContents.Inv(d.x) && (d.conn.status.Running? && d.conn.commitAllowed ==> Whole(d.x.reader))
  }

  lemma PermissionMeansWhole(x: System, fs: Fs, now: nat, y: System, out: Outcome)
    requires FileContents.Inv(x) && Stepped(x, fs, now, y, out) && out == Got(FinishedSource(true))
    ensures Whole(y.reader)
  {}

  lemma OpenMeansBlocked(x: System, fs: Fs, now: nat, y: System, out: Outcome)
    requires FileContents.Inv(x) && Stepped(x, fs, now, y, out) && Whole(x.reader)
    ensures out.Got? ==> out.result.NewSource?
    ensures !out.Got? ==> Whole(y.reader)
  {
    StepKeepsInv(x, fs, now, y, out);
  }

  lemma DataKeepsTime(parse: Parse, c: C.Conn, meta: Option<Metadata>, result: ReadResult, clock: nat)
    requires NoCommitLines(parse) && result.Data?
    ensures var d := C.Stepped(c, C.Receive(C.Realtime(Sent(parse, meta, result)), clock));
            d.session.time == c.session.time && d.commitAllowed == c.commitAllowed
  {
    match parse(result.bytes, meta) {
      case ParseFailed =>
      case Parsed(events) =>
        C.WithoutCommitsQuiet(events);
        C.OnParsedAllOneTime(c, if c.backfilled then events else C.WithoutCommits(events), clock);
    }
  }

  /** The session time moves only in a turn that leaves whole versions behind. */
  lemma TurnKeepsInv(parse: Parse, d: Duo, turn: Turn, e: Duo)
    requires NoCommitLines(parse) && Inv(d) && Turned(parse, d, turn, e)
    ensures Inv(e)
    ensures e.conn.session.time != d.conn.session.time ==> Whole(e.x.reader)
  {
    match turn {
      case TimerTurn(clock) =>
      case ReaderTurn(fs, now, clock) =>
        var out :| Stepped(d.x, fs, now, e.x, out) &&
          e.conn == if out.Got? then C.Stepped(d.conn, C.Receive(C.Realtime(Sent(parse, d.x.current, out.result)), clock)) else d.conn;
        StepKeepsInv(d.x, fs, now, e.x, out);
        if Whole(d.x.reader) {
          OpenMeansBlocked(d.x, fs, now, e.x, out);
        }
        if out.Got? {
          match out.result {
            case NewSource(_) =>
            case FinishedSource(allowed) =>
              if allowed {
                PermissionMeansWhole(d.x, fs, now, e.x, out);
              }
            case Data(_, _, _, _, _) => DataKeepsTime(parse, d.conn, d.x.current, out.result, clock);
          }
        }
    }
  }

  ghost predicate Behaviour(parse: Parse, ds: seq<Duo>, turns: seq<Turn>) {
    |ds| == |turns| + 1 && forall i :: 0 <= i < |turns| ==> Turned(parse, ds[i], turns[i], ds[i + 1])
  }

  lemma {:induction false} BehaviourKeepsInv(parse: Parse, ds: seq<Duo>, turns: seq<Turn>, n: nat)
    requires NoCommitLines(parse) && Behaviour(parse, ds, turns) && Inv(ds[0]) && n <= |turns|
    ensures Inv(ds[n])
    decreases n
  {
    if n > 0 {
      BehaviourKeepsInv(parse, ds, turns, n - 1);
      assert Turned(parse, ds[n - 1], turns[n - 1], ds[n - 1 + 1]);
      TurnKeepsInv(parse, ds[n - 1], turns[n - 1], ds[n]);
    }
  }

  /** While no state between two moments is whole, the session time stands still, whatever timers fire. */
  lemma {:induction false} OneTimeUntilWhole(parse: Parse, ds: seq<Duo>, turns: seq<Turn>, i: nat, j: nat)
    requires NoCommitLines(parse) && Behaviour(parse, ds, turns) && Inv(ds[0])
    requires i <= j <= |turns| && forall k :: i < k <= j ==> !Whole(ds[k].x.reader)
    ensures ds[j].conn.session.time == ds[i].conn.session.time
    decreases j - i
  {
    if i < j {
      OneTimeUntilWhole(parse, ds, turns, i, j - 1);
      StillUnlessWhole(parse, ds, turns, j - 1);
    }
  }

  lemma StillUnlessWhole(parse: Parse, ds: seq<Duo>, turns: seq<Turn>, n: nat)
    requires NoCommitLines(parse) && Behaviour(parse, ds, turns) && Inv(ds[0]) && n < |turns|
    ensures ds[n + 1].conn.session.time == ds[n].conn.session.time || Whole(ds[n + 1].x.reader)
  {
    BehaviourKeepsInv(parse, ds, turns, n);
    assert Turned(parse, ds[n], turns[n], ds[n + 1]);
    TurnKeepsInv(parse, ds[n], turns[n], ds[n + 1]);
  }

  /**
   From the first start on, in every interleaving of reader, timers and directory changes: whenever the session time
   moves, the rows sent so far add up to whole recorded versions, and between such moments it stands still.
   */
  lemma CommitsSeeWholeVersions(parse: Parse, m: ReadMethod, conn: C.Conn, ds: seq<Duo>, turns: seq<Turn>, n: nat)
    requires NoCommitLines(parse) && Behaviour(parse, ds, turns) && ds[0] == Duo(Start(m), conn) && n < |turns|
    requires ds[n + 1].conn.session.time != ds[n].conn.session.time
    ensures Whole(ds[n + 1].x.reader)
    ensures NetIsRecorded(ds[n + 1].x)
  {
    assert forall row :: Count([], row) == 0;
    BehaviourKeepsInv(parse, ds, turns, n);
    assert Turned(parse, ds[n], turns[n], ds[n + 1]);
    TurnKeepsInv(parse, ds[n], turns[n], ds[n + 1]);
    var x := ds[n + 1].x;
    forall row ensures Count(x.changes, row) == if Recorded(x.reader, row) then 1 else 0 {
      assert Present(x, row) == Recorded(x.reader, row);
    }
  }
}
