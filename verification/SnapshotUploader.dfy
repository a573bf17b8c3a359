/**
 The S3 snapshot writer: a foreground that fills chunks and a background uploader that drains a queue of chunks
 and flush requests. The two run concurrently, so every order of their turns is considered.
 */
module SnapshotUploader {
  import opened Values
  import opened SnapshotLog
  import opened SnapshotStores

  datatype Message = Chunk(events: seq<LogEvent>) | Flush(id: nat) | Finish

  /**
   `parts` is the multipart upload in progress and `objects` are the finalised objects in name order. `written`
   and `flushedAt` are history: all events ever written, and how many of them each flush request followed.
   */
  datatype State = State(
    currentChunk: seq<LogEvent>,
    queue: seq<Message>,
    parts: seq<seq<LogEvent>>,
    objects: seq<seq<LogEvent>>,
    resolved: seq<nat>,
    dropped: bool,
    stopped: bool,
    written: seq<LogEvent>,
    flushedAt: seq<nat>)

  datatype Step = Write(event: LogEvent) | RequestFlush | Drop | UploaderTurn

  const INITIAL := State([], [], [], [], [], false, false, [], [])

  predicate Enabled(s: State, step: Step) {
    match step
    case UploaderTurn => !s.stopped && s.queue != []
    case _ => !s.dropped
  }

  function Stepped(s: State, step: Step): State
    requires Enabled(s, step)
  {
    match step
    case Write(event) =>
      var chunk := s.currentChunk + [event];
      var t := s.(written := s.written + [event]);
      if |chunk| == MAX_CHUNK_LEN then t.(currentChunk := [], queue := s.queue + [Chunk(chunk)])
      else t.(currentChunk := chunk)
    case RequestFlush =>
      var queue := if s.currentChunk == [] then s.queue else s.queue + [Chunk(s.currentChunk)];
      s.(currentChunk := [], queue := queue + [Flush(|s.flushedAt|)], flushedAt := s.flushedAt + [|s.written|])
    case Drop => s.(queue := s.queue + [Finish], dropped := true)
    case UploaderTurn =>
      var t := s.(queue := s.queue[1..]);
      match s.queue[0]
      case Chunk(events) => t.(parts := s.parts + [events])
      case Flush(id) => t.(parts := [], objects := s.objects + [Flatten(s.parts)], resolved := s.resolved + [id])
      case Finish => t.(stopped := true)
  }

  class S3SnapshotWriter {
    var currentChunk: seq<LogEvent>
    var channel: seq<Message>
    var uploadParts: seq<seq<LogEvent>>
    var objects: seq<seq<LogEvent>>
    var resolved: seq<nat>
    var dropped: bool
    var stopped: bool
    var flushes: nat
    ghost var written: seq<LogEvent>
    ghost var flushedAt: seq<nat>

    ghost predicate Valid()
      reads this
    {
      flushes == |flushedAt|
    }

    ghost function View(): State
      reads this
    {
      State(currentChunk, channel, uploadParts, objects, resolved, dropped, stopped, written, flushedAt)
    }

    constructor ()
      ensures Valid() && View() == INITIAL
    {
      currentChunk, channel, uploadParts, objects, resolved := [], [], [], [], [];
      dropped, stopped, flushes, written, flushedAt := false, false, 0, [], [];
    }

    method WriteEvent(event: LogEvent)
      requires Valid() && !dropped
      modifies this
      ensures Valid() && View() == Stepped(old(View()), Write(event))
    {
      written := written + [event];
      currentChunk := currentChunk + [event];
      if |currentChunk| == MAX_CHUNK_LEN {
        channel := channel + [Chunk(currentChunk)];
        currentChunk := [];
      }
    }

    method FlushEvents() returns (receipt: nat)
      requires Valid() && !dropped
      modifies this
      ensures Valid() && View() == Stepped(old(View()), RequestFlush) && receipt == |old(flushedAt)|
    {
      if currentChunk != [] {
        channel := channel + [Chunk(currentChunk)];
        currentChunk := [];
      }
      receipt := flushes;
      flushes := flushes + 1;
      flushedAt := flushedAt + [|written|];
      channel := channel + [Flush(receipt)];
    }

    method DropWriter()
      requires Valid() && !dropped
      modifies this
      ensures Valid() && View() == Stepped(old(View()), Drop)
    {
      channel := channel + [Finish];
      dropped := true;
    }

    /** One turn of the uploader thread's loop. */
    method Upload()
      requires Valid() && !stopped && channel != []
      modifies this
      ensures Valid() && View() == Stepped(old(View()), UploaderTurn)
    {
      var event := channel[0];
      channel := channel[1..];
      match event {
        case Chunk(chunk) =>
          uploadParts := uploadParts + [chunk];
        case Flush(id) =>
          objects := objects + [Flatten(uploadParts)];
          uploadParts := [];
          resolved := resolved + [id];
        case Finish =>
          stopped := true;
      }
    }
  }

  // ---------------------------------------------------------------- conservation

  /** The events of the chunks in a queue. */
  function Queued(queue: seq<Message>): seq<LogEvent> {
    if queue == [] then []
    else (if queue[0].Chunk? then queue[0].events else []) + Queued(queue[1..])
  }

  lemma {:induction false} QueuedConcat(a: seq<Message>, b: seq<Message>)
    ensures Queued(a + b) == Queued(a) + Queued(b)
  {
    if a == [] {
      assert a + b == b;
    } else {
      QueuedConcat(a[1..], b);
      assert (a + b)[1..] == a[1..] + b;
    }
  }

  lemma QueuedOne(m: Message)
    ensures Queued([m]) == if m.Chunk? then m.events else []
  {
    assert [m][1..] == [];
  }

  /** What is finalised, being uploaded or queued, with the events in hand last. */
  function InFlight(s: State): seq<LogEvent> {
    Flatten(s.objects) + Flatten(s.parts) + Queued(s.queue) + s.currentChunk
  }

  /** The events that precede position `i` of the queue. */
  function Ahead(s: State, i: nat): seq<LogEvent>
    requires i <= |s.queue|
  {
    Flatten(s.objects) + Flatten(s.parts) + Queued(s.queue[..i])
  }

  /** How many events the last resolved flush covered. */
  function Covered(s: State): nat {
    if s.resolved != [] && s.resolved[|s.resolved| - 1] < |s.flushedAt| then s.flushedAt[s.resolved[|s.resolved| - 1]] else 0
  }

  ghost predicate Inv(s: State) {
    && InFlight(s) == s.written
    && |s.currentChunk| < MAX_CHUNK_LEN
    && (forall i :: 0 <= i < |s.queue| && s.queue[i].Flush? ==> Awaited(s, i))
    && (s.resolved != [] ==> s.resolved[|s.resolved| - 1] < |s.flushedAt|)
    && Covered(s) <= |s.written| && Flatten(s.objects) == s.written[..Covered(s)]
  }

  /** A queued flush request stands behind exactly the events that were written before it. */
  ghost predicate Awaited(s: State, i: nat)
    requires i < |s.queue| && s.queue[i].Flush?
  {
    var id := s.queue[i].id;
    id < |s.flushedAt| && s.flushedAt[id] <= |s.written| && Ahead(s, i) == s.written[..s.flushedAt[id]]
  }

  /** Foreground steps only append: to the queue, to the events written and to the flush requests. */
  ghost predicate Appends(s: State, t: State) {
    && t.objects == s.objects && t.parts == s.parts && t.resolved == s.resolved
    && s.queue <= t.queue && s.written <= t.written && s.flushedAt <= t.flushedAt
  }

  lemma AwaitedKept(s: State, t: State, i: nat)
    requires Appends(s, t) && i < |s.queue| && s.queue[i].Flush? && Awaited(s, i)
    ensures t.queue[i] == s.queue[i] && Awaited(t, i)
  {
    assert t.queue[..i] == s.queue[..i];
    var n := s.flushedAt[s.queue[i].id];
    assert t.written[..n] == s.written[..n];
  }

  lemma CoveredKept(s: State, t: State)
    requires Appends(s, t) && Inv(s)
    ensures t.resolved != [] ==> t.resolved[|t.resolved| - 1] < |t.flushedAt|
    ensures Covered(t) <= |t.written| && Flatten(t.objects) == t.written[..Covered(t)]
  {
    assert Covered(t) == Covered(s);
    assert t.written[..Covered(s)] == s.written[..Covered(s)];
  }

  lemma NoMore(a: seq<LogEvent>)
    ensures a + [] == a
  {}

  lemma QueuedSnoc(queue: seq<Message>, m: Message)
    ensures Queued(queue + [m]) == Queued(queue) + if m.Chunk? then m.events else []
  {
    QueuedConcat(queue, [m]);
    QueuedOne(m);
  }

  lemma WriteConserves(s: State, event: LogEvent)
    requires InFlight(s) == s.written && !s.dropped
    ensures InFlight(Stepped(s, Write(event))) == s.written + [event]
  {
    var chunk := s.currentChunk + [event];
    var front, queued := Flatten(s.objects) + Flatten(s.parts), Queued(s.queue);
    ConcatAssociates(front + queued, s.currentChunk, [event]);
    if |chunk| == MAX_CHUNK_LEN {
      QueuedSnoc(s.queue, Chunk(chunk));
      ConcatAssociates(front, queued, chunk);
      NoMore(front + (queued + chunk));
    }
  }

  lemma WriteKeepsInv(s: State, event: LogEvent)
    requires Inv(s) && !s.dropped
    ensures Inv(Stepped(s, Write(event)))
  {
    var t := Stepped(s, Write(event));
    WriteConserves(s, event);
    CoveredKept(s, t);
    forall i | 0 <= i < |t.queue| && t.queue[i].Flush? ensures Awaited(t, i) {
      AwaitedKept(s, t, i);
    }
  }

  /** The queue once the events in hand are on it. */
  lemma ChunkQueued(s: State, queue: seq<Message>)
    requires queue == if s.currentChunk == [] then s.queue else s.queue + [Chunk(s.currentChunk)]
    ensures Flatten(s.objects) + Flatten(s.parts) + Queued(queue) == InFlight(s)
  {
    var front, queued := Flatten(s.objects) + Flatten(s.parts), Queued(s.queue);
    if s.currentChunk == [] {
      NoMore(front + queued);
    } else {
      QueuedSnoc(s.queue, Chunk(s.currentChunk));
      ConcatAssociates(front, queued, s.currentChunk);
    }
  }

  lemma FlushConserves(s: State)
    requires InFlight(s) == s.written && !s.dropped
    ensures var t := Stepped(s, RequestFlush);
            InFlight(t) == t.written && Ahead(t, |t.queue| - 1) == t.written
  {
    var t := Stepped(s, RequestFlush);
    var queue := if s.currentChunk == [] then s.queue else s.queue + [Chunk(s.currentChunk)];
    ChunkQueued(s, queue);
    QueuedSnoc(queue, Flush(|s.flushedAt|));
    NoMore(Queued(queue));
    NoMore(Flatten(s.objects) + Flatten(s.parts) + Queued(queue));
    assert t.queue[..|t.queue| - 1] == queue;
  }

  lemma RequestFlushKeepsInv(s: State)
    requires Inv(s) && !s.dropped
    ensures Inv(Stepped(s, RequestFlush))
  {
    var t := Stepped(s, RequestFlush);
    FlushConserves(s);
    CoveredKept(s, t);
    forall i | 0 <= i < |t.queue| && t.queue[i].Flush? ensures Awaited(t, i) {
      if i < |s.queue| {
        AwaitedKept(s, t, i);
      } else {
        assert i == |t.queue| - 1 && s.written[..|s.written|] == s.written;
      }
    }
  }

  lemma DropKeepsInv(s: State)
    requires Inv(s) && !s.dropped
    ensures Inv(Stepped(s, Drop))
  {
    var t := Stepped(s, Drop);
    QueuedConcat(s.queue, [Finish]);
    QueuedOne(Finish);
    assert Queued(s.queue) + [] == Queued(s.queue);
    CoveredKept(s, t);
    forall i | 0 <= i < |t.queue| && t.queue[i].Flush? ensures Awaited(t, i) {
      AwaitedKept(s, t, i);
    }
  }

  /** Flush requests move up by one place and still stand behind the same events. */
  lemma AwaitedMovesUp(s: State, i: nat)
    requires Enabled(s, UploaderTurn) && i + 1 < |s.queue| && s.queue[i + 1].Flush? && Awaited(s, i + 1)
    ensures var t := Stepped(s, UploaderTurn); t.queue[i] == s.queue[i + 1] && Awaited(t, i)
  {
    var t := Stepped(s, UploaderTurn);
    UploadGains(s);
    AheadMovesUp(s, t, i);
  }

  lemma AheadMovesUp(s: State, t: State, i: nat)
    requires i + 1 <= |s.queue| && t.queue == s.queue[1..]
    requires Flatten(t.objects) + Flatten(t.parts) == Flatten(s.objects) + Flatten(s.parts) + Gained(s.queue[0])
    ensures Ahead(t, i) == Ahead(s, i + 1)
  {
    var head := s.queue[0];
    assert s.queue[..i + 1] == [head] + t.queue[..i];
    QueuedConcat([head], t.queue[..i]);
    QueuedOne(head);
    ConcatAssociates(Flatten(s.objects) + Flatten(s.parts), Gained(head), Queued(t.queue[..i]));
  }

  lemma UploaderKeepsInv(s: State)
    requires Inv(s) && Enabled(s, UploaderTurn)
    ensures Inv(Stepped(s, UploaderTurn))
  {
    var t := Stepped(s, UploaderTurn);
    MovedOn(s);
    forall i | 0 <= i < |t.queue| && t.queue[i].Flush? ensures Awaited(t, i) {
      AwaitedMovesUp(s, i);
    }
    if s.queue[0].Flush? {
      FlushCovers(s);
    }
  }

  /** The flush at the head of the queue covers what its upload finalises. */
  lemma FlushCovers(s: State)
    requires Enabled(s, UploaderTurn) && s.queue[0].Flush? && Awaited(s, 0)
    ensures var t := Stepped(s, UploaderTurn);
            && t.resolved[|t.resolved| - 1] < |t.flushedAt|
            && Covered(t) <= |t.written| && Flatten(t.objects) == t.written[..Covered(t)]
  {
    assert s.queue[..0] == [];
    NoMore(Flatten(s.objects) + Flatten(s.parts));
    FlattenSnoc(s.objects, Flatten(s.parts));
  }

  function Gained(m: Message): seq<LogEvent> {
    if m.Chunk? then m.events else []
  }

  /** What the uploader holds grows by the events of the message it takes. */
  lemma UploadGains(s: State)
    requires Enabled(s, UploaderTurn)
    ensures var t := Stepped(s, UploaderTurn);
            Flatten(t.objects) + Flatten(t.parts) == Flatten(s.objects) + Flatten(s.parts) + Gained(s.queue[0])
  {
    match s.queue[0] {
      case Chunk(events) =>
        FlattenSnoc(s.parts, events);
        ConcatAssociates(Flatten(s.objects), Flatten(s.parts), events);
      case Flush(id) =>
        FlattenSnoc(s.objects, Flatten(s.parts));
        NoMore(Flatten(s.objects) + Flatten(s.parts));
      case Finish =>
        NoMore(Flatten(s.objects) + Flatten(s.parts));
    }
  }

  /** Taking a message off the queue moves its events from the queue to the upload, and a flush moves the upload to the store. */
  lemma MovedOn(s: State)
    requires Enabled(s, UploaderTurn)
    ensures var t := Stepped(s, UploaderTurn);
            && Flatten(t.objects) + Flatten(t.parts) == Flatten(s.objects) + Flatten(s.parts) + Gained(s.queue[0])
            && InFlight(t) == InFlight(s)
  {
    var t := Stepped(s, UploaderTurn);
    UploadGains(s);
    TakenUp(s, t);
  }

  lemma TakenUp(s: State, t: State)
    requires s.queue != [] && t.queue == s.queue[1..] && t.currentChunk == s.currentChunk
    requires Flatten(t.objects) + Flatten(t.parts) == Flatten(s.objects) + Flatten(s.parts) + Gained(s.queue[0])
    ensures InFlight(t) == InFlight(s)
  {
    assert Queued(s.queue) == Gained(s.queue[0]) + Queued(t.queue);
    ConcatAssociates(Flatten(s.objects) + Flatten(s.parts), Gained(s.queue[0]), Queued(t.queue));
  }

  predicate EnabledRun(s: State, steps: seq<Step>)
    decreases |steps|
  {
    steps == [] || (Enabled(s, steps[0]) && EnabledRun(Stepped(s, steps[0]), steps[1..]))
  }

  function Run(s: State, steps: seq<Step>): State
    requires EnabledRun(s, steps)
    decreases |steps|
  {
    if steps == [] then s else Run(Stepped(s, steps[0]), steps[1..])
  }

  lemma {:induction false} RunKeepsInv(s: State, steps: seq<Step>)
    requires Inv(s) && EnabledRun(s, steps)
    ensures Inv(Run(s, steps))
    decreases |steps|
  {
    if steps != [] {
      match steps[0] {
        case Write(event) => WriteKeepsInv(s, event);
        case RequestFlush => RequestFlushKeepsInv(s);
        case Drop => DropKeepsInv(s);
        case UploaderTurn => UploaderKeepsInv(s);
      }
      RunKeepsInv(Stepped(s, steps[0]), steps[1..]);
    }
  }

  /**
   In every interleaving of writer and uploader nothing is lost or reordered: the finalised objects, the upload,
   the queue and the current chunk together are all events written, and the finalised objects alone are exactly
   the events covered by the last resolved flush, so this is what a crash or a drop leaves behind.
   */
  lemma NothingLost(steps: seq<Step>)
    requires EnabledRun(INITIAL, steps)
    ensures var s := Run(INITIAL, steps);
            && InFlight(s) == s.written
            && Covered(s) <= |s.written| && Flatten(s.objects) == s.written[..Covered(s)]
  {
    RunKeepsInv(INITIAL, steps);
  }

  /** When the uploader resolves a flush, the finalised objects hold exactly the events written before that request. */
  lemma ResolvedFlushIsDurable(steps: seq<Step>, id: nat)
    requires EnabledRun(INITIAL, steps)
    requires var s := Run(INITIAL, steps); !s.stopped && s.queue != [] && s.queue[0] == Flush(id)
    ensures var s := Run(INITIAL, steps);
            var t := Stepped(s, UploaderTurn);
            && id < |t.flushedAt| && t.flushedAt[id] <= |t.written|
            && t.resolved == s.resolved + [id]
            && Flatten(t.objects) == t.written[..t.flushedAt[id]]
  {
    RunKeepsInv(INITIAL, steps);
    UploaderKeepsInv(Run(INITIAL, steps));
    assert Awaited(Run(INITIAL, steps), 0);
  }
}
