/**
 The Kafka reader's lazy seek: partitions cannot be positioned before they are assigned, so the reader remembers
 the stored positions and repositions the consumer when the first message of a partition turns out to be old.
 */
module KafkaReader {
  import opened Offsets
  import opened LogInvariant

  datatype Decision = Deliver | SeekTo(position: int)

  /** The frontier holds a position of this partition; other topics and other kinds of offset are skipped with a warning. */
  predicate Stored(topic: string, f: Frontier, partition: int) {
    Kafka(topic, partition) in f && f[Kafka(topic, partition)].KafkaOffset?
  }

  /** `after` is `before` with the stored positions of the frontier written over it. */
  ghost predicate Overwritten(topic: string, f: Frontier, before: map<int, int>, after: map<int, int>) {
    forall p ::
      if Stored(topic, f, p) then p in after && after[p] == f[Kafka(topic, p)].position
      else (p in after <==> p in before) && (p in before ==> after[p] == before[p])
  }

  function Decide(positions: map<int, int>, partition: int, offset: int): Decision {
    if partition in positions && positions[partition] >= offset then SeekTo(positions[partition] + 1) else Deliver
  }

  class Reader {
    const topic: string
    var positionsForSeek: map<int, int>

    constructor (topic: string)
      ensures this.topic == topic && positionsForSeek == map[]
    {
      this.topic, positionsForSeek := topic, map[];
    }

    method Seek(frontier: Frontier)
      modifies this
      ensures Overwritten(topic, frontier, old(positionsForSeek), positionsForSeek)
    {
      var todo := frontier.Keys;
      while todo != {}
        invariant todo <= frontier.Keys
        invariant Overwritten(topic, map k | k in frontier && k !in todo :: frontier[k], old(positionsForSeek), positionsForSeek)
        decreases todo
      {
        var offsetKey :| offsetKey in todo;
        var offsetValue := frontier[offsetKey];
        todo := todo - {offsetKey};
        if offsetValue.KafkaOffset? && offsetKey.Kafka? && offsetKey.topic == topic {
          positionsForSeek := positionsForSeek[offsetKey.partition := offsetValue.position];
        }
      }
      assert (map k | k in frontier && k !in todo :: frontier[k]) == frontier;
    }

    /** One turn of the read loop, for a polled message: deliver it, or seek the consumer and poll again. */
    method OnMessage(partition: int, offset: int) returns (decision: Decision)
      modifies this
      ensures decision == Decide(old(positionsForSeek), partition, offset)
      ensures positionsForSeek == if decision.Deliver? then old(positionsForSeek) - {partition} else old(positionsForSeek)
    {
      if partition in positionsForSeek {
        if positionsForSeek[partition] >= offset {
          return SeekTo(positionsForSeek[partition] + 1);
        }
        positionsForSeek := positionsForSeek - {partition};
      }
      return Deliver;
    }
  }

  // ---------------------------------------------------------------- reader and consumer together

  /** The offset of the `n`-th message of a partition. Offsets grow, but need not be consecutive. */
  type MessageOffsets = (int, nat) -> int

  ghost predicate Increasing(offs: MessageOffsets) {
    forall p, n: nat, m: nat :: n < m ==> offs(p, n) < offs(p, m)
  }

  /** The first message whose offset is at least `position`, where a consumer lands after a seek. */
  ghost predicate LandsAt(offs: MessageOffsets, p: int, position: int, n: nat) {
    position <= offs(p, n) && forall m: nat :: m < n ==> offs(p, m) < position
  }

  /** `consumer` gives, per partition, the number of the next message that a poll returns. */
  datatype State = State(consumer: map<int, nat>, positions: map<int, int>, delivered: seq<(int, nat)>)

  function NextMessage(s: State, p: int, start: int -> nat): nat {
    if p in s.consumer then s.consumer[p] else start(p)
  }

  /** A poll that happens to return a message of partition `p`. */
  ghost predicate Polled(offs: MessageOffsets, start: int -> nat, s: State, p: int, t: State) {
    var n := NextMessage(s, p, start);
    match Decide(s.positions, p, offs(p, n))
    case Deliver =>
      t == State(s.consumer[p := n + 1], s.positions - {p}, s.delivered + [(p, n)])
    case SeekTo(position) =>
      exists landing: nat :: LandsAt(offs, p, position, landing) &&
        t == State(s.consumer[p := landing], s.positions, s.delivered)
  }

  ghost predicate Behaviour(offs: MessageOffsets, start: int -> nat, states: seq<State>, polls: seq<int>) {
    && |states| == |polls| + 1
    && forall i :: 0 <= i < |polls| ==> Polled(offs, start, states[i], polls[i], states[i + 1])
  }

  /** The messages delivered from partition `p`, in order. */
  function Of(delivered: seq<(int, nat)>, p: int): seq<nat> {
    if delivered == [] then []
    else Of(delivered[..|delivered| - 1], p) +
         (if delivered[|delivered| - 1].0 == p then [delivered[|delivered| - 1].1] else [])
  }

  /** The position of the first message behind the stored one, or the start of the partition. */
  ghost predicate ResumesAt(offs: MessageOffsets, positions: map<int, int>, p: int, r: nat) {
    if p in positions then r > 0 && offs(p, r - 1) == positions[p] else r == 0
  }

  /** Where delivery of a partition starts: behind the stored position, unless the consumer was already further. */
  function First(start: nat, r: nat): nat {
    if start <= r then r else start
  }

  ghost predicate Tracks(positions: map<int, int>, start: int -> nat, s: State, p: int, r: nat) {
    var got := Of(s.delivered, p);
    && (forall i :: 0 <= i < |got| ==> got[i] == First(start(p), r) + i)
    && (p !in s.positions ==> NextMessage(s, p, start) == First(start(p), r) + |got|)
    && (p in s.positions ==>
          && p in positions && s.positions[p] == positions[p] && got == []
          && (NextMessage(s, p, start) == start(p) || (start(p) < r && NextMessage(s, p, start) == r)))
  }

  lemma OfSnoc(delivered: seq<(int, nat)>, e: (int, nat), p: int)
    ensures Of(delivered + [e], p) == Of(delivered, p) + (if e.0 == p then [e.1] else [])
  {
    assert (delivered + [e])[..|delivered|] == delivered;
  }

  lemma DeliverKeepsTracks(positions: map<int, int>, start: int -> nat, s: State, p: int, t: State, r: nat)
    requires Tracks(positions, start, s, p, r)
    requires t == State(s.consumer[p := NextMessage(s, p, start) + 1], s.positions - {p}, s.delivered + [(p, NextMessage(s, p, start))])
    requires p in s.positions ==> NextMessage(s, p, start) >= r
    ensures Tracks(positions, start, t, p, r)
  {
    var n := NextMessage(s, p, start);
    OfSnoc(s.delivered, (p, n), p);
    assert n == First(start(p), r) + |Of(s.delivered, p)|;
  }

  lemma OtherKeepsTracks(positions: map<int, int>, start: int -> nat, s: State, q: int, t: State, p: int, r: nat, next: nat)
    requires p != q && Tracks(positions, start, s, p, r)
    requires || t == State(s.consumer[q := next], s.positions - {q}, s.delivered + [(q, NextMessage(s, q, start))])
             || t == State(s.consumer[q := next], s.positions, s.delivered)
    ensures Tracks(positions, start, t, p, r)
  {
    OfSnoc(s.delivered, (q, NextMessage(s, q, start)), p);
    assert NextMessage(t, p, start) == NextMessage(s, p, start);
    assert Of(t.delivered, p) == Of(s.delivered, p);
  }

  lemma PollKeepsTracks(offs: MessageOffsets, positions: map<int, int>, start: int -> nat, s: State, q: int,
                        t: State, p: int, r: nat)
    requires Increasing(offs) && ResumesAt(offs, positions, p, r)
    requires Tracks(positions, start, s, p, r) && Polled(offs, start, s, q, t)
    ensures Tracks(positions, start, t, p, r)
  {
    var n := NextMessage(s, q, start);
    if p in s.positions {
      OlderIff(offs, p, r, NextMessage(s, p, start));
    }
    match Decide(s.positions, q, offs(q, n)) {
      case Deliver =>
        if q == p {
          DeliverKeepsTracks(positions, start, s, p, t, r);
        } else {
          OtherKeepsTracks(positions, start, s, q, t, p, r, n + 1);
        }
      case SeekTo(position) =>
        var landing: nat :| LandsAt(offs, q, position, landing) && t == State(s.consumer[q := landing], s.positions, s.delivered);
        if q == p {
          LandingUnique(offs, p, r, landing);
        } else {
          OtherKeepsTracks(positions, start, s, q, t, p, r, landing);
        }
    }
  }

  lemma OlderIff(offs: MessageOffsets, p: int, r: nat, n: nat)
    requires Increasing(offs) && r > 0
    ensures offs(p, r - 1) >= offs(p, n) <==> n < r
  {
    assert n < r - 1 ==> offs(p, n) < offs(p, r - 1);
    assert r - 1 < n ==> offs(p, r - 1) < offs(p, n);
  }

  lemma LandingUnique(offs: MessageOffsets, p: int, r: nat, landing: nat)
    requires Increasing(offs) && r > 0 && LandsAt(offs, p, offs(p, r - 1) + 1, landing)
    ensures landing == r
  {
    OlderIff(offs, p, r, landing);
    assert offs(p, r) > offs(p, r - 1);
  }

  lemma {:induction false} BehaviourTracks(offs: MessageOffsets, positions: map<int, int>, start: int -> nat,
                                           states: seq<State>, polls: seq<int>, p: int, r: nat)
    requires Increasing(offs) && ResumesAt(offs, positions, p, r)
    requires Behaviour(offs, start, states, polls) && states[0] == State(map[], positions, [])
    ensures Tracks(positions, start, states[|polls|], p, r)
    decreases |polls|
  {
    if polls != [] {
      var n := |polls| - 1;
      BehaviourTracks(offs, positions, start, states[..n + 1], polls[..n], p, r);
      assert Polled(offs, start, states[n], polls[n], states[n + 1]);
      PollKeepsTracks(offs, positions, start, states[n], polls[n], states[n + 1], p, r);
    }
  }

  /**
   However the partitions take turns, each partition is delivered without gap or repetition, beginning with the
   message behind the stored position if and only if the consumer did not start beyond it. The position is the
   one at which recovery expects the source to resume.
   */
  lemma LazySeekResumes(src: Source, topic: string, offs: MessageOffsets, f: Frontier, positions: map<int, int>,
                        start: int -> nat, states: seq<State>, polls: seq<int>, p: int)
    requires Increasing(offs) && FrontierOf(src, f)
    requires forall q: int, n: nat :: src.offset(Kafka(topic, q), n) == KafkaOffset(offs(q, n))
    requires Behaviour(offs, start, states, polls) && states[0] == State(map[], positions, [])
    requires Overwritten(topic, f, map[], positions)
    ensures var r := SeekPosition(src, f, Kafka(topic, p));
            var got := Of(states[|polls|].delivered, p);
            && (forall i :: 0 <= i < |got| ==> got[i] == First(start(p), r) + i)
            && (got != [] ==> (got[0] == r <==> start(p) <= r))
  {
    var k := Kafka(topic, p);
    var r := SeekPosition(src, f, k);
    assert ResumesAt(offs, positions, p, r) by {
      if k in f {
        var n: nat :| src.offset(k, n) == f[k];
        assert f[k] == KafkaOffset(offs(p, r - 1));
      }
    }
    BehaviourTracks(offs, positions, start, states, polls, p, r);
  }
}
