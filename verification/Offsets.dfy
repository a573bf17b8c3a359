/** Source offsets, the frontiers made of them, and how two frontiers are merged. */
module Offsets {
  datatype OffsetKey = Kafka(topic: string, partition: int) | EmptyKey

  datatype OffsetValue =
    | KafkaOffset(position: int)
    | FilePosition(totalEntriesRead: nat, filePath: nat, bytesOffset: nat)
    | S3ObjectPosition(totalEntriesRead: nat, objectPath: nat, bytesOffset: nat)
    | PythonEntrySequentialId(id: nat)
    | EmptyOffset

  type Frontier = map<OffsetKey, OffsetValue>

  /** A totally ordered frontier: every `At` lies below `Done`. */
  datatype TotalFrontier = At(time: nat) | Done {

    predicate AtMost(other: TotalFrontier) {
      other.Done? || (At? && time <= other.time)
    }

    predicate IsTimeDone(t: nat) {
      Done? || t < time
    }
  }

  predicate SameKind(a: OffsetValue, b: OffsetValue) {
    || (a.KafkaOffset? && b.KafkaOffset?)
    || (a.FilePosition? && b.FilePosition?)
    || (a.S3ObjectPosition? && b.S3ObjectPosition?)
    || (a.PythonEntrySequentialId? && b.PythonEntrySequentialId?)
    || (a.EmptyOffset? && b.EmptyOffset?)
  }

  /** The number by which two offsets of one kind are compared. */
  function Rank(v: OffsetValue): int {
    match v
    case KafkaOffset(position) => position
    case FilePosition(entries, _, _) => entries
    case S3ObjectPosition(entries, _, _) => entries
    case PythonEntrySequentialId(id) => id
    case EmptyOffset => 0
  }

  /** Whether `other` replaces `current` when a merge meets both under one key. */
  predicate Supersedes(other: OffsetValue, current: OffsetValue) {
    SameKind(current, other) && Rank(other) > Rank(current)
  }

  /** What a merge leaves under one key: `Merged` below is this, key by key. */
  function Later(current: OffsetValue, other: OffsetValue): OffsetValue {
    if Supersedes(other, current) then other else current
  }

  /** The per-key, left-biased maximum of two frontiers. */
  ghost function Merged(lhs: Frontier, rhs: Frontier): (m: Frontier)
    ensures m.Keys == lhs.Keys + rhs.Keys
  {
    map k | k in lhs.Keys + rhs.Keys ::
      if k !in lhs then rhs[k] else if k !in rhs then lhs[k] else Later(lhs[k], rhs[k])
  }

  /** `Reader::merge_two_frontiers`: one pass over `rhs`, overwriting entries of a copy of `lhs`. */
  method MergeTwoFrontiers(lhs: Frontier, rhs: Frontier) returns (result: Frontier)
    ensures result == Merged(lhs, rhs)
  {
    result := lhs;
    var todo := rhs.Keys;
    while todo != {}
      invariant todo <= rhs.Keys
      invariant forall k :: k in result <==> k in lhs || (k in rhs && k !in todo)
      invariant forall k :: k in result ==> result[k] == if k in rhs && k !in todo then Merged(lhs, rhs)[k] else lhs[k]
      decreases todo
    {
      var offsetKey :| offsetKey in todo;
      var otherValue := rhs[offsetKey];
      if offsetKey in result {
        match (result[offsetKey], otherValue) {
          case (KafkaOffset(position), KafkaOffset(otherPosition)) =>
            if otherPosition > position {
              result := result[offsetKey := otherValue];
            }
          case (PythonEntrySequentialId(id), PythonEntrySequentialId(otherId)) =>
            if otherId > id {
              result := result[offsetKey := otherValue];
            }
          case (FilePosition(lineIdx, _, _), FilePosition(otherLineIdx, _, _)) =>
            if otherLineIdx > lineIdx {
              result := result[offsetKey := otherValue];
            }
          case (S3ObjectPosition(lineIdx, _, _), S3ObjectPosition(otherLineIdx, _, _)) =>
            if otherLineIdx > lineIdx {
              result := result[offsetKey := otherValue];
            }
          case _ => // incomparable offsets: an error is logged and the left one stays
        }
      } else {
        result := result[offsetKey := otherValue];
      }
      todo := todo - {offsetKey};
    }
  }

  /** Two frontiers whose shared keys hold offsets of one kind. */
  ghost predicate Aligned(a: Frontier, b: Frontier) {
    forall k :: k in a && k in b ==> SameKind(a[k], b[k])
  }

  /** Every key of `a` is in `b`, at an offset at least as far. */
  ghost predicate Below(a: Frontier, b: Frontier) {
    forall k :: k in a ==> k in b && SameKind(a[k], b[k]) && Rank(a[k]) <= Rank(b[k])
  }

  /** Merging aligned frontiers gives the least upper bound of both. */
  lemma MergedIsLeastUpperBound(a: Frontier, b: Frontier, c: Frontier)
    requires Aligned(a, b)
    ensures Below(a, Merged(a, b)) && Below(b, Merged(a, b))
    ensures Below(a, c) && Below(b, c) ==> Below(Merged(a, b), c)
    ensures Merged(a, a) == a && Merged(a, map[]) == a && Merged(map[], a) == a
  {
    var m := Merged(a, b);
    forall k | k in a ensures SameKind(a[k], m[k]) && Rank(a[k]) <= Rank(m[k]) {}
    forall k | k in b ensures SameKind(b[k], m[k]) && Rank(b[k]) <= Rank(m[k]) {}
    assert Merged(a, a) == a;
    assert Merged(a, map[]) == a;
    assert Merged(map[], a) == a;
  }

  /** The middle frontier holds an offset of another kind between two that the outer merge would have compared. */
  ghost predicate Interposed(a: Frontier, b: Frontier, c: Frontier, k: OffsetKey) {
    && k in a && k in b && k in c
    && SameKind(a[k], c[k]) && !SameKind(a[k], b[k]) && Rank(a[k]) < Rank(c[k])
  }

  /** Merging three frontiers associates exactly when no offset of another kind stands between two comparable ones. */
  lemma MergedAssociatesIff(a: Frontier, b: Frontier, c: Frontier)
    ensures Merged(Merged(a, b), c) == Merged(a, Merged(b, c)) <==> !exists k :: Interposed(a, b, c, k)
  {
    var l, r := Merged(Merged(a, b), c), Merged(a, Merged(b, c));
    forall k | k in l ensures l[k] == r[k] <==> !Interposed(a, b, c, k) {
      LaterAssociates(a, b, c, k);
    }
    if k :| Interposed(a, b, c, k) {
      assert k in l && l[k] != r[k];
    } else {
      assert l.Keys == r.Keys;
    }
  }

  lemma LaterAssociates(a: Frontier, b: Frontier, c: Frontier, k: OffsetKey)
    requires k in a || k in b || k in c
    ensures Merged(Merged(a, b), c)[k] == Merged(a, Merged(b, c))[k] <==> !Interposed(a, b, c, k)
  {}

  lemma MergedAssociative(a: Frontier, b: Frontier, c: Frontier)
    requires Aligned(a, b) && Aligned(b, c) && Aligned(a, c)
    ensures Merged(Merged(a, b), c) == Merged(a, Merged(b, c))
  {
    MergedAssociatesIff(a, b, c);
  }

  /** Such an offset makes the order of the readers decide: this frontier loses four Kafka messages or keeps them. */
  lemma MixedKindsBreakAssociativity(k: OffsetKey)
    ensures var a := map[k := KafkaOffset(1)];
            var b := map[k := EmptyOffset];
            var c := map[k := KafkaOffset(5)];
            Interposed(a, b, c, k) && Merged(Merged(a, b), c) == c && Merged(a, Merged(b, c)) == a
  {
    var a: Frontier := map[k := KafkaOffset(1)];
    var b: Frontier := map[k := EmptyOffset];
    var c: Frontier := map[k := KafkaOffset(5)];
    assert Merged(a, b) == a;
    assert Merged(a, c) == c;
    assert Merged(b, c) == b;
  }

  /** Merging commutes exactly when shared keys of equal rank (or of different kinds) hold equal offsets. */
  lemma MergedCommutesIff(a: Frontier, b: Frontier)
    ensures Merged(a, b) == Merged(b, a) <==>
            forall k :: k in a && k in b && (!SameKind(a[k], b[k]) || Rank(a[k]) == Rank(b[k])) ==> a[k] == b[k]
  {
    var l, r := Merged(a, b), Merged(b, a);
    if forall k :: k in a && k in b && (!SameKind(a[k], b[k]) || Rank(a[k]) == Rank(b[k])) ==> a[k] == b[k] {
      assert l.Keys == r.Keys;
      forall k | k in l ensures l[k] == r[k] {}
    } else {
      var k :| k in a && k in b && (!SameKind(a[k], b[k]) || Rank(a[k]) == Rank(b[k])) && a[k] != b[k];
      assert l[k] == a[k] && r[k] == b[k];
    }
  }

  /** The frontier rebuilt from several snapshots: a left fold of merges from the empty frontier. */
  ghost function MergedAll(fs: seq<Frontier>): Frontier
    decreases |fs|
  {
    if fs == [] then map[] else Merged(MergedAll(fs[..|fs| - 1]), fs[|fs| - 1])
  }

  ghost predicate AllAligned(fs: seq<Frontier>) {
    forall i, j :: 0 <= i < |fs| && 0 <= j < |fs| ==> Aligned(fs[i], fs[j])
  }

  /** Reader `i` is the first to reach the greatest rank that any reader stored for `k`. */
  ghost predicate Winner(fs: seq<Frontier>, k: OffsetKey, i: nat) {
    && i < |fs| && k in fs[i]
    && (forall j :: 0 <= j < |fs| && k in fs[j] ==> Rank(fs[j][k]) <= Rank(fs[i][k]))
    && (forall j :: 0 <= j < i && k in fs[j] ==> Rank(fs[j][k]) < Rank(fs[i][k]))
  }

  lemma WinnerAfterOneMore(fs: seq<Frontier>, last: Frontier, k: OffsetKey, i: nat)
    requires Winner(fs, k, i)
    ensures k in last && Rank(last[k]) > Rank(fs[i][k]) ==> Winner(fs + [last], k, |fs|)
    ensures !(k in last && Rank(last[k]) > Rank(fs[i][k])) ==> Winner(fs + [last], k, i)
  {
    var all := fs + [last];
    assert all[|fs|] == last;
    assert forall j :: 0 <= j < |fs| ==> all[j] == fs[j];
  }

  /** The fold over all snapshot readers is the per-key maximum; among equals the earliest reader wins. */
  lemma {:induction false} MergedAllIsMaximum(fs: seq<Frontier>, k: OffsetKey)
    requires AllAligned(fs)
    ensures k in MergedAll(fs) <==> exists i :: 0 <= i < |fs| && k in fs[i]
    ensures k in MergedAll(fs) ==> exists i: nat :: Winner(fs, k, i) && MergedAll(fs)[k] == fs[i][k]
    decreases |fs|
  {
    if fs != [] {
      var n := |fs| - 1;
      var init, last := fs[..n], fs[n];
      assert fs == init + [last];
      var m := MergedAll(init);
      assert MergedAll(fs) == Merged(m, last);
      assert AllAligned(init) by {
        forall i, j | 0 <= i < n && 0 <= j < n ensures Aligned(init[i], init[j]) {
          assert Aligned(fs[i], fs[j]);
        }
      }
      MergedAllIsMaximum(init, k);
      if k in m {
        var i: nat :| Winner(init, k, i) && m[k] == init[i][k];
        assert Aligned(fs[i], fs[n]);
        WinnerAfterOneMore(init, last, k, i);
        assert fs[i] == init[i];
      } else if k in last {
        forall j | 0 <= j < n ensures k !in fs[j] {
          assert fs[j] == init[j];
        }
        assert Winner(fs, k, n);
      }
    }
  }
}
