/**
 Forgetting by time parity: input arrives at even times, and what an operator forgets it retracts at the odd time
 right after. Dropping all odd times at the end hides the retractions, so every result stays as it was when its
 query came.
 */
module Forgetting {
  import opened Values
  import opened Collections
  import opened Offsets
  import opened SnapshotLog
  import opened Connector

  datatype Diff<T> = Diff(data: T, time: nat, change: int)

  type Stream<T> = seq<Diff<T>>

  /** The diffs at one time. */
  function At<T>(s: Stream<T>, t: nat): Coll<T> {
    if s == [] then [] else (if s[0].time == t then [(s[0].data, s[0].change)] else []) + At(s[1..], t)
  }

  /** The collection accumulated up to a time. */
  function Upto<T>(s: Stream<T>, t: nat): Coll<T> {
    if s == [] then [] else (if s[0].time <= t then [(s[0].data, s[0].change)] else []) + Upto(s[1..], t)
  }

  function Retractions<T>(s: Stream<T>): Stream<T> {
    if s == [] then [] else [Diff(s[0].data, s[0].time + 1, -s[0].change)] + Retractions(s[1..])
  }

  predicate AllEven<T>(s: Stream<T>) {
    forall i :: 0 <= i < |s| ==> s[i].time % 2 == 0
  }

  /** `forget_immediately`; `None` stands for the failed assertion on the input times. */
  function ForgetImmediately<T>(s: Stream<T>): Option<Stream<T>> {
    if AllEven(s) then Some(s + Retractions(s)) else None
  }

  /** `filter_out_results_of_forgetting`. */
  function EvenOnly<T>(s: Stream<T>): Stream<T> {
    if s == [] then [] else (if s[0].time % 2 == 0 then [s[0]] else []) + EvenOnly(s[1..])
  }

  // ---------------------------------------------------------------- accumulation

  function Here<T(==)>(d: Diff<T>, counts: bool, x: T): int {
    if counts && d.data == x then d.change else 0
  }

  lemma CountFirstUpto<T>(s: Stream<T>, t: nat, x: T)
    requires s != []
    ensures Count(Upto(s, t), x) == Here(s[0], s[0].time <= t, x) + Count(Upto(s[1..], t), x)
  {
    CountConcat(if s[0].time <= t then [(s[0].data, s[0].change)] else [], Upto(s[1..], t), x);
  }

  lemma CountFirstAt<T>(s: Stream<T>, t: nat, x: T)
    requires s != []
    ensures Count(At(s, t), x) == Here(s[0], s[0].time == t, x) + Count(At(s[1..], t), x)
  {
    CountConcat(if s[0].time == t then [(s[0].data, s[0].change)] else [], At(s[1..], t), x);
  }

  /** The multiplicity just before a time. */
  function Before<T(==)>(s: Stream<T>, t: nat, x: T): int {
    if t == 0 then 0 else Count(Upto(s, t - 1), x)
  }

  lemma BeforeFirst<T>(s: Stream<T>, t: nat, x: T)
    requires s != []
    ensures Before(s, t, x) == Here(s[0], s[0].time < t, x) + Before(s[1..], t, x)
  {
    if t > 0 {
      CountFirstUpto(s, t - 1, x);
    }
  }

  lemma {:induction false} CountUptoConcat<T>(a: Stream<T>, b: Stream<T>, t: nat, x: T)
    ensures Count(Upto(a + b, t), x) == Count(Upto(a, t), x) + Count(Upto(b, t), x)
  {
    if a == [] {
      assert a + b == b;
    } else {
      CountUptoConcat(a[1..], b, t, x);
      assert (a + b)[1..] == a[1..] + b;
      CountFirstUpto(a, t, x);
      CountFirstUpto(a + b, t, x);
    }
  }

  /** What is accumulated up to a time is what was accumulated before it and the changes at it. */
  lemma {:induction false} CountUptoStep<T>(s: Stream<T>, t: nat, x: T)
    ensures Count(Upto(s, t), x) == Before(s, t, x) + Count(At(s, t), x)
  {
    if s != [] {
      CountUptoStep(s[1..], t, x);
      CountFirstUpto(s, t, x);
      CountFirstAt(s, t, x);
      BeforeFirst(s, t, x);
    }
  }

  lemma {:induction false} CountUptoRetractions<T>(s: Stream<T>, t: nat, x: T)
    ensures Count(Upto(Retractions(s), t), x) == -Before(s, t, x)
  {
    if s != [] {
      CountUptoRetractions(s[1..], t, x);
      assert Retractions(s)[1..] == Retractions(s[1..]);
      CountFirstUpto(Retractions(s), t, x);
      BeforeFirst(s, t, x);
    }
  }

  lemma {:induction false} NothingAtOddTimes<T>(s: Stream<T>, t: nat)
    requires AllEven(s) && t % 2 == 1
    ensures At(s, t) == []
  {
    if s != [] {
      NothingAtOddTimes(s[1..], t);
    }
  }

  /** A forgetting stream accumulates to just the changes of an even time, and to nothing at an odd one. */
  lemma ForgettingAccumulates<T>(s: Stream<T>, t: nat, x: T)
    requires AllEven(s)
    ensures Count(Upto(s + Retractions(s), t), x) == if t % 2 == 0 then Count(At(s, t), x) else 0
  {
    CountUptoConcat(s, Retractions(s), t, x);
    CountUptoRetractions(s, t, x);
    CountUptoStep(s, t, x);
    if t % 2 == 1 {
      NothingAtOddTimes(s, t);
    }
  }

  // ---------------------------------------------------------------- filtering

  lemma {:induction false} EvenOnlyConcat<T>(a: Stream<T>, b: Stream<T>)
    ensures EvenOnly(a + b) == EvenOnly(a) + EvenOnly(b)
  {
    if a == [] {
      assert a + b == b;
    } else {
      EvenOnlyConcat(a[1..], b);
      assert (a + b)[0] == a[0] && (a + b)[1..] == a[1..] + b;
      var first := if a[0].time % 2 == 0 then [a[0]] else [];
      assert EvenOnly(a + b) == first + (EvenOnly(a[1..]) + EvenOnly(b));
      assert first + (EvenOnly(a[1..]) + EvenOnly(b)) == first + EvenOnly(a[1..]) + EvenOnly(b);
    }
  }

  lemma {:induction false} EvenOnlyEven<T>(s: Stream<T>)
    requires AllEven(s)
    ensures EvenOnly(s) == s
  {
    if s != [] {
      EvenOnlyEven(s[1..]);
      assert EvenOnly(s) == [s[0]] + s[1..];
    }
  }

  lemma {:induction false} EvenOnlyRetractions<T>(s: Stream<T>)
    requires AllEven(s)
    ensures EvenOnly(Retractions(s)) == []
  {
    if s != [] {
      var first := Diff(s[0].data, s[0].time + 1, -s[0].change);
      var rest := Retractions(s[1..]);
      EvenOnlyRetractions(s[1..]);
      assert Retractions(s) == [first] + rest && ([first] + rest)[1..] == rest;
    }
  }

  /** Filtering undoes forgetting. */
  lemma FilteringGivesBack<T>(s: Stream<T>)
    ensures ForgetImmediately(s).None? || EvenOnly(ForgetImmediately(s).value) == s
  {
    if AllEven(s) {
      EvenOnlyConcat(s, Retractions(s));
      EvenOnlyEven(s);
      EvenOnlyRetractions(s);
    }
  }

  lemma {:induction false} AtEvenOnly<T>(s: Stream<T>, t: nat)
    ensures At(EvenOnly(s), t) == if t % 2 == 0 then At(s, t) else []
  {
    if s != [] {
      AtEvenOnly(s[1..], t);
      var rest := EvenOnly(s[1..]);
      if s[0].time % 2 == 0 {
        assert EvenOnly(s) == [s[0]] + rest && ([s[0]] + rest)[1..] == rest;
      } else {
        assert EvenOnly(s) == rest;
      }
    }
  }

  // ---------------------------------------------------------------- inputs

  /** Every diff has the time of some operation of the session: the input table itself, or rows computed from it. */
  ghost predicate Derived<T>(s: Stream<T>, session: Session) {
    forall i :: 0 <= i < |s| ==> exists j :: 0 <= j < |session.ops| && s[i].time == session.ops[j].0
  }

  /** In no run of a connector does its input trip the assertion of `forget_immediately`. */
  lemma InputsCanBeForgotten<T>(numColumns: nat, writer: Option<seq<LogEvent>>, rewind: seq<Step>, restored: Frontier,
                                clock: nat, live: seq<Step>, s: Stream<T>)
    requires forall i :: 0 <= i < |rewind| ==> RewindStep(rewind[i])
    requires forall i :: 0 <= i < |live| ==> LiveStep(live[i])
    requires Derived(s, Run(Initial(numColumns, writer), rewind + [Receive(RewindFinishSentinel(restored), clock)] + live).session)
    ensures ForgetImmediately(s).Some?
  {
    TimeParity(numColumns, writer, rewind, restored, clock, live);
  }

  // ---------------------------------------------------------------- operators between the two

  /** The stream `out` is the result of an operator with two inputs: at every time it accumulates to the operator's value. */
  ghost predicate Lifts<A(!new), B(!new), C(!new)>(op: (Coll<A>, Coll<B>) -> Coll<C>, a: Stream<A>, b: Stream<B>,
                                                   out: Stream<C>) {
    forall t: nat, y: C :: Count(Upto(out, t), y) == Count(op(Upto(a, t), Upto(b, t)), y)
  }

  /**
   As of now: an operator that gives nothing for nothing, put between forgetting and filtering, produces at each even
   time its value on the queries of that time and the other side as it then stood, and never anything later.
   */
  lemma AsOfNow<A(!new), B(!new), C(!new)>(op: (Coll<A>, Coll<B>) -> Coll<C>, queries: Stream<A>, b: Stream<B>,
                                           out: Stream<C>,
                                           t: nat, y: C)
    requires AllEven(queries) && Lifts(op, queries + Retractions(queries), b, out)
    requires forall u: nat :: u % 2 == 1 ==> Count(op(Upto(queries + Retractions(queries), u), Upto(b, u)), y) == 0
    ensures Count(At(EvenOnly(out), t), y) ==
            if t % 2 == 0 then Count(op(Upto(queries + Retractions(queries), t), Upto(b, t)), y) else 0
  {
    AtEvenOnly(out, t);
    CountUptoStep(out, t, y);
    var forgetting := queries + Retractions(queries);
    assert Count(Upto(out, t), y) == Count(op(Upto(forgetting, t), Upto(b, t)), y);
    if t % 2 == 0 && t > 0 {
      assert Count(Upto(out, t - 1), y) == Count(op(Upto(forgetting, t - 1), Upto(b, t - 1)), y);
    }
  }

  lemma ForgettingCounts<T(!new)>(s: Stream<T>, t: nat)
    requires AllEven(s)
    ensures t % 2 == 0 ==> forall x :: Count(Upto(s + Retractions(s), t), x) == Count(At(s, t), x)
    ensures t % 2 == 1 ==> forall x :: Count(Upto(s + Retractions(s), t), x) == 0
  {
    forall x ensures Count(Upto(s + Retractions(s), t), x) == if t % 2 == 0 then Count(At(s, t), x) else 0 {
      ForgettingAccumulates(s, t, x);
    }
  }
}
