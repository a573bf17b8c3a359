/**
 As-of-now joins: queries are forgotten at once, joined, and the results of forgetting dropped. They may be inner or left
 joins, with new ids or the ids of the queries. Nothing keeps a stream of queries from taking queries back.
 */
module AsOfNowJoins {
  import opened Values
  import opened Collections
  import opened Sorting
  import opened Forgetting
  import opened Join

  /** The join types that an as-of-now join can have. */
  predicate LeftDriven(jt: JoinType) {
    !KeepsUnmatchedRight(jt)
  }

  /** What such a join makes of queries with any multiplicities. */
  ghost function Answer(le: ValueOrder, jt: JoinType, queries: Coll<Record>, table: Coll<Record>, lc: Condition,
                        rc: Condition, y: OutRecord): int {
    if KeepsLeftIds(jt) then (if IsIdRow(le, jt, queries, table, lc, rc, y) then 1 else 0)
    else RawCount(jt, queries, table, lc, rc, y)
  }

  lemma AnswerIsJoined(le: ValueOrder, jt: JoinType, queries: Coll<Record>, table: Coll<Record>, lc: Condition,
                       rc: Condition, y: OutRecord)
    requires TotalOrder(le) && LeftDriven(jt) && IsTable(table)
    ensures Count(JoinTables(le, jt, queries, table, lc, rc), y) == Answer(le, jt, queries, table, lc, rc, y)
  {
    if KeepsLeftIds(jt) {
      SignedIdRows(le, jt, queries, table, lc, rc, y);
    } else {
      SignedJoinRows(jt, queries, table, lc, rc, y);
    }
  }

  lemma SameRawCount(jt: JoinType, a: Coll<Record>, b: Coll<Record>, table: Coll<Record>, lc: Condition, rc: Condition,
                     y: OutRecord)
    requires forall x :: Count(a, x) == Count(b, x)
    ensures RawCount(jt, a, table, lc, rc, y) == RawCount(jt, b, table, lc, rc, y)
  {}

  /** Only the multiplicities of the queries matter. */
  lemma SameAnswer(le: ValueOrder, jt: JoinType, a: Coll<Record>, b: Coll<Record>, table: Coll<Record>, lc: Condition,
                   rc: Condition, y: OutRecord)
    requires LeftDriven(jt) && IsTable(table) && forall x :: Count(a, x) == Count(b, x)
    ensures Answer(le, jt, a, table, lc, rc, y) == Answer(le, jt, b, table, lc, rc, y)
  {
    SameRawCount(jt, a, b, table, lc, rc, y);
    var under := Under(RawJoin(jt, a, table, lc, rc), y.0);
    RawUnder(jt, a, table, lc, rc, y.0);
    forall w ensures Count(under, w) == RawCount(jt, b, table, lc, rc, (y.0, w)) {
      SameRawCount(jt, a, b, table, lc, rc, (y.0, w));
    }
    RawResolvesTo(le, jt, a, table, lc, rc, y, under);
    RawResolvesTo(le, jt, b, table, lc, rc, y, under);
  }

  lemma NothingAnswered(le: ValueOrder, jt: JoinType, table: Coll<Record>, lc: Condition, rc: Condition, y: OutRecord)
    ensures Answer(le, jt, [], table, lc, rc, y) == 0
  {}

  /** The join at one time, on the accumulated forgetting stream. */
  lemma ForgettingJoin(le: ValueOrder, jt: JoinType, lc: Condition, rc: Condition, queries: Stream<Record>,
                       table: Coll<Record>, t: nat, y: OutRecord)
    requires TotalOrder(le) && LeftDriven(jt) && AllEven(queries) && IsTable(table)
    ensures Count(JoinTables(le, jt, Upto(queries + Retractions(queries), t), table, lc, rc), y) ==
            if t % 2 == 0 then Answer(le, jt, At(queries, t), table, lc, rc, y) else 0
  {
    var now := Upto(queries + Retractions(queries), t);
    AnswerIsJoined(le, jt, now, table, lc, rc, y);
    ForgettingCounts(queries, t);
    if t % 2 == 0 {
      SameAnswer(le, jt, now, At(queries, t), table, lc, rc, y);
    } else {
      SameAnswer(le, jt, now, [], table, lc, rc, y);
      NothingAnswered(le, jt, table, lc, rc, y);
    }
  }

  /** The stream `out` is the join between forgetting and filtering. */
  ghost predicate Joining(le: ValueOrder, jt: JoinType, lc: Condition, rc: Condition, queries: Stream<Record>,
                          table: Stream<Record>, out: Stream<OutRecord>) {
    Lifts((l, r) => JoinTables(le, jt, l, r, lc, rc), queries + Retractions(queries), table, out)
  }

  /**
   The as-of-now join, for any stream of queries: the changes of a time are joined with the other table as it stands at
   that time, and the answers are never revised, however either table changes later.
   */
  lemma AsOfNowJoin(le: ValueOrder, jt: JoinType, lc: Condition, rc: Condition, queries: Stream<Record>,
                    table: Stream<Record>, out: Stream<OutRecord>, t: nat, y: OutRecord)
    requires TotalOrder(le) && LeftDriven(jt) && AllEven(queries) && Joining(le, jt, lc, rc, queries, table, out)
    requires forall u: nat :: IsTable(Upto(table, u))
    ensures Count(At(EvenOnly(out), t), y) ==
            if t % 2 == 0 then Answer(le, jt, At(queries, t), Upto(table, t), lc, rc, y) else 0
  {
    var op := (l, r) => JoinTables(le, jt, l, r, lc, rc);
    forall u: nat | u % 2 == 1 ensures Count(op(Upto(queries + Retractions(queries), u), Upto(table, u)), y) == 0 {
      ForgettingJoin(le, jt, lc, rc, queries, Upto(table, u), u, y);
    }
    AsOfNow(op, queries, table, out, t, y);
    ForgettingJoin(le, jt, lc, rc, queries, Upto(table, t), t, y);
  }

  /** The row is one that a join of tables is for: new ids as usual, query ids with an error for several matches. */
  ghost predicate IsAnswer(jt: JoinType, queries: Coll<Record>, table: Coll<Record>, lc: Condition, rc: Condition,
                           y: OutRecord) {
    if KeepsLeftIds(jt) then exists l :: In(queries, l) && y.0 == Own(l.0) && RowFor(jt, queries, table, lc, rc, l, y.1)
    else IsJoinRow(jt, queries, table, lc, rc, y)
  }

  /** If the queries of a time are all new, each is answered once by each match, or padded if there is none. */
  lemma AsOfNowAnswers(le: ValueOrder, jt: JoinType, lc: Condition, rc: Condition, queries: Coll<Record>,
                       table: Coll<Record>, y: OutRecord)
    requires TotalOrder(le) && LeftDriven(jt) && IsTable(queries) && IsTable(table)
    ensures Answer(le, jt, queries, table, lc, rc, y) == if IsAnswer(jt, queries, table, lc, rc, y) then 1 else 0
  {
    AnswerIsJoined(le, jt, queries, table, lc, rc, y);
    if !KeepsLeftIds(jt) {
      JoinRows(jt, queries, table, lc, rc, y);
    } else if l :| In(queries, l) && y.0 == Own(l.0) {
      LeftIdRows(le, jt, queries, table, lc, rc, l, y.1);
      forall m | In(queries, m) && y.0 == Own(m.0) ensures m == l {
        assert m.0 == l.0;
      }
    } else {
      OnlyLeftIds(le, jt, queries, table, lc, rc, y);
    }
  }

  // ---------------------------------------------------------------- queries that are taken back

  ghost predicate IsPartner(table: Coll<Record>, lc: Condition, rc: Condition, l: Record, r: Record) {
    In(table, r) && lc(l).Some? && lc(l) == rc(r)
  }

  ghost predicate HasPartner(table: Coll<Record>, lc: Condition, rc: Condition, l: Record) {
    exists r :: IsPartner(table, lc, rc, l, r)
  }

  /** The query `l` has multiplicity `n`; where ids are kept, no other query of the time has its id. */
  ghost predicate Asked(jt: JoinType, queries: Coll<Record>, l: Record, n: int) {
    Count(queries, l) == n && (KeepsLeftIds(jt) ==> forall x: Record :: x.0 == l.0 && x != l ==> Count(queries, x) == 0)
  }

  /** When adding a query and taking it back later leaves nothing behind. */
  ghost predicate TakesBack(jt: JoinType, before: Coll<Record>, after: Coll<Record>, lc: Condition, rc: Condition, l: Record) {
    match jt
    case Inner => forall r :: IsPartner(before, lc, rc, l, r) <==> IsPartner(after, lc, rc, l, r)
    case LeftOuter => !HasPartner(before, lc, rc, l) && !HasPartner(after, lc, rc, l)
    case LeftKeysSubset => !HasPartner(before, lc, rc, l) && !HasPartner(after, lc, rc, l)
    case _ => false
  }

  /** The row concerns the query. */
  predicate About(l: Record, y: OutRecord) {
    LeftOf(y.1) == Some(l)
  }

  // new ids

  lemma MatchAnswer(jt: JoinType, lc: Condition, rc: Condition, queries: Coll<Record>, table: Coll<Record>, l: Record, r: Record)
    requires lc(l).Some? && lc(l) == rc(r)
    ensures var y := MatchRow(jt, (lc(l).value, l, r));
            About(l, y) && RawCount(jt, queries, table, lc, rc, y) == Count(queries, l) * Count(table, r)
  {
    PairedContents(Some(l), Some(r));
    PairedContents(Some(l), None);
  }

  lemma PaddedAnswer(jt: JoinType, lc: Condition, rc: Condition, queries: Coll<Record>, table: Coll<Record>, l: Record)
    requires KeepsUnmatchedLeft(jt)
    ensures var y := LeftRow(jt, (lc(l), l));
            About(l, y) &&
            RawCount(jt, queries, table, lc, rc, y) ==
            Count(queries, l) - if Count(queries, l) > 0 && HasPartner(table, lc, rc, l) then 1 else 0
  {
    PairedContents(Some(l), None);
    KeyIsPartner(table, lc, rc, l);
  }

  lemma KeyIsPartner(table: Coll<Record>, lc: Condition, rc: Condition, l: Record)
    ensures lc(l).Some? && KeyOnRight(table, rc, lc(l).value) <==> HasPartner(table, lc, rc, l)
  {
    if lc(l).Some? && KeyOnRight(table, rc, lc(l).value) {
      var r :| In(table, r) && rc(r) == Some(lc(l).value);
      assert IsPartner(table, lc, rc, l, r);
    }
  }

  /** Every row about a query is the one of a match or the padded one. */
  lemma AnswersAbout(jt: JoinType, lc: Condition, rc: Condition, queries: Coll<Record>, table: Coll<Record>, l: Record, y: OutRecord)
    requires About(l, y) && RawCount(jt, queries, table, lc, rc, y) != 0
    ensures Count(queries, l) != 0
    ensures (RightOf(y.1).Some? && lc(l).Some? && lc(l) == rc(RightOf(y.1).value) &&
             y == MatchRow(jt, (lc(l).value, l, RightOf(y.1).value)) && Count(table, RightOf(y.1).value) != 0) ||
            (KeepsUnmatchedLeft(jt) && y == LeftRow(jt, (lc(l), l)))
  {}

  /** Left and inner joins with new ids. */
  lemma TakenBackNewIds(jt: JoinType, lc: Condition, rc: Condition, added: Coll<Record>, before: Coll<Record>,
                        removed: Coll<Record>, after: Coll<Record>, l: Record)
    requires jt.Inner? || jt.LeftOuter?
    requires IsTable(before) && IsTable(after) && Count(added, l) == 1 && Count(removed, l) == -1
    requires TakesBack(jt, before, after, lc, rc, l)
    ensures forall y :: About(l, y) ==>
              RawCount(jt, added, before, lc, rc, y) + RawCount(jt, removed, after, lc, rc, y) == 0
  {
    KeyIsPartner(before, lc, rc, l);
    KeyIsPartner(after, lc, rc, l);
    forall y | About(l, y) ensures RawCount(jt, added, before, lc, rc, y) + RawCount(jt, removed, after, lc, rc, y) == 0 {
      if RightOf(y.1).Some? {
        var r := RightOf(y.1).value;
        assert IsPartner(before, lc, rc, l, r) <==> IsPartner(after, lc, rc, l, r);
      }
    }
  }

  lemma NotTakenBackNewIds(jt: JoinType, lc: Condition, rc: Condition, added: Coll<Record>, before: Coll<Record>,
                           removed: Coll<Record>, after: Coll<Record>, l: Record) returns (y: OutRecord)
    requires jt.Inner? || jt.LeftOuter?
    requires IsTable(before) && IsTable(after) && Count(added, l) == 1 && Count(removed, l) == -1
    requires !TakesBack(jt, before, after, lc, rc, l)
    ensures About(l, y) && RawCount(jt, added, before, lc, rc, y) + RawCount(jt, removed, after, lc, rc, y) != 0
  {
    if jt.LeftOuter? && HasPartner(before, lc, rc, l) {
      y := LeftRow(jt, (lc(l), l));
      PaddedAnswer(jt, lc, rc, added, before, l);
      PaddedAnswer(jt, lc, rc, removed, after, l);
    } else {
      var r :| IsPartner(before, lc, rc, l, r) != IsPartner(after, lc, rc, l, r);
      y := MatchRow(jt, (lc(l).value, l, r));
      MatchAnswer(jt, lc, rc, added, before, l, r);
      MatchAnswer(jt, lc, rc, removed, after, l, r);
    }
  }

  // ids of the queries

  lemma RawOfId(jt: JoinType, lc: Condition, rc: Condition, queries: Coll<Record>, table: Coll<Record>, k: ResultKey, w: Value)
    requires KeepsLeftIds(jt) && RawCount(jt, queries, table, lc, rc, (k, w)) != 0
    ensures LeftOf(w).Some? && k == Own(LeftOf(w).value.0) && Count(queries, LeftOf(w).value) != 0
    ensures Ambiguous(w) == ErrorValue(LeftOf(w).value)
  {}

  function ErrorValue(l: Record): Value {
    Tuple([Pointer(l.0), l.1, Error, Error])
  }

  /** Under the id of a query stands something if and only if it has a match or is padded. */
  lemma RawUnderIdIff(jt: JoinType, lc: Condition, rc: Condition, queries: Coll<Record>, table: Coll<Record>, l: Record, n: int)
    requires KeepsLeftIds(jt) && IsTable(table) && Asked(jt, queries, l, n)
    ensures (exists w :: RawCount(jt, queries, table, lc, rc, (Own(l.0), w)) != 0) <==>
            n != 0 && (jt.LeftKeysFull? || HasPartner(table, lc, rc, l))
  {
    if w :| RawCount(jt, queries, table, lc, rc, (Own(l.0), w)) != 0 {
      RawOfId(jt, lc, rc, queries, table, Own(l.0), w);
      assert LeftOf(w).value == l;
      AnswersAbout(jt, lc, rc, queries, table, l, (Own(l.0), w));
      if !jt.LeftKeysFull? {
        assert IsPartner(table, lc, rc, l, RightOf(w).value);
      }
    }
    if n != 0 && (jt.LeftKeysFull? || HasPartner(table, lc, rc, l)) {
      var w := RawOfQuery(jt, lc, rc, queries, table, l);
    }
  }

  lemma RawOfQuery(jt: JoinType, lc: Condition, rc: Condition, queries: Coll<Record>, table: Coll<Record>, l: Record)
    returns (w: Value)
    requires KeepsLeftIds(jt) && Count(queries, l) != 0 && (jt.LeftKeysFull? || HasPartner(table, lc, rc, l))
    ensures RawCount(jt, queries, table, lc, rc, (Own(l.0), w)) != 0 && LeftOf(w) == Some(l)
  {
    if r :| IsPartner(table, lc, rc, l, r) {
      w := Paired(Some(l), Some(r));
      MatchAnswer(jt, lc, rc, queries, table, l, r);
    } else {
      w := Paired(Some(l), None);
      PaddedAnswer(jt, lc, rc, queries, table, l);
    }
  }

  /** What stands under the id of a query is about it. */
  lemma RawIsAbout(jt: JoinType, lc: Condition, rc: Condition, queries: Coll<Record>, table: Coll<Record>, l: Record,
                   n: int, w: Value)
    requires KeepsLeftIds(jt) && Asked(jt, queries, l, n) && RawCount(jt, queries, table, lc, rc, (Own(l.0), w)) != 0
    ensures LeftOf(w) == Some(l) && Ambiguous(w) == ErrorValue(l) && LeftOf(ErrorValue(l)) == Some(l)
  {
    RawOfId(jt, lc, rc, queries, table, Own(l.0), w);
  }

  /** The row of a query with its id, if it has one. */
  lemma AnsweredUnderId(le: ValueOrder, jt: JoinType, lc: Condition, rc: Condition, queries: Coll<Record>,
                        table: Coll<Record>, l: Record, n: int) returns (v: Value)
    requires TotalOrder(le) && KeepsLeftIds(jt) && IsTable(table) && Asked(jt, queries, l, n)
    requires n != 0 && (jt.LeftKeysFull? || HasPartner(table, lc, rc, l))
    ensures About(l, (Own(l.0), v)) && Answer(le, jt, queries, table, lc, rc, (Own(l.0), v)) == 1
    ensures n < 0 ==> v == ErrorValue(l)
  {
    if w :| OnlyRaw(jt, queries, table, lc, rc, (Own(l.0), w)) {
      RawIsAbout(jt, lc, rc, queries, table, l, n, w);
      if n < 0 {
        NegativeRaw(jt, lc, rc, queries, table, l, n, w);
      }
      v := w;
    } else {
      v := ErrorUnderId(le, jt, lc, rc, queries, table, l, n);
    }
  }

  lemma ErrorUnderId(le: ValueOrder, jt: JoinType, lc: Condition, rc: Condition, queries: Coll<Record>,
                     table: Coll<Record>, l: Record, n: int) returns (v: Value)
    requires TotalOrder(le) && KeepsLeftIds(jt) && IsTable(table) && Asked(jt, queries, l, n)
    requires n != 0 && (jt.LeftKeysFull? || HasPartner(table, lc, rc, l))
    requires forall w :: !OnlyRaw(jt, queries, table, lc, rc, (Own(l.0), w))
    ensures v == ErrorValue(l) && IsErrorRow(le, jt, queries, table, lc, rc, (Own(l.0), v)) && LeftOf(v) == Some(l)
  {
    var some := RawOfQuery(jt, lc, rc, queries, table, l);
    var first := LeastUnderId(le, jt, lc, rc, queries, table, Own(l.0), some);
    RawIsAbout(jt, lc, rc, queries, table, l, n, first);
    v := Ambiguous(first);
  }

  /** Where something stands under an id, there is a least value. */
  lemma LeastUnderId(le: ValueOrder, jt: JoinType, lc: Condition, rc: Condition, queries: Coll<Record>,
                     table: Coll<Record>, k: ResultKey, some: Value) returns (first: Value)
    requires TotalOrder(le) && LeftDriven(jt) && IsTable(table)
    requires RawCount(jt, queries, table, lc, rc, (k, some)) != 0
    requires forall w :: !OnlyRaw(jt, queries, table, lc, rc, (k, w))
    ensures LeastRaw(le, jt, queries, table, lc, rc, k, first)
  {
    var under := Under(RawJoin(jt, queries, table, lc, rc), k);
    RawUnder(jt, queries, table, lc, rc, k);
    forall w ensures !Only(under, w) {
      OnlyIsOnlyRaw(jt, queries, table, lc, rc, k, under, w);
    }
    first := ErrorResolved(le, under, some);
    LeastIsLeastRaw(le, jt, queries, table, lc, rc, k, under, first);
  }

  /** Nothing that a retraction yields occurs a positive number of times. */
  lemma NegativeRaw(jt: JoinType, lc: Condition, rc: Condition, queries: Coll<Record>, table: Coll<Record>, l: Record, n: int, w: Value)
    requires KeepsLeftIds(jt) && IsTable(table) && Asked(jt, queries, l, n) && n < 0
    ensures RawCount(jt, queries, table, lc, rc, (Own(l.0), w)) <= 0
  {
    if RawCount(jt, queries, table, lc, rc, (Own(l.0), w)) != 0 {
      RawOfId(jt, lc, rc, queries, table, Own(l.0), w);
      AnswersAbout(jt, lc, rc, queries, table, l, (Own(l.0), w));
    }
  }

  lemma UnansweredUnderId(le: ValueOrder, jt: JoinType, lc: Condition, rc: Condition, queries: Coll<Record>,
                          table: Coll<Record>, l: Record, n: int, y: OutRecord)
    requires KeepsLeftIds(jt) && IsTable(table) && Asked(jt, queries, l, n) && About(l, y)
    requires y.0 == Own(l.0) ==> n == 0 || (jt.LeftKeysSubset? && !HasPartner(table, lc, rc, l))
    ensures Answer(le, jt, queries, table, lc, rc, y) == 0
  {
    if y.0 == Own(l.0) {
      RawUnderIdIff(jt, lc, rc, queries, table, l, n);
    } else if w :| RawCount(jt, queries, table, lc, rc, (y.0, w)) != 0 && (w == y.1 || y.1 == Ambiguous(w)) {
      RawOfId(jt, lc, rc, queries, table, y.0, w);
      assert false;
    }
  }

  /**
   A query with a kept id that is taken back: if it has a match, or is to be padded, an error row is inserted under its
   id, whatever stood there before.
   */
  lemma RetractedUnderId(le: ValueOrder, jt: JoinType, lc: Condition, rc: Condition, queries: Coll<Record>,
                         table: Coll<Record>, l: Record, y: OutRecord)
    requires TotalOrder(le) && KeepsLeftIds(jt) && IsTable(table) && Asked(jt, queries, l, -1) && About(l, y)
    ensures Answer(le, jt, queries, table, lc, rc, y) ==
            if y == (Own(l.0), ErrorValue(l)) && (jt.LeftKeysFull? || HasPartner(table, lc, rc, l)) then 1 else 0
  {
    if y.0 == Own(l.0) && (jt.LeftKeysFull? || HasPartner(table, lc, rc, l)) {
      var v := AnsweredUnderId(le, jt, lc, rc, queries, table, l, -1);
      OneUnderId(le, jt, lc, rc, queries, table, (y.0, v), y);
    } else {
      UnansweredUnderId(le, jt, lc, rc, queries, table, l, -1, y);
    }
  }

  /** No id has two rows. */
  lemma OneUnderId(le: ValueOrder, jt: JoinType, lc: Condition, rc: Condition, queries: Coll<Record>,
                   table: Coll<Record>, y: OutRecord, z: OutRecord)
    requires TotalOrder(le) && KeepsLeftIds(jt) && y.0 == z.0 && Answer(le, jt, queries, table, lc, rc, y) == 1
    ensures Answer(le, jt, queries, table, lc, rc, z) == 1 <==> y == z
  {
    if IsIdRow(le, jt, queries, table, lc, rc, z) && !OnlyRaw(jt, queries, table, lc, rc, y) {
      var v :| LeastRaw(le, jt, queries, table, lc, rc, y.0, v) && y.1 == Ambiguous(v);
      var w :| LeastRaw(le, jt, queries, table, lc, rc, z.0, w) && z.1 == Ambiguous(w);
      assert le(v, w) && le(w, v);
    }
  }

  lemma TakenBackOwnIds(le: ValueOrder, jt: JoinType, lc: Condition, rc: Condition, added: Coll<Record>,
                        before: Coll<Record>, removed: Coll<Record>, after: Coll<Record>, l: Record)
    requires TotalOrder(le) && KeepsLeftIds(jt) && IsTable(before) && IsTable(after)
    requires Asked(jt, added, l, 1) && Asked(jt, removed, l, -1)
    ensures (forall y :: About(l, y) ==>
               Answer(le, jt, added, before, lc, rc, y) + Answer(le, jt, removed, after, lc, rc, y) == 0) <==>
            TakesBack(jt, before, after, lc, rc, l)
  {
    if jt.LeftKeysFull? || HasPartner(before, lc, rc, l) {
      var v := AnsweredUnderId(le, jt, lc, rc, added, before, l, 1);
      assert About(l, (Own(l.0), v)) && Answer(le, jt, removed, after, lc, rc, (Own(l.0), v)) >= 0;
    } else if HasPartner(after, lc, rc, l) {
      var v := AnsweredUnderId(le, jt, lc, rc, removed, after, l, -1);
      assert About(l, (Own(l.0), v)) && Answer(le, jt, added, before, lc, rc, (Own(l.0), v)) >= 0;
    } else {
      forall y | About(l, y)
        ensures Answer(le, jt, added, before, lc, rc, y) == 0 && Answer(le, jt, removed, after, lc, rc, y) == 0
      {
        UnansweredUnderId(le, jt, lc, rc, added, before, l, 1, y);
        UnansweredUnderId(le, jt, lc, rc, removed, after, l, -1, y);
      }
    }
  }

  /**
   A query is added when the other table stands at `before` and taken back when it stands at `after`. What it was given
   and what is taken back cancel if and only if: in an inner join its partners are the same at both times; in a left
   join, and in an inner join with its id, it has none at either; in a left join with its id, never.
   */
  lemma TakenBackIff(le: ValueOrder, jt: JoinType, lc: Condition, rc: Condition, added: Coll<Record>,
                     before: Coll<Record>, removed: Coll<Record>, after: Coll<Record>, l: Record)
    requires TotalOrder(le) && LeftDriven(jt) && IsTable(before) && IsTable(after)
    requires Asked(jt, added, l, 1) && Asked(jt, removed, l, -1)
    ensures (forall y :: About(l, y) ==>
               Answer(le, jt, added, before, lc, rc, y) + Answer(le, jt, removed, after, lc, rc, y) == 0) <==>
            TakesBack(jt, before, after, lc, rc, l)
  {
    if KeepsLeftIds(jt) {
      TakenBackOwnIds(le, jt, lc, rc, added, before, removed, after, l);
    } else if TakesBack(jt, before, after, lc, rc, l) {
      TakenBackNewIds(jt, lc, rc, added, before, removed, after, l);
    } else {
      var y := NotTakenBackNewIds(jt, lc, rc, added, before, removed, after, l);
      assert About(l, y) && Answer(le, jt, added, before, lc, rc, y) + Answer(le, jt, removed, after, lc, rc, y) != 0;
    }
  }

  /** A query that is not there yields nothing. */
  lemma NotAsked(le: ValueOrder, jt: JoinType, lc: Condition, rc: Condition, queries: Coll<Record>, table: Coll<Record>,
                 l: Record, y: OutRecord)
    requires IsTable(table) && Asked(jt, queries, l, 0) && About(l, y)
    ensures Answer(le, jt, queries, table, lc, rc, y) == 0
  {
    if KeepsLeftIds(jt) {
      UnansweredUnderId(le, jt, lc, rc, queries, table, l, 0, y);
    }
  }

  lemma {:induction false} UptoTwo<T>(s: Stream<T>, first: nat, second: nat, t: nat, x: T)
    requires first < second
    requires forall u: nat :: u != first && u != second ==> Count(At(s, u), x) == 0
    ensures Count(Upto(s, t), x) ==
            (if first <= t then Count(At(s, first), x) else 0) + (if second <= t then Count(At(s, second), x) else 0)
    decreases t
  {
    CountUptoStep(s, t, x);
    if t > 0 {
      UptoTwo(s, first, second, t - 1, x);
    }
  }

  /**
   Over whole streams: a query is added at one time and taken back at a later one. From then on nothing about it is left
   in the result if and only if the condition above holds of the other table at the two times, however it changed between
   and after them.
   */
  lemma NothingLeftIff(le: ValueOrder, jt: JoinType, lc: Condition, rc: Condition, queries: Stream<Record>,
                       table: Stream<Record>, out: Stream<OutRecord>, added: nat, removed: nat, now: nat, l: Record)
    requires TotalOrder(le) && LeftDriven(jt) && AllEven(queries) && Joining(le, jt, lc, rc, queries, table, out)
    requires forall u: nat :: IsTable(Upto(table, u))
    requires added < removed <= now && Asked(jt, At(queries, added), l, 1) && Asked(jt, At(queries, removed), l, -1)
    requires forall t: nat :: t != added && t != removed ==> Asked(jt, At(queries, t), l, 0)
    ensures (forall y :: About(l, y) ==> Count(Upto(EvenOnly(out), now), y) == 0) <==>
            TakesBack(jt, Upto(table, added), Upto(table, removed), lc, rc, l)
  {
    var before, after := Upto(table, added), Upto(table, removed);
    forall y | About(l, y)
      ensures Count(Upto(EvenOnly(out), now), y) ==
              Answer(le, jt, At(queries, added), before, lc, rc, y) + Answer(le, jt, At(queries, removed), after, lc, rc, y)
    {
      LeftOver(le, jt, lc, rc, queries, table, out, added, removed, now, l, y);
    }
    TakenBackIff(le, jt, lc, rc, At(queries, added), before, At(queries, removed), after, l);
  }

  lemma LeftOver(le: ValueOrder, jt: JoinType, lc: Condition, rc: Condition, queries: Stream<Record>,
                 table: Stream<Record>, out: Stream<OutRecord>, added: nat, removed: nat, now: nat, l: Record, y: OutRecord)
    requires TotalOrder(le) && LeftDriven(jt) && AllEven(queries) && Joining(le, jt, lc, rc, queries, table, out)
    requires forall u: nat :: IsTable(Upto(table, u))
    requires added < removed <= now && Asked(jt, At(queries, added), l, 1) && Asked(jt, At(queries, removed), l, -1)
    requires About(l, y) && forall t: nat :: t != added && t != removed ==> Asked(jt, At(queries, t), l, 0)
    ensures Count(Upto(EvenOnly(out), now), y) ==
            Answer(le, jt, At(queries, added), Upto(table, added), lc, rc, y) +
            Answer(le, jt, At(queries, removed), Upto(table, removed), lc, rc, y)
  {
    forall t: nat | t != added && t != removed ensures Count(At(EvenOnly(out), t), y) == 0 {
      AsOfNowJoin(le, jt, lc, rc, queries, table, out, t, y);
      NotAsked(le, jt, lc, rc, At(queries, t), Upto(table, t), l, y);
    }
    UptoTwo(EvenOnly(out), added, removed, now, y);
    AskedIsEven(jt, queries, added, l);
    AskedIsEven(jt, queries, removed, l);
    AsOfNowJoin(le, jt, lc, rc, queries, table, out, added, y);
    AsOfNowJoin(le, jt, lc, rc, queries, table, out, removed, y);
  }

  lemma AskedIsEven(jt: JoinType, queries: Stream<Record>, t: nat, l: Record)
    requires AllEven(queries) && Count(At(queries, t), l) != 0
    ensures t % 2 == 0
  {
    if t % 2 == 1 {
      NothingAtOddTimes(queries, t);
    }
  }

  /** Witnesses: the left join takes back a padded row that was never given, and the current matches, given or not. */
  lemma RetractedQuery(lc: Condition, rc: Condition, queries: Coll<Record>, table: Coll<Record>, l: Record, r: Record)
    requires Count(queries, l) == -1
    ensures RawCount(LeftOuter, queries, table, lc, rc, LeftRow(LeftOuter, (lc(l), l))) == -1
    ensures IsPartner(table, lc, rc, l, r) ==>
              RawCount(LeftOuter, queries, table, lc, rc, MatchRow(LeftOuter, (lc(l).value, l, r))) == -1
  {
    PairedContents(Some(l), None);
    PairedContents(Some(l), Some(r));
  }

  /**
   A query with a kept id that is replaced, the old one taken back and the new one added at the same time: the left join
   answers with one error row, whatever the other table holds.
   */
  lemma ReplacedQuery(le: ValueOrder, lc: Condition, rc: Condition, queries: Coll<Record>, table: Coll<Record>,
                      old_: Record, new_: Record) returns (l: Record)
    requires TotalOrder(le) && IsTable(table) && old_.0 == new_.0 && old_ != new_
    requires Count(queries, old_) == -1 && Count(queries, new_) == 1
    ensures l.0 == old_.0 && Count(queries, l) != 0
    ensures forall v :: Answer(le, LeftKeysFull, queries, table, lc, rc, (Own(old_.0), v)) == if v == ErrorValue(l) then 1 else 0
  {
    var k := Own(old_.0);
    var v := RawOfQuery(LeftKeysFull, lc, rc, queries, table, old_);
    var w := RawOfQuery(LeftKeysFull, lc, rc, queries, table, new_);
    assert v != w;
    var first := LeastUnderId(le, LeftKeysFull, lc, rc, queries, table, k, v);
    RawOfId(LeftKeysFull, lc, rc, queries, table, k, first);
    l := LeftOf(first).value;
    assert IsErrorRow(le, LeftKeysFull, queries, table, lc, rc, (k, ErrorValue(l)));
    forall v ensures Answer(le, LeftKeysFull, queries, table, lc, rc, (k, v)) == if v == ErrorValue(l) then 1 else 0 {
      OneUnderId(le, LeftKeysFull, lc, rc, queries, table, (k, ErrorValue(l)), (k, v));
    }
  }
}
