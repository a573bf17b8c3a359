/**
 Joins of two tables. Outer joins add the rows of one side and subtract those that found a partner; joins that keep
 the ids of the left side replace ambiguous rows by an error.
 */
module Join {
  import opened Values
  import opened Collections
  import opened Sorting

  type Record = (Key, Value)

  /** The join condition of one side: the key built from the joined columns, or `None` when one of them is an error. */
  type Condition = Record -> Option<Key>

  datatype JoinType = Inner | LeftOuter | RightOuter | FullOuter | LeftKeysSubset | LeftKeysFull

  /** A result id: a left id kept, or the hash of the two ids (`None` where a side is missing) with a shard put in. */
  datatype ResultKey = Own(key: Key) | HashOf(left: Option<Key>, right: Option<Key>, shard: Key)

  type OutRecord = (ResultKey, Value)

  type Half = (Option<Key>, Record)

  type Match = (Key, Record, Record)

  function Paired(l: Option<Record>, r: Option<Record>): Value {
    Tuple([if l.Some? then Pointer(l.value.0) else Null, if l.Some? then l.value.1 else Null,
           if r.Some? then Pointer(r.value.0) else Null, if r.Some? then r.value.1 else Null])
  }

  function WithJoinKey(condition: Condition, c: Coll<Record>): Coll<Half> {
    Mapped((x: Record) => (condition(x), x), c)
  }

  function Matched(left: Coll<Record>, right: Coll<Record>, lc: Condition, rc: Condition): Coll<Match> {
    Joined(Keyed(WithJoinKey(lc, left)), Keyed(WithJoinKey(rc, right)))
  }

  /** One side with the records that found a partner taken out. */
  function Unmatched(side: Coll<Half>, partnered: Coll<(Key, Record)>): Coll<Half> {
    side + Mapped((t: (Key, Record)) => (Some(t.0), t.1), Negated(Distinct(partnered)))
  }

  predicate KeepsLeftIds(jt: JoinType) {
    jt.LeftKeysFull? || jt.LeftKeysSubset?
  }

  predicate KeepsUnmatchedLeft(jt: JoinType) {
    jt.LeftOuter? || jt.FullOuter? || jt.LeftKeysFull?
  }

  predicate KeepsUnmatchedRight(jt: JoinType) {
    jt.RightOuter? || jt.FullOuter?
  }

  function MatchRow(jt: JoinType, m: Match): OutRecord {
    (if KeepsLeftIds(jt) then Own(m.1.0) else HashOf(Some(m.1.0), Some(m.2.0), m.0), Paired(Some(m.1), Some(m.2)))
  }

  function LeftRow(jt: JoinType, h: Half): OutRecord {
    (if jt.LeftKeysFull? then Own(h.1.0) else HashOf(Some(h.1.0), None, if h.0.Some? then h.0.value else h.1.0),
     Paired(Some(h.1), None))
  }

  function RightRow(h: Half): OutRecord {
    (HashOf(None, Some(h.1.0), if h.0.Some? then h.0.value else h.1.0), Paired(None, Some(h.1)))
  }

  /** The result of a join before ambiguous ids are dealt with. */
  function RawJoin(jt: JoinType, left: Coll<Record>, right: Coll<Record>, lc: Condition, rc: Condition): Coll<OutRecord> {
    var matched := Matched(left, right, lc, rc);
    Mapped(m => MatchRow(jt, m), matched) +
    (if KeepsUnmatchedLeft(jt)
     then Mapped(h => LeftRow(jt, h), Unmatched(WithJoinKey(lc, left), Mapped((m: Match) => (m.0, m.1), matched))) else []) +
    (if KeepsUnmatchedRight(jt)
     then Mapped(h => RightRow(h), Unmatched(WithJoinKey(rc, right), Mapped((m: Match) => (m.0, m.2), matched))) else [])
  }

  /** A table: no negative multiplicities, and every id on exactly one record, once. */
  ghost predicate IsTable(c: Coll<Record>) {
    && (forall x :: Count(c, x) == 0 || Count(c, x) == 1)
    && (forall x, y :: Count(c, x) == 1 && Count(c, y) == 1 && x.0 == y.0 ==> x == y)
  }

  ghost predicate In(c: Coll<Record>, x: Record) {
    Count(c, x) == 1
  }

  /** The records join: both are present and their conditions agree on a key. */
  ghost predicate Joins(left: Coll<Record>, right: Coll<Record>, lc: Condition, rc: Condition, l: Record, r: Record) {
    In(left, l) && In(right, r) && lc(l).Some? && lc(l) == rc(r)
  }

  ghost predicate HasLeftPartner(left: Coll<Record>, right: Coll<Record>, lc: Condition, rc: Condition, l: Record) {
    exists r :: Joins(left, right, lc, rc, l, r)
  }

  ghost predicate HasRightPartner(left: Coll<Record>, right: Coll<Record>, lc: Condition, rc: Condition, r: Record) {
    exists l :: Joins(left, right, lc, rc, l, r)
  }

  // ---------------------------------------------------------------- multiplicities along the way

  lemma CountWithJoinKey(condition: Condition, c: Coll<Record>, o: Option<Key>, x: Record)
    ensures Count(WithJoinKey(condition, c), (o, x)) == if o == condition(x) then Count(c, x) else 0
  {
    var f := (x: Record) => (condition(x), x);
    if o == condition(x) {
      CountMapped(f, c, x, (o, x));
    } else {
      CountMappedNone(f, c, (o, x));
    }
  }

  lemma CountSide(condition: Condition, c: Coll<Record>, k: Key, x: Record)
    ensures Count(Keyed(WithJoinKey(condition, c)), (k, x)) == if condition(x) == Some(k) then Count(c, x) else 0
  {
    CountKeyed(WithJoinKey(condition, c), k, x);
    CountWithJoinKey(condition, c, Some(k), x);
  }

  lemma CountMatched(left: Coll<Record>, right: Coll<Record>, lc: Condition, rc: Condition, m: Match)
    ensures Count(Matched(left, right, lc, rc), m) ==
            (if lc(m.1) == Some(m.0) then Count(left, m.1) else 0) * (if rc(m.2) == Some(m.0) then Count(right, m.2) else 0)
  {
    CountJoined(Keyed(WithJoinKey(lc, left)), Keyed(WithJoinKey(rc, right)), m.0, m.1, m.2);
    CountSide(lc, left, m.0, m.1);
    CountSide(rc, right, m.0, m.2);
  }

  lemma SidePositive(condition: Condition, c: Coll<Record>, k: Key)
    requires IsTable(c)
    ensures Total(Keyed(WithJoinKey(condition, c)), k) >= 0
    ensures Total(Keyed(WithJoinKey(condition, c)), k) > 0 <==> exists x :: In(c, x) && condition(x) == Some(k)
  {
    var side := Keyed(WithJoinKey(condition, c));
    forall y: (Key, Record) ensures Count(side, y) == if condition(y.1) == Some(y.0) then Count(c, y.1) else 0 {
      CountSide(condition, c, y.0, y.1);
    }
    TotalPositive(side, k);
    if exists x :: In(c, x) && condition(x) == Some(k) {
      var x :| In(c, x) && condition(x) == Some(k);
      assert Count(side, (k, x)) > 0;
    }
  }

  /** Some record of the right table has the key. */
  ghost predicate KeyOnRight(right: Coll<Record>, rc: Condition, k: Key) {
    exists r :: In(right, r) && rc(r) == Some(k)
  }

  /** How often a left record with its key occurs among the pairs, right records dropped. */
  lemma CountPartnered(left: Coll<Record>, right: Coll<Record>, lc: Condition, rc: Condition, k: Key, l: Record)
    ensures Count(Mapped((m: Match) => (m.0, m.1), Matched(left, right, lc, rc)), (k, l)) ==
            (if lc(l) == Some(k) then Count(left, l) else 0) * Total(Keyed(WithJoinKey(rc, right)), k)
  {
    var f := (m: Match) => (m.0, m.1);
    CountJoinedLeft(Keyed(WithJoinKey(lc, left)), Keyed(WithJoinKey(rc, right)), f, k, l);
    CountSide(lc, left, k, l);
  }

  lemma PositiveTimes(a: int, b: int)
    requires b >= 0
    ensures a * b > 0 <==> a > 0 && b > 0
  {
    if a <= 0 {
      assert a * b <= 0;
    }
  }

  lemma LeftPartneredSigned(left: Coll<Record>, right: Coll<Record>, lc: Condition, rc: Condition, k: Key, l: Record)
    requires IsTable(right)
    ensures Count(Mapped((m: Match) => (m.0, m.1), Matched(left, right, lc, rc)), (k, l)) > 0 <==>
            lc(l) == Some(k) && Count(left, l) > 0 && KeyOnRight(right, rc, k)
  {
    CountPartnered(left, right, lc, rc, k, l);
    SidePositive(rc, right, k);
    PositiveTimes(if lc(l) == Some(k) then Count(left, l) else 0, Total(Keyed(WithJoinKey(rc, right)), k));
  }

  lemma UnitTimes(a: int, b: int)
    requires (a == 0 || a == 1) && b >= 0
    ensures a * b > 0 <==> a == 1 && b > 0
    ensures b * a > 0 <==> a == 1 && b > 0
  {}

  lemma PartnerOnRight(left: Coll<Record>, right: Coll<Record>, lc: Condition, rc: Condition, k: Key, l: Record)
    ensures lc(l) == Some(k) && In(left, l) ==>
              (HasLeftPartner(left, right, lc, rc, l) <==> KeyOnRight(right, rc, k))
  {
    if lc(l) == Some(k) && In(left, l) {
      if r :| In(right, r) && rc(r) == Some(k) {
        assert Joins(left, right, lc, rc, l, r);
      }
    }
  }

  lemma RightPartnered(left: Coll<Record>, right: Coll<Record>, lc: Condition, rc: Condition, k: Key, r: Record)
    requires IsTable(left) && IsTable(right)
    ensures Count(Mapped((m: Match) => (m.0, m.2), Matched(left, right, lc, rc)), (k, r)) > 0 <==>
            rc(r) == Some(k) && HasRightPartner(left, right, lc, rc, r)
  {
    var f := (m: Match) => (m.0, m.2);
    CountJoinedRight(Keyed(WithJoinKey(lc, left)), Keyed(WithJoinKey(rc, right)), f, k, r);
    CountSide(rc, right, k, r);
    SidePositive(lc, left, k);
    PartnerOnLeft(left, right, lc, rc, k, r);
    UnitTimes(Count(Keyed(WithJoinKey(rc, right)), (k, r)), Total(Keyed(WithJoinKey(lc, left)), k));
  }

  lemma PartnerOnLeft(left: Coll<Record>, right: Coll<Record>, lc: Condition, rc: Condition, k: Key, r: Record)
    ensures rc(r) == Some(k) && In(right, r) ==>
              (HasRightPartner(left, right, lc, rc, r) <==> exists l :: In(left, l) && lc(l) == Some(k))
  {
    if rc(r) == Some(k) && In(right, r) {
      if l :| In(left, l) && lc(l) == Some(k) {
        assert Joins(left, right, lc, rc, l, r);
      }
    }
  }

  /** What is left of a side once each record that occurs among the pairs is taken out once. */
  lemma CountUnmatchedSigned(c: Coll<Record>, condition: Condition, partnered: Coll<(Key, Record)>, x: Record)
    ensures Count(Unmatched(WithJoinKey(condition, c), partnered), (condition(x), x)) ==
            Count(c, x) - if condition(x).Some? && Count(partnered, (condition(x).value, x)) > 0 then 1 else 0
  {
    var o := condition(x);
    var side, wrap := WithJoinKey(condition, c), (t: (Key, Record)) => (Some(t.0), t.1);
    var gone := Negated(Distinct(partnered));
    CountConcat(side, Mapped(wrap, gone), (o, x));
    CountWithJoinKey(condition, c, o, x);
    if o.Some? {
      CountMapped(wrap, gone, (o.value, x), (o, x));
      CountNegated(Distinct(partnered), (o.value, x));
      CountDistinct(partnered, (o.value, x));
    } else {
      CountMappedNone(wrap, gone, (o, x));
    }
  }

  // ---------------------------------------------------------------- alignment

  /** Along the way the key next to a record is always the one its condition gives. */
  predicate AlignedHalf(condition: Condition, h: Half) {
    h.0 == condition(h.1)
  }

  lemma {:induction false} KeyedAligned(condition: Condition, c: Coll<Half>)
    requires forall i :: 0 <= i < |c| ==> AlignedHalf(condition, c[i].0)
    ensures AllRecords(Keyed(c), (t: (Key, Record)) => condition(t.1) == Some(t.0))
  {
    if c != [] {
      KeyedAligned(condition, c[1..]);
    }
  }

  lemma MatchedAligned(left: Coll<Record>, right: Coll<Record>, lc: Condition, rc: Condition)
    ensures forall i :: 0 <= i < |Matched(left, right, lc, rc)| ==> AlignedMatch(lc, rc, Matched(left, right, lc, rc)[i].0)
  {
    KeyedAligned(lc, WithJoinKey(lc, left));
    KeyedAligned(rc, WithJoinKey(rc, right));
    AllRecordsJoined(Keyed(WithJoinKey(lc, left)), Keyed(WithJoinKey(rc, right)),
                     (t: (Key, Record)) => lc(t.1) == Some(t.0), (t: (Key, Record)) => rc(t.1) == Some(t.0));
  }

  lemma UnmatchedAligned(condition: Condition, c: Coll<Record>, partnered: Coll<(Key, Record)>)
    requires AllRecords(partnered, (t: (Key, Record)) => condition(t.1) == Some(t.0))
    ensures forall i :: 0 <= i < |Unmatched(WithJoinKey(condition, c), partnered)| ==>
              AlignedHalf(condition, Unmatched(WithJoinKey(condition, c), partnered)[i].0)
  {
    AllRecordsDistinct(partnered, (t: (Key, Record)) => condition(t.1) == Some(t.0));
  }

  // ---------------------------------------------------------------- rows of the result

  /** The records inside a result value. */
  function LeftOf(v: Value): Option<Record> {
    if v.Tuple? && |v.vs| == 4 && v.vs[0].Pointer? then Some((v.vs[0].key, v.vs[1])) else None
  }

  function RightOf(v: Value): Option<Record> {
    if v.Tuple? && |v.vs| == 4 && v.vs[2].Pointer? then Some((v.vs[2].key, v.vs[3])) else None
  }

  lemma PairedContents(l: Option<Record>, r: Option<Record>)
    ensures LeftOf(Paired(l, r)) == l && RightOf(Paired(l, r)) == r
  {}

  /** The row of a pair of records that join. */
  ghost predicate IsMatchRow(jt: JoinType, left: Coll<Record>, right: Coll<Record>, lc: Condition, rc: Condition,
                             y: OutRecord) {
    && LeftOf(y.1).Some? && RightOf(y.1).Some?
    && var l, r := LeftOf(y.1).value, RightOf(y.1).value;
       Joins(left, right, lc, rc, l, r) && y == MatchRow(jt, (lc(l).value, l, r))
  }

  /** The padded row of a left record without a partner. */
  ghost predicate IsLeftRow(jt: JoinType, left: Coll<Record>, right: Coll<Record>, lc: Condition, rc: Condition,
                            y: OutRecord) {
    && LeftOf(y.1).Some?
    && var l := LeftOf(y.1).value;
       In(left, l) && !HasLeftPartner(left, right, lc, rc, l) && y == LeftRow(jt, (lc(l), l))
  }

  /** The padded row of a right record without a partner. */
  ghost predicate IsRightRow(left: Coll<Record>, right: Coll<Record>, lc: Condition, rc: Condition, y: OutRecord) {
    && RightOf(y.1).Some?
    && var r := RightOf(y.1).value;
       In(right, r) && !HasRightPartner(left, right, lc, rc, r) && y == RightRow((rc(r), r))
  }

  predicate AlignedMatch(lc: Condition, rc: Condition, m: Match) {
    lc(m.1) == Some(m.0) && rc(m.2) == Some(m.0)
  }

  /** The multiplicity of a pair's row: the product of those of its records. */
  ghost function MatchCount(jt: JoinType, left: Coll<Record>, right: Coll<Record>, lc: Condition, rc: Condition, y: OutRecord): int {
    if LeftOf(y.1).Some? && RightOf(y.1).Some? then
      var l, r := LeftOf(y.1).value, RightOf(y.1).value;
      if lc(l).Some? && lc(l) == rc(r) && y == MatchRow(jt, (lc(l).value, l, r)) then Count(left, l) * Count(right, r) else 0
    else 0
  }

  lemma CountMatchRowsSigned(jt: JoinType, left: Coll<Record>, right: Coll<Record>, lc: Condition, rc: Condition, y: OutRecord)
    ensures Count(Mapped(m => MatchRow(jt, m), Matched(left, right, lc, rc)), y) == MatchCount(jt, left, right, lc, rc, y)
  {
    var matched, f := Matched(left, right, lc, rc), (m: Match) => MatchRow(jt, m);
    MatchedAligned(left, right, lc, rc);
    forall i | 0 <= i < |matched| && f(matched[i].0) == y
      ensures LeftOf(y.1) == Some(matched[i].0.1) && RightOf(y.1) == Some(matched[i].0.2)
    {
      PairedContents(Some(matched[i].0.1), Some(matched[i].0.2));
    }
    if LeftOf(y.1).Some? && RightOf(y.1).Some? && lc(LeftOf(y.1).value).Some? {
      var l, r := LeftOf(y.1).value, RightOf(y.1).value;
      var x := (lc(l).value, l, r);
      if f(x) == y {
        CountMapped(f, matched, x, y);
        CountMatched(left, right, lc, rc, x);
      } else {
        CountMappedNone(f, matched, y);
      }
    } else {
      CountMappedNone(f, matched, y);
    }
  }

  lemma CountMatchRows(jt: JoinType, left: Coll<Record>, right: Coll<Record>, lc: Condition, rc: Condition, y: OutRecord)
    requires IsTable(left) && IsTable(right)
    ensures Count(Mapped(m => MatchRow(jt, m), Matched(left, right, lc, rc)), y) ==
            if IsMatchRow(jt, left, right, lc, rc, y) then 1 else 0
  {
    CountMatchRowsSigned(jt, left, right, lc, rc, y);
    MatchCountOfTables(jt, left, right, lc, rc, y);
  }

  lemma MatchCountOfTables(jt: JoinType, left: Coll<Record>, right: Coll<Record>, lc: Condition, rc: Condition, y: OutRecord)
    requires IsTable(left) && IsTable(right)
    ensures MatchCount(jt, left, right, lc, rc, y) == if IsMatchRow(jt, left, right, lc, rc, y) then 1 else 0
  {
    if LeftOf(y.1).Some? && RightOf(y.1).Some? {
      var l, r := LeftOf(y.1).value, RightOf(y.1).value;
      assert (Count(left, l) == 0 || Count(left, l) == 1) && (Count(right, r) == 0 || Count(right, r) == 1);
    }
  }

  lemma CountUnmatchedRight(left: Coll<Record>, right: Coll<Record>, lc: Condition, rc: Condition, x: Record)
    requires IsTable(left) && IsTable(right)
    ensures var partnered := Mapped((m: Match) => (m.0, m.2), Matched(left, right, lc, rc));
            Count(Unmatched(WithJoinKey(rc, right), partnered), (rc(x), x)) ==
            if In(right, x) && !HasRightPartner(left, right, lc, rc, x) then 1 else 0
  {
    var partnered := Mapped((m: Match) => (m.0, m.2), Matched(left, right, lc, rc));
    if rc(x).Some? {
      RightPartnered(left, right, lc, rc, rc(x).value, x);
    }
    CountUnmatchedSigned(right, rc, partnered, x);
  }

  /** The multiplicity of a padded row: positive records that find a partner are taken out once. */
  ghost function PadCount(jt: JoinType, left: Coll<Record>, right: Coll<Record>, lc: Condition, rc: Condition, y: OutRecord): int {
    if LeftOf(y.1).Some? && y == LeftRow(jt, (lc(LeftOf(y.1).value), LeftOf(y.1).value)) then
      var l := LeftOf(y.1).value;
      Count(left, l) - if lc(l).Some? && Count(left, l) > 0 && KeyOnRight(right, rc, lc(l).value) then 1 else 0
    else 0
  }

  lemma CountLeftRowsSigned(jt: JoinType, left: Coll<Record>, right: Coll<Record>, lc: Condition, rc: Condition, y: OutRecord)
    requires IsTable(right)
    ensures var partnered := Mapped((m: Match) => (m.0, m.1), Matched(left, right, lc, rc));
            Count(Mapped(h => LeftRow(jt, h), Unmatched(WithJoinKey(lc, left), partnered)), y) ==
            PadCount(jt, left, right, lc, rc, y)
  {
    var partnered := Mapped((m: Match) => (m.0, m.1), Matched(left, right, lc, rc));
    var rest, f := Unmatched(WithJoinKey(lc, left), partnered), (h: Half) => LeftRow(jt, h);
    MatchedAligned(left, right, lc, rc);
    UnmatchedAligned(lc, left, partnered);
    forall i | 0 <= i < |rest| && f(rest[i].0) == y
      ensures LeftOf(y.1) == Some(rest[i].0.1) && rest[i].0.0 == lc(rest[i].0.1)
    {
      PairedContents(Some(rest[i].0.1), None);
      assert AlignedHalf(lc, rest[i].0);
    }
    if LeftOf(y.1).Some? && f((lc(LeftOf(y.1).value), LeftOf(y.1).value)) == y {
      var l := LeftOf(y.1).value;
      CountMapped(f, rest, (lc(l), l), y);
      UnmatchedLeftSigned(left, right, lc, rc, l);
    } else {
      CountMappedNone(f, rest, y);
    }
  }

  lemma UnmatchedLeftSigned(left: Coll<Record>, right: Coll<Record>, lc: Condition, rc: Condition, l: Record)
    requires IsTable(right)
    ensures var partnered := Mapped((m: Match) => (m.0, m.1), Matched(left, right, lc, rc));
            Count(Unmatched(WithJoinKey(lc, left), partnered), (lc(l), l)) ==
            Count(left, l) - if lc(l).Some? && Count(left, l) > 0 && KeyOnRight(right, rc, lc(l).value) then 1 else 0
  {
    var partnered := Mapped((m: Match) => (m.0, m.1), Matched(left, right, lc, rc));
    CountUnmatchedSigned(left, lc, partnered, l);
    if lc(l).Some? {
      LeftPartneredSigned(left, right, lc, rc, lc(l).value, l);
    }
  }

  lemma CountLeftRows(jt: JoinType, left: Coll<Record>, right: Coll<Record>, lc: Condition, rc: Condition, y: OutRecord)
    requires IsTable(left) && IsTable(right)
    ensures var partnered := Mapped((m: Match) => (m.0, m.1), Matched(left, right, lc, rc));
            Count(Mapped(h => LeftRow(jt, h), Unmatched(WithJoinKey(lc, left), partnered)), y) ==
            if IsLeftRow(jt, left, right, lc, rc, y) then 1 else 0
  {
    CountLeftRowsSigned(jt, left, right, lc, rc, y);
    if LeftOf(y.1).Some? {
      var l := LeftOf(y.1).value;
      if lc(l).Some? {
        PartnerOnRight(left, right, lc, rc, lc(l).value, l);
      }
    }
  }

  lemma CountRightRows(left: Coll<Record>, right: Coll<Record>, lc: Condition, rc: Condition, y: OutRecord)
    requires IsTable(left) && IsTable(right)
    ensures var partnered := Mapped((m: Match) => (m.0, m.2), Matched(left, right, lc, rc));
            Count(Mapped(h => RightRow(h), Unmatched(WithJoinKey(rc, right), partnered)), y) ==
            if IsRightRow(left, right, lc, rc, y) then 1 else 0
  {
    var partnered := Mapped((m: Match) => (m.0, m.2), Matched(left, right, lc, rc));
    var rest, f := Unmatched(WithJoinKey(rc, right), partnered), (h: Half) => RightRow(h);
    MatchedAligned(left, right, lc, rc);
    UnmatchedAligned(rc, right, partnered);
    forall i | 0 <= i < |rest| && f(rest[i].0) == y ensures RightOf(y.1) == Some(rest[i].0.1) && rest[i].0.0 == rc(rest[i].0.1) {
      PairedContents(None, Some(rest[i].0.1));
      assert AlignedHalf(rc, rest[i].0);
    }
    if RightOf(y.1).Some? && f((rc(RightOf(y.1).value), RightOf(y.1).value)) == y {
      var r := RightOf(y.1).value;
      CountMapped(f, rest, (rc(r), r), y);
      CountUnmatchedRight(left, right, lc, rc, r);
    } else {
      CountMappedNone(f, rest, y);
    }
  }

  /** The rows that a join of this type is for. */
  ghost predicate IsJoinRow(jt: JoinType, left: Coll<Record>, right: Coll<Record>, lc: Condition, rc: Condition,
                            y: OutRecord) {
    || IsMatchRow(jt, left, right, lc, rc, y)
    || (KeepsUnmatchedLeft(jt) && IsLeftRow(jt, left, right, lc, rc, y))
    || (KeepsUnmatchedRight(jt) && IsRightRow(left, right, lc, rc, y))
  }

  lemma KindsDisjoint(jt: JoinType, left: Coll<Record>, right: Coll<Record>, lc: Condition, rc: Condition, y: OutRecord)
    ensures !(IsMatchRow(jt, left, right, lc, rc, y) && IsLeftRow(jt, left, right, lc, rc, y))
    ensures !(IsMatchRow(jt, left, right, lc, rc, y) && IsRightRow(left, right, lc, rc, y))
    ensures !(IsLeftRow(jt, left, right, lc, rc, y) && IsRightRow(left, right, lc, rc, y))
  {
    PairedContents(None, RightOf(y.1));
    PairedContents(LeftOf(y.1), None);
  }

  /**
   Every matching pair appears once, every record without a partner on a kept side appears once padded with `None`,
   records with an error in the condition included, and nothing else appears; no multiplicity is negative.
   */
  lemma JoinRows(jt: JoinType, left: Coll<Record>, right: Coll<Record>, lc: Condition, rc: Condition, y: OutRecord)
    requires IsTable(left) && IsTable(right)
    ensures Count(RawJoin(jt, left, right, lc, rc), y) == if IsJoinRow(jt, left, right, lc, rc, y) then 1 else 0
  {
    var matched := Matched(left, right, lc, rc);
    var a := Mapped(m => MatchRow(jt, m), matched);
    var b := if KeepsUnmatchedLeft(jt)
             then Mapped(h => LeftRow(jt, h), Unmatched(WithJoinKey(lc, left), Mapped((m: Match) => (m.0, m.1), matched))) else [];
    var c := if KeepsUnmatchedRight(jt)
             then Mapped(h => RightRow(h), Unmatched(WithJoinKey(rc, right), Mapped((m: Match) => (m.0, m.2), matched))) else [];
    CountConcat(a + b, c, y);
    CountConcat(a, b, y);
    CountMatchRows(jt, left, right, lc, rc, y);
    CountLeftRows(jt, left, right, lc, rc, y);
    CountRightRows(left, right, lc, rc, y);
    KindsDisjoint(jt, left, right, lc, rc, y);
  }

  /** The multiplicity of a row in a join that drops unmatched right records. */
  ghost function RawCount(jt: JoinType, left: Coll<Record>, right: Coll<Record>, lc: Condition, rc: Condition, y: OutRecord): int {
    MatchCount(jt, left, right, lc, rc, y) + if KeepsUnmatchedLeft(jt) then PadCount(jt, left, right, lc, rc, y) else 0
  }

  /** Such joins on a left side with any multiplicities, retractions included. */
  lemma SignedJoinRows(jt: JoinType, left: Coll<Record>, right: Coll<Record>, lc: Condition, rc: Condition, y: OutRecord)
    requires IsTable(right) && !KeepsUnmatchedRight(jt)
    ensures Count(RawJoin(jt, left, right, lc, rc), y) == RawCount(jt, left, right, lc, rc, y)
  {
    var matched := Matched(left, right, lc, rc);
    var a := Mapped(m => MatchRow(jt, m), matched);
    var b := if KeepsUnmatchedLeft(jt)
             then Mapped(h => LeftRow(jt, h), Unmatched(WithJoinKey(lc, left), Mapped((m: Match) => (m.0, m.1), matched)))
             else [];
    assert RawJoin(jt, left, right, lc, rc) == a + b + [];
    assert a + b + [] == a + b;
    CountConcat(a, b, y);
    CountMatchRowsSigned(jt, left, right, lc, rc, y);
    CountLeftRowsSigned(jt, left, right, lc, rc, y);
  }

  /** Two ids are the same up to the shard bits, which the hash does not decide. */
  predicate SameId(a: ResultKey, b: ResultKey) {
    match (a, b)
    case (Own(k), Own(j)) => k == j
    case (HashOf(l, r, _), HashOf(l', r', _)) => l == l' && r == r'
    case _ => false
  }

  /** In joins that make new ids, no two rows share one. */
  lemma ResultIdsDistinct(jt: JoinType, left: Coll<Record>, right: Coll<Record>, lc: Condition, rc: Condition,
                          y: OutRecord, z: OutRecord)
    requires IsTable(left) && IsTable(right) && !KeepsLeftIds(jt)
    requires IsJoinRow(jt, left, right, lc, rc, y) && IsJoinRow(jt, left, right, lc, rc, z) && SameId(y.0, z.0)
    ensures y == z
  {
    PairedContents(None, RightOf(y.1));
    PairedContents(LeftOf(y.1), None);
  }

  // ---------------------------------------------------------------- joins that keep the left ids

  /** The values listed under one id, with their diffs. */
  function Under(c: Coll<OutRecord>, k: ResultKey): Coll<Value> {
    if c == [] then [] else (if c[0].0.0 == k then [(c[0].0.1, c[0].1)] else []) + Under(c[1..], k)
  }

  function WithoutId(c: Coll<OutRecord>, k: ResultKey): (d: Coll<OutRecord>)
    ensures |d| <= |c| && (c != [] && c[0].0.0 == k ==> |d| < |c|)
  {
    if c == [] then [] else (if c[0].0.0 == k then [] else [c[0]]) + WithoutId(c[1..], k)
  }

  /** The row put in place of an ambiguous one: the left half stays, the right half becomes an error. */
  function Ambiguous(v: Value): Value {
    if v.Tuple? && |v.vs| >= 2 then Tuple([v.vs[0], v.vs[1], Error, Error]) else v
  }

  type ValueOrder = (Value, Value) -> bool

  function LeastOf(le: ValueOrder, input: Coll<Value>): (v: Value)
    requires input != []
    ensures exists i :: 0 <= i < |input| && input[i].0 == v
  {
    if |input| == 1 then input[0].0
    else
      var rest := LeastOf(le, input[1..]);
      if le(input[0].0, rest) then input[0].0 else rest
  }

  /** The closure of the reduction, which is given the values in their order. */
  function Resolved(le: ValueOrder, input: Coll<Value>): Coll<Value> {
    if input == [] then []
    else if |input| == 1 && input[0].1 == 1 then [(input[0].0, 1)]
    else [(Ambiguous(LeastOf(le, input)), 1)]
  }

  /** `replace_duplicates_with_error`, id by id. */
  function DuplicatesReplaced(le: ValueOrder, c: Coll<OutRecord>): Coll<OutRecord>
    decreases |c|
  {
    if c == [] then []
    else
      var k := c[0].0.0;
      Mapped(v => (k, v), Resolved(le, Consolidated(Under(c, k)))) + DuplicatesReplaced(le, WithoutId(c, k))
  }

  function JoinTables(le: ValueOrder, jt: JoinType, left: Coll<Record>, right: Coll<Record>, lc: Condition,
                      rc: Condition): Coll<OutRecord> {
    var raw := RawJoin(jt, left, right, lc, rc);
    if KeepsLeftIds(jt) then DuplicatesReplaced(le, raw) else raw
  }

  lemma {:induction false} CountUnder(c: Coll<OutRecord>, k: ResultKey, v: Value)
    ensures Count(Under(c, k), v) == Count(c, (k, v))
  {
    if c != [] {
      CountUnder(c[1..], k, v);
      CountConcat(if c[0].0.0 == k then [(c[0].0.1, c[0].1)] else [], Under(c[1..], k), v);
    }
  }

  lemma {:induction false} UnderWithoutId(c: Coll<OutRecord>, gone: ResultKey, k: ResultKey)
    ensures Under(WithoutId(c, gone), k) == if gone == k then [] else Under(c, k)
  {
    if c != [] {
      UnderWithoutId(c[1..], gone, k);
      var rest := WithoutId(c[1..], gone);
      if c[0].0.0 != gone {
        assert WithoutId(c, gone) == [c[0]] + rest && ([c[0]] + rest)[1..] == rest;
      } else {
        assert WithoutId(c, gone) == rest;
      }
    }
  }

  lemma {:induction false} CountReplaced(le: ValueOrder, c: Coll<OutRecord>, k: ResultKey, v: Value)
    ensures Count(DuplicatesReplaced(le, c), (k, v)) == Count(Resolved(le, Consolidated(Under(c, k))), v)
    decreases |c|
  {
    if c != [] {
      var first := c[0].0.0;
      var head := Resolved(le, Consolidated(Under(c, first)));
      var f := (w: Value) => (first, w);
      CountReplaced(le, WithoutId(c, first), k, v);
      UnderWithoutId(c, first, k);
      CountConcat(Mapped(f, head), DuplicatesReplaced(le, WithoutId(c, first)), (k, v));
      if k == first {
        CountMapped(f, head, v, (k, v));
        assert Consolidated<Value>([]) == [];
      } else {
        CountMappedNone(f, head, (k, v));
      }
    }
  }

  // ---------------------------------------------------------------- what becomes of a left record

  ghost predicate ManyPartners(left: Coll<Record>, right: Coll<Record>, lc: Condition, rc: Condition, l: Record) {
    exists r, s :: r != s && Joins(left, right, lc, rc, l, r) && Joins(left, right, lc, rc, l, s)
  }

  /** The value pairs a left record with one of its partners, or pads it for want of one. */
  ghost predicate Candidate(jt: JoinType, left: Coll<Record>, right: Coll<Record>, lc: Condition, rc: Condition,
                            l: Record, v: Value) {
    if RightOf(v).Some?
    then v == Paired(Some(l), RightOf(v)) && Joins(left, right, lc, rc, l, RightOf(v).value)
    else jt.LeftKeysFull? && v == Paired(Some(l), None) && !HasLeftPartner(left, right, lc, rc, l)
  }

  lemma CandidateRow(jt: JoinType, left: Coll<Record>, right: Coll<Record>, lc: Condition, rc: Condition, l: Record,
                     v: Value)
    requires IsTable(left) && KeepsLeftIds(jt) && In(left, l)
    ensures IsJoinRow(jt, left, right, lc, rc, (Own(l.0), v)) <==> Candidate(jt, left, right, lc, rc, l, v)
  {
    PairedContents(Some(l), RightOf(v));
    PairedContents(Some(l), None);
  }

  lemma RawUnderLeft(jt: JoinType, left: Coll<Record>, right: Coll<Record>, lc: Condition, rc: Condition, l: Record,
                     v: Value)
    requires IsTable(left) && IsTable(right) && KeepsLeftIds(jt) && In(left, l)
    ensures Count(Under(RawJoin(jt, left, right, lc, rc), Own(l.0)), v) ==
            if Candidate(jt, left, right, lc, rc, l, v) then 1 else 0
  {
    CountUnder(RawJoin(jt, left, right, lc, rc), Own(l.0), v);
    JoinRows(jt, left, right, lc, rc, (Own(l.0), v));
    CandidateRow(jt, left, right, lc, rc, l, v);
  }

  lemma ResolvedSingle(le: ValueOrder, c: Coll<Value>, v: Value)
    requires Count(c, v) == 1 && forall w :: w != v ==> Count(c, w) == 0
    ensures Resolved(le, Consolidated(c)) == [(v, 1)]
  {
    var input := Consolidated(c);
    var i := ConsolidatedHas(c, input, v);
    ConsolidatedCounts(c, input, 0);
    if |input| > 1 {
      ConsolidatedCounts(c, input, 1);
      ConsolidatedDistinct(c);
    }
  }

  lemma ResolvedNone(le: ValueOrder, c: Coll<Value>)
    requires forall w :: Count(c, w) == 0
    ensures Resolved(le, Consolidated(c)) == []
  {
    if Consolidated(c) != [] {
      ConsolidatedCounts(c, Consolidated(c), 0);
    }
  }

  lemma ResolvedMany(le: ValueOrder, c: Coll<Value>, v: Value, w: Value) returns (first: Value)
    requires v != w && Count(c, v) != 0 && Count(c, w) != 0
    ensures Count(c, first) != 0 && Resolved(le, Consolidated(c)) == [(Ambiguous(first), 1)]
  {
    var input := Consolidated(c);
    var i := ConsolidatedHas(c, input, v);
    var j := ConsolidatedHas(c, input, w);
    assert i != j && |input| > 1;
    first := LeastOf(le, input);
    var m :| 0 <= m < |input| && input[m].0 == first;
    ConsolidatedCounts(c, input, m);
  }

  /** What a join that keeps left ids puts under the id of a left record. */
  ghost predicate RowFor(jt: JoinType, left: Coll<Record>, right: Coll<Record>, lc: Condition, rc: Condition,
                         l: Record, v: Value) {
    if ManyPartners(left, right, lc, rc, l) then v == Tuple([Pointer(l.0), l.1, Error, Error])
    else Candidate(jt, left, right, lc, rc, l, v)
  }

  /** Values that exactly the candidates of a left record occur in, once each. */
  ghost predicate HoldsCandidates(jt: JoinType, left: Coll<Record>, right: Coll<Record>, lc: Condition,
                                  rc: Condition, l: Record,
                                  under: Coll<Value>) {
    forall w :: Count(under, w) == if Candidate(jt, left, right, lc, rc, l, w) then 1 else 0
  }

  lemma ManyResolved(le: ValueOrder, jt: JoinType, left: Coll<Record>, right: Coll<Record>, lc: Condition, rc: Condition, l: Record,
                     under: Coll<Value>)
    requires HoldsCandidates(jt, left, right, lc, rc, l, under) && ManyPartners(left, right, lc, rc, l)
    ensures Resolved(le, Consolidated(under)) == [(Tuple([Pointer(l.0), l.1, Error, Error]), 1)]
  {
    var r, s :| r != s && Joins(left, right, lc, rc, l, r) && Joins(left, right, lc, rc, l, s);
    var v, w := Paired(Some(l), Some(r)), Paired(Some(l), Some(s));
    PairedContents(Some(l), Some(r));
    PairedContents(Some(l), Some(s));
    assert Candidate(jt, left, right, lc, rc, l, v) && Candidate(jt, left, right, lc, rc, l, w);
    var first := ResolvedMany(le, under, v, w);
    assert Candidate(jt, left, right, lc, rc, l, first);
  }

  /** Without two partners there is at most one candidate, which is what stays. */
  lemma FewResolved(le: ValueOrder, jt: JoinType, left: Coll<Record>, right: Coll<Record>, lc: Condition, rc: Condition, l: Record,
                    under: Coll<Value>, v: Value)
    requires HoldsCandidates(jt, left, right, lc, rc, l, under) && !ManyPartners(left, right, lc, rc, l)
    ensures Count(Resolved(le, Consolidated(under)), v) == if Candidate(jt, left, right, lc, rc, l, v) then 1 else 0
  {
    if w :| Candidate(jt, left, right, lc, rc, l, w) {
      forall u | u != w ensures Count(under, u) == 0 {
        assert !Candidate(jt, left, right, lc, rc, l, u);
      }
      ResolvedSingle(le, under, w);
    } else {
      ResolvedNone(le, under);
    }
  }

  /**
   Joins that keep the left ids: under the id of each left record stands its match if there is exactly one, an error row
   if and only if there are two or more, and without a match its padding in the full and nothing in the subset join.
   */
  lemma LeftIdRows(le: ValueOrder, jt: JoinType, left: Coll<Record>, right: Coll<Record>, lc: Condition, rc: Condition, l: Record, v: Value)
    requires IsTable(left) && IsTable(right) && KeepsLeftIds(jt) && In(left, l)
    ensures Count(JoinTables(le, jt, left, right, lc, rc), (Own(l.0), v)) ==
            if RowFor(jt, left, right, lc, rc, l, v) then 1 else 0
  {
    var raw := RawJoin(jt, left, right, lc, rc);
    var under := Under(raw, Own(l.0));
    assert JoinTables(le, jt, left, right, lc, rc) == DuplicatesReplaced(le, raw);
    CountReplaced(le, raw, Own(l.0), v);
    forall w ensures Count(under, w) == if Candidate(jt, left, right, lc, rc, l, w) then 1 else 0 {
      RawUnderLeft(jt, left, right, lc, rc, l, w);
    }
    CandidatesResolved(le, jt, left, right, lc, rc, l, under, v);
  }

  lemma CandidatesResolved(le: ValueOrder, jt: JoinType, left: Coll<Record>, right: Coll<Record>, lc: Condition, rc: Condition, l: Record,
                           under: Coll<Value>, v: Value)
    requires HoldsCandidates(jt, left, right, lc, rc, l, under)
    ensures Count(Resolved(le, Consolidated(under)), v) == if RowFor(jt, left, right, lc, rc, l, v) then 1 else 0
  {
    if ManyPartners(left, right, lc, rc, l) {
      ManyResolved(le, jt, left, right, lc, rc, l, under);
      CountOne(Tuple([Pointer(l.0), l.1, Error, Error]), v);
    } else {
      FewResolved(le, jt, left, right, lc, rc, l, under, v);
    }
  }

  lemma CountOne(w: Value, v: Value)
    ensures Count([(w, 1)], v) == if w == v then 1 else 0
  {}

  ghost predicate IsLeftId(left: Coll<Record>, k: ResultKey) {
    exists l :: In(left, l) && k == Own(l.0)
  }

  lemma RawLeftIds(jt: JoinType, left: Coll<Record>, right: Coll<Record>, lc: Condition, rc: Condition, y: OutRecord)
    requires KeepsLeftIds(jt) && IsJoinRow(jt, left, right, lc, rc, y)
    ensures IsLeftId(left, y.0)
  {
    assert In(left, LeftOf(y.1).value);
  }

  /** No other ids appear. */
  lemma OnlyLeftIds(le: ValueOrder, jt: JoinType, left: Coll<Record>, right: Coll<Record>, lc: Condition, rc: Condition, y: OutRecord)
    requires IsTable(left) && IsTable(right) && KeepsLeftIds(jt) && !IsLeftId(left, y.0)
    ensures Count(JoinTables(le, jt, left, right, lc, rc), y) == 0
  {
    var raw := RawJoin(jt, left, right, lc, rc);
    CountReplaced(le, raw, y.0, y.1);
    forall w ensures Count(Under(raw, y.0), w) == 0 {
      CountUnder(raw, y.0, w);
      JoinRows(jt, left, right, lc, rc, (y.0, w));
      if IsJoinRow(jt, left, right, lc, rc, (y.0, w)) {
        RawLeftIds(jt, left, right, lc, rc, (y.0, w));
      }
    }
    ResolvedNone(le, Under(raw, y.0));
  }

  /** The full join gives every left id exactly one row. */
  lemma LeftKeysFullTotal(le: ValueOrder, left: Coll<Record>, right: Coll<Record>, lc: Condition, rc: Condition,
                          l: Record) returns (v: Value)
    requires IsTable(left) && IsTable(right) && In(left, l)
    ensures forall w :: Count(JoinTables(le, LeftKeysFull, left, right, lc, rc), (Own(l.0), w)) == if w == v then 1 else 0
  {
    v := OnlyRow(left, right, lc, rc, l);
    forall w ensures Count(JoinTables(le, LeftKeysFull, left, right, lc, rc), (Own(l.0), w)) == if w == v then 1 else 0 {
      LeftIdRows(le, LeftKeysFull, left, right, lc, rc, l, w);
      assert RowFor(LeftKeysFull, left, right, lc, rc, l, w) <==> w == v;
    }
  }

  lemma OnlyRow(left: Coll<Record>, right: Coll<Record>, lc: Condition, rc: Condition, l: Record) returns (v: Value)
    ensures forall w :: RowFor(LeftKeysFull, left, right, lc, rc, l, w) <==> w == v
  {
    if ManyPartners(left, right, lc, rc, l) {
      v := Tuple([Pointer(l.0), l.1, Error, Error]);
    } else if r :| Joins(left, right, lc, rc, l, r) {
      v := Paired(Some(l), Some(r));
      PairedContents(Some(l), Some(r));
    } else {
      v := Paired(Some(l), None);
      PairedContents(Some(l), None);
    }
  }

  // ---------------------------------------------------------------- left ids and any multiplicities

  /** The only row under its id, once. */
  ghost predicate OnlyRaw(jt: JoinType, left: Coll<Record>, right: Coll<Record>, lc: Condition, rc: Condition, y: OutRecord) {
    RawCount(jt, left, right, lc, rc, y) == 1 &&
    forall w :: w != y.1 ==> RawCount(jt, left, right, lc, rc, (y.0, w)) == 0
  }

  /** The least value that occurs under an id. */
  ghost predicate LeastRaw(le: ValueOrder, jt: JoinType, left: Coll<Record>, right: Coll<Record>, lc: Condition,
                           rc: Condition, k: ResultKey, v: Value) {
    RawCount(jt, left, right, lc, rc, (k, v)) != 0 &&
    forall w :: RawCount(jt, left, right, lc, rc, (k, w)) != 0 ==> le(v, w)
  }

  ghost predicate IsErrorRow(le: ValueOrder, jt: JoinType, left: Coll<Record>, right: Coll<Record>, lc: Condition,
                             rc: Condition, y: OutRecord) {
    exists w :: LeastRaw(le, jt, left, right, lc, rc, y.0, w) && y.1 == Ambiguous(w)
  }

  /** What a join that keeps left ids puts under an id, whatever the multiplicities of the left records. */
  ghost predicate IsIdRow(le: ValueOrder, jt: JoinType, left: Coll<Record>, right: Coll<Record>, lc: Condition,
                          rc: Condition, y: OutRecord) {
    if exists w :: OnlyRaw(jt, left, right, lc, rc, (y.0, w)) then OnlyRaw(jt, left, right, lc, rc, y)
    else IsErrorRow(le, jt, left, right, lc, rc, y)
  }

  lemma {:induction false} LeastOfIsLeast(le: ValueOrder, input: Coll<Value>, i: nat)
    requires TotalOrder(le) && i < |input|
    ensures le(LeastOf(le, input), input[i].0)
    decreases |input|
  {
    if |input| > 1 {
      LeastOfIsLeast(le, input[1..], if i > 0 then i - 1 else 0);
    }
  }

  /** The values under an id are counted by `RawCount`. */
  ghost predicate HoldsRaw(jt: JoinType, left: Coll<Record>, right: Coll<Record>, lc: Condition, rc: Condition,
                           k: ResultKey, under: Coll<Value>) {
    forall w :: Count(under, w) == RawCount(jt, left, right, lc, rc, (k, w))
  }

  lemma RawUnder(jt: JoinType, left: Coll<Record>, right: Coll<Record>, lc: Condition, rc: Condition, k: ResultKey)
    requires IsTable(right) && !KeepsUnmatchedRight(jt)
    ensures HoldsRaw(jt, left, right, lc, rc, k, Under(RawJoin(jt, left, right, lc, rc), k))
  {
    var raw := RawJoin(jt, left, right, lc, rc);
    forall w ensures Count(Under(raw, k), w) == RawCount(jt, left, right, lc, rc, (k, w)) {
      CountUnder(raw, k, w);
      SignedJoinRows(jt, left, right, lc, rc, (k, w));
    }
  }

  ghost predicate Only(c: Coll<Value>, v: Value) {
    Count(c, v) == 1 && forall w :: w != v ==> Count(c, w) == 0
  }

  ghost predicate Least(le: ValueOrder, c: Coll<Value>, v: Value) {
    Count(c, v) != 0 && forall w :: Count(c, w) != 0 ==> le(v, w)
  }

  /** What the reduction makes of the values under an id, by their multiplicities. */
  ghost predicate ResolvesTo(le: ValueOrder, c: Coll<Value>, v: Value) {
    if exists w :: Only(c, w) then Only(c, v) else exists w :: Least(le, c, w) && v == Ambiguous(w)
  }

  /** Values of which none is the only one, once: the least of them becomes the error. */
  lemma ErrorResolved(le: ValueOrder, c: Coll<Value>, v: Value) returns (first: Value)
    requires TotalOrder(le) && Count(c, v) != 0 && forall w :: !Only(c, w)
    ensures Least(le, c, first) && Resolved(le, Consolidated(c)) == [(Ambiguous(first), 1)]
  {
    var input := Consolidated(c);
    var i := ConsolidatedHas(c, input, v);
    first := LeastOf(le, input);
    var m :| 0 <= m < |input| && input[m].0 == first;
    ConsolidatedCounts(c, input, m);
    forall w | Count(c, w) != 0 ensures le(first, w) {
      var j := ConsolidatedHas(c, input, w);
      LeastOfIsLeast(le, input, j);
    }
    ConsolidatedCounts(c, input, 0);
    if |input| == 1 && input[0].1 == 1 {
      assert !Only(c, input[0].0);
      var u :| u != input[0].0 && Count(c, u) != 0;
      var j := ConsolidatedHas(c, input, u);
    }
  }

  lemma ResolvedToError(le: ValueOrder, c: Coll<Value>, v: Value, some: Value)
    requires TotalOrder(le) && Count(c, some) != 0 && forall w :: !Only(c, w)
    ensures Count(Resolved(le, Consolidated(c)), v) == if exists w :: Least(le, c, w) && v == Ambiguous(w) then 1 else 0
  {
    var first := ErrorResolved(le, c, some);
    forall w | Least(le, c, w) ensures w == first {
      assert le(first, w) && le(w, first);
    }
    CountOne(Ambiguous(first), v);
  }

  lemma ResolvedRows(le: ValueOrder, c: Coll<Value>, v: Value)
    requires TotalOrder(le)
    ensures Count(Resolved(le, Consolidated(c)), v) == if ResolvesTo(le, c, v) then 1 else 0
  {
    if w :| Only(c, w) {
      ResolvedSingle(le, c, w);
      CountOne(w, v);
    } else if some :| Count(c, some) != 0 {
      ResolvedToError(le, c, v, some);
    } else {
      ResolvedNone(le, c);
    }
  }

  lemma RawResolvesTo(le: ValueOrder, jt: JoinType, left: Coll<Record>, right: Coll<Record>, lc: Condition, rc: Condition,
                      y: OutRecord, under: Coll<Value>)
    requires HoldsRaw(jt, left, right, lc, rc, y.0, under)
    ensures ResolvesTo(le, under, y.1) <==> IsIdRow(le, jt, left, right, lc, rc, y)
  {
    forall w ensures Only(under, w) <==> OnlyRaw(jt, left, right, lc, rc, (y.0, w)) {
      OnlyIsOnlyRaw(jt, left, right, lc, rc, y.0, under, w);
    }
    forall w ensures Least(le, under, w) <==> LeastRaw(le, jt, left, right, lc, rc, y.0, w) {
      LeastIsLeastRaw(le, jt, left, right, lc, rc, y.0, under, w);
    }
  }

  lemma OnlyIsOnlyRaw(jt: JoinType, left: Coll<Record>, right: Coll<Record>, lc: Condition, rc: Condition, k: ResultKey,
                      under: Coll<Value>, v: Value)
    requires HoldsRaw(jt, left, right, lc, rc, k, under)
    ensures Only(under, v) <==> OnlyRaw(jt, left, right, lc, rc, (k, v))
  {
    if Only(under, v) {
      forall w | w != v ensures RawCount(jt, left, right, lc, rc, (k, w)) == 0 {
        assert Count(under, w) == 0;
      }
    } else if Count(under, v) == 1 {
      var w :| w != v && Count(under, w) != 0;
      assert RawCount(jt, left, right, lc, rc, (k, w)) != 0;
    }
  }

  lemma LeastIsLeastRaw(le: ValueOrder, jt: JoinType, left: Coll<Record>, right: Coll<Record>, lc: Condition, rc: Condition,
                        k: ResultKey, under: Coll<Value>, v: Value)
    requires HoldsRaw(jt, left, right, lc, rc, k, under)
    ensures Least(le, under, v) <==> LeastRaw(le, jt, left, right, lc, rc, k, v)
  {
    if Least(le, under, v) {
      forall w | RawCount(jt, left, right, lc, rc, (k, w)) != 0 ensures le(v, w) {
        assert Count(under, w) != 0;
      }
    } else if Count(under, v) != 0 {
      var w :| Count(under, w) != 0 && !le(v, w);
      assert RawCount(jt, left, right, lc, rc, (k, w)) != 0;
    }
  }

  /**
   For any left side: under an id stands its only row if there is just one, once; an error row with the left half of the
   least one if there are others or the multiplicity is not one; and nothing if there is none.
   */
  lemma SignedIdRows(le: ValueOrder, jt: JoinType, left: Coll<Record>, right: Coll<Record>, lc: Condition, rc: Condition,
                     y: OutRecord)
    requires TotalOrder(le) && IsTable(right) && KeepsLeftIds(jt)
    ensures Count(JoinTables(le, jt, left, right, lc, rc), y) == if IsIdRow(le, jt, left, right, lc, rc, y) then 1 else 0
  {
    var raw := RawJoin(jt, left, right, lc, rc);
    assert JoinTables(le, jt, left, right, lc, rc) == DuplicatesReplaced(le, raw);
    CountReplaced(le, raw, y.0, y.1);
    RawUnder(jt, left, right, lc, rc, y.0);
    ResolvedRows(le, Under(raw, y.0), y.1);
    RawResolvesTo(le, jt, left, right, lc, rc, y, Under(raw, y.0));
  }
}
