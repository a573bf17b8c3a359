/**
 Collections of a differential dataflow at one time: lists of signed diffs, of which only the total per record
 matters, and the operators from which the relational operators are built.
 */
module Collections {
  import opened Values
  import opened Sorting

  type Coll<T> = seq<(T, int)>

  /** The multiplicity of a record. */
  function Count<T(==)>(c: Coll<T>, x: T): int {
    if c == [] then 0 else (if c[0].0 == x then c[0].1 else 0) + Count(c[1..], x)
  }

  function Mapped<A, B>(f: A -> B, c: Coll<A>): (d: Coll<B>)
    ensures |d| == |c| && forall i :: 0 <= i < |c| ==> d[i] == (f(c[i].0), c[i].1)
  {
    seq(|c|, i requires 0 <= i < |c| => (f(c[i].0), c[i].1))
  }

  function Negated<T>(c: Coll<T>): (d: Coll<T>)
    ensures |d| == |c|
  {
    seq(|c|, i requires 0 <= i < |c| => (c[i].0, -c[i].1))
  }

  /** `flat_map` with the optional first component: records without one are dropped. */
  function Keyed<K, T>(c: Coll<(Option<K>, T)>): Coll<(K, T)> {
    if c == [] then []
    else (if c[0].0.0.Some? then [((c[0].0.0.value, c[0].0.1), c[0].1)] else []) + Keyed(c[1..])
  }

  function JoinedOne<K(==), A, B>(k: K, a: A, n: int, right: Coll<(K, B)>): Coll<(K, A, B)> {
    if right == [] then []
    else (if right[0].0.0 == k then [((k, a, right[0].0.1), n * right[0].1)] else []) + JoinedOne(k, a, n, right[1..])
  }

  /** `join_core`: multiplicities of records with equal keys multiply. */
  function Joined<K(==), A, B>(left: Coll<(K, A)>, right: Coll<(K, B)>): Coll<(K, A, B)> {
    if left == [] then []
    else JoinedOne(left[0].0.0, left[0].0.1, left[0].1, right) + Joined(left[1..], right)
  }

  /** Every diff of one record removed. */
  function Without<T(==)>(c: Coll<T>, x: T): (d: Coll<T>)
    ensures |d| <= |c|
    ensures c != [] && c[0].0 == x ==> |d| < |c|
  {
    if c == [] then [] else (if c[0].0 == x then [] else [c[0]]) + Without(c[1..], x)
  }

  /** `distinct`: records of positive multiplicity, once each. */
  function Distinct<T(==)>(c: Coll<T>): Coll<T>
    decreases |c|
  {
    if c == [] then []
    else (if Count(c, c[0].0) > 0 then [(c[0].0, 1)] else []) + Distinct(Without(c, c[0].0))
  }

  lemma {:induction false} CountConcat<T>(a: Coll<T>, b: Coll<T>, x: T)
    ensures Count(a + b, x) == Count(a, x) + Count(b, x)
  {
    if a == [] {
      assert a + b == b;
    } else {
      CountConcat(a[1..], b, x);
      assert (a + b)[1..] == a[1..] + b;
    }
  }

  /** Multiplicities do not depend on the order of the diffs. */
  lemma {:induction false} CountRearranged<T>(a: Coll<T>, b: Coll<T>, x: T)
    requires multiset(a) == multiset(b)
    ensures Count(a, x) == Count(b, x)
  {
    if a == [] {
      EmptyRearranged(b);
    } else {
      var i := PlaceOfFirst(a, b);
      CountRearranged(a[1..], b[..i] + b[i + 1..], x);
      CountConcat(b[..i], b[i + 1..], x);
      CountConcat(b[..i] + [b[i]], b[i + 1..], x);
      CountConcat(b[..i], [b[i]], x);
    }
  }

  lemma {:induction false} CountNegated<T>(c: Coll<T>, x: T)
    ensures Count(Negated(c), x) == -Count(c, x)
  {
    if c != [] {
      CountNegated(c[1..], x);
      assert Negated(c)[1..] == Negated(c[1..]);
    }
  }

  /** A record that is the only preimage of its image keeps its multiplicity. */
  lemma {:induction false} CountMapped<A, B>(f: A -> B, c: Coll<A>, x: A, y: B)
    requires forall i :: 0 <= i < |c| ==> (f(c[i].0) == y <==> c[i].0 == x)
    ensures Count(Mapped(f, c), y) == Count(c, x)
  {
    if c != [] {
      CountMapped(f, c[1..], x, y);
      assert Mapped(f, c)[1..] == Mapped(f, c[1..]);
    }
  }

  lemma MappedConcat<A, B>(f: A -> B, a: Coll<A>, b: Coll<A>)
    ensures Mapped(f, a + b) == Mapped(f, a) + Mapped(f, b)
  {}

  lemma {:induction false} CountMappedNone<A, B>(f: A -> B, c: Coll<A>, y: B)
    requires forall i :: 0 <= i < |c| ==> f(c[i].0) != y
    ensures Count(Mapped(f, c), y) == 0
  {
    if c != [] {
      CountMappedNone(f, c[1..], y);
      assert Mapped(f, c)[1..] == Mapped(f, c[1..]);
    }
  }

  lemma {:induction false} CountKeyed<K, T>(c: Coll<(Option<K>, T)>, k: K, x: T)
    ensures Count(Keyed(c), (k, x)) == Count(c, (Some(k), x))
  {
    if c != [] {
      CountKeyed(c[1..], k, x);
      CountConcat(if c[0].0.0.Some? then [((c[0].0.0.value, c[0].0.1), c[0].1)] else [], Keyed(c[1..]), (k, x));
    }
  }

  lemma {:induction false} CountJoinedOne<K, A, B>(k: K, a: A, n: int, right: Coll<(K, B)>, j: K, x: A, y: B)
    ensures Count(JoinedOne(k, a, n, right), (j, x, y)) == if k == j && a == x then n * Count(right, (j, y)) else 0
  {
    if right != [] {
      CountJoinedOne(k, a, n, right[1..], j, x, y);
      var one := if right[0].0.0 == k then [((k, a, right[0].0.1), n * right[0].1)] else [];
      CountConcat(one, JoinedOne(k, a, n, right[1..]), (j, x, y));
      var here, later := if right[0].0 == (j, y) then right[0].1 else 0, Count(right[1..], (j, y));
      assert Count(one, (j, x, y)) == if k == j && a == x then n * here else 0;
      assert Count(right, (j, y)) == here + later;
      Distribute(here, later, n);
    }
  }

  lemma {:induction false} CountJoined<K, A, B>(left: Coll<(K, A)>, right: Coll<(K, B)>, j: K, x: A, y: B)
    ensures Count(Joined(left, right), (j, x, y)) == Count(left, (j, x)) * Count(right, (j, y))
  {
    if left != [] {
      var k, a, n := left[0].0.0, left[0].0.1, left[0].1;
      CountJoined(left[1..], right, j, x, y);
      CountJoinedOne(k, a, n, right, j, x, y);
      CountConcat(JoinedOne(k, a, n, right), Joined(left[1..], right), (j, x, y));
      var here, later := if k == j && a == x then n else 0, Count(left[1..], (j, x));
      assert Count(left, (j, x)) == here + later;
      Distribute(here, later, Count(right, (j, y)));
    }
  }

  lemma {:induction false} CountWithout<T>(c: Coll<T>, x: T, y: T)
    ensures Count(Without(c, x), y) == if x == y then 0 else Count(c, y)
  {
    if c != [] {
      CountWithout(c[1..], x, y);
      CountConcat(if c[0].0 == x then [] else [c[0]], Without(c[1..], x), y);
    }
  }

  lemma {:induction false} CountDistinct<T>(c: Coll<T>, x: T)
    ensures Count(Distinct(c), x) == if Count(c, x) > 0 then 1 else 0
    decreases |c|
  {
    if c != [] {
      var first := c[0].0;
      CountDistinct(Without(c, first), x);
      CountWithout(c, first, x);
      CountConcat(if Count(c, first) > 0 then [(first, 1)] else [], Distinct(Without(c, first)), x);
    }
  }

  // ---------------------------------------------------------------- totals per key

  /** The sum of the multiplicities of all records with key `k`. */
  function Total<K(==), B>(c: Coll<(K, B)>, k: K): int {
    if c == [] then 0 else (if c[0].0.0 == k then c[0].1 else 0) + Total(c[1..], k)
  }

  lemma {:induction false} TotalWithout<K, B>(c: Coll<(K, B)>, x: (K, B), k: K)
    ensures Total(c, k) == Total(Without(c, x), k) + (if x.0 == k then Count(c, x) else 0)
  {
    if c != [] {
      TotalWithout(c[1..], x, k);
      var rest := Without(c[1..], x);
      if c[0].0 != x {
        assert Without(c, x) == [c[0]] + rest && ([c[0]] + rest)[1..] == rest;
      } else {
        assert Without(c, x) == rest;
      }
    }
  }

  /** With no negative multiplicities, a total is positive exactly when some record of the key is present. */
  lemma {:induction false} TotalPositive<K(!new), B(!new)>(c: Coll<(K, B)>, k: K)
    requires forall x: (K, B) :: Count(c, x) >= 0
    ensures Total(c, k) >= 0
    ensures Total(c, k) > 0 <==> exists b: B :: Count(c, (k, b)) > 0
    decreases |c|
  {
    if c == [] {
    } else {
      var x := c[0].0;
      var rest := Without(c, x);
      forall y: (K, B) ensures Count(rest, y) == if x == y then 0 else Count(c, y) {
        CountWithout(c, x, y);
      }
      TotalPositive(rest, k);
      TotalWithout(c, x, k);
      if Total(rest, k) > 0 {
        var b: B :| Count(rest, (k, b)) > 0;
        assert Count(c, (k, b)) > 0;
      } else if x.0 == k && Count(c, x) > 0 {
        assert Count(c, (k, x.1)) > 0;
      } else {
        forall b: B ensures Count(c, (k, b)) <= 0 {
          assert Count(rest, (k, b)) == if x == (k, b) then 0 else Count(c, (k, b));
        }
      }
    }
  }

  /** Keeping only key and left record of a join multiplies by the total of the key on the right. */
  lemma {:induction false} CountJoinedLeft<K, A, B>(left: Coll<(K, A)>, right: Coll<(K, B)>,
                                                    f: ((K, A, B)) -> (K, A), j: K, x: A)
    requires forall t: (K, A, B) :: f(t) == (t.0, t.1)
    ensures Count(Mapped(f, Joined(left, right)), (j, x)) == Count(left, (j, x)) * Total(right, j)
  {
    if left != [] {
      var k, a, n := left[0].0.0, left[0].0.1, left[0].1;
      CountJoinedLeft(left[1..], right, f, j, x);
      CountJoinedOneLeft(k, a, n, right, f, j, x);
      var one, rest := JoinedOne(k, a, n, right), Joined(left[1..], right);
      MappedConcat(f, one, rest);
      CountConcat(Mapped(f, one), Mapped(f, rest), (j, x));
      var here, later := if k == j && a == x then n else 0, Count(left[1..], (j, x));
      assert Count(left, (j, x)) == here + later;
      Distribute(here, later, Total(right, j));
    }
  }

  lemma {:induction false} CountJoinedOneLeft<K, A, B>(k: K, a: A, n: int, right: Coll<(K, B)>,
                                                       f: ((K, A, B)) -> (K, A), j: K, x: A)
    requires forall t: (K, A, B) :: f(t) == (t.0, t.1)
    ensures Count(Mapped(f, JoinedOne(k, a, n, right)), (j, x)) == if k == j && a == x then n * Total(right, j) else 0
  {
    if right != [] {
      CountJoinedOneLeft(k, a, n, right[1..], f, j, x);
      var one := if right[0].0.0 == k then [((k, a, right[0].0.1), n * right[0].1)] else [];
      var rest := JoinedOne(k, a, n, right[1..]);
      MappedConcat(f, one, rest);
      CountConcat(Mapped(f, one), Mapped(f, rest), (j, x));
      if right[0].0.0 == k {
        assert Mapped(f, one) == [((k, a), n * right[0].1)];
        assert Count([((k, a), n * right[0].1)], (j, x)) == if k == j && a == x then n * right[0].1 else 0;
      }
      Distribute(if right[0].0.0 == j then right[0].1 else 0, Total(right[1..], j), n);
    }
  }

  /** Keeping only key and right record multiplies by the total of the key on the left. */
  lemma {:induction false} CountJoinedRight<K, A, B>(left: Coll<(K, A)>, right: Coll<(K, B)>,
                                                     f: ((K, A, B)) -> (K, B), j: K, y: B)
    requires forall t: (K, A, B) :: f(t) == (t.0, t.2)
    ensures Count(Mapped(f, Joined(left, right)), (j, y)) == Total(left, j) * Count(right, (j, y))
  {
    if left != [] {
      var k, a, n := left[0].0.0, left[0].0.1, left[0].1;
      CountJoinedRight(left[1..], right, f, j, y);
      CountJoinedOneRight(k, a, n, right, f, j, y);
      var one, rest := JoinedOne(k, a, n, right), Joined(left[1..], right);
      MappedConcat(f, one, rest);
      CountConcat(Mapped(f, one), Mapped(f, rest), (j, y));
      var here, later, x := if k == j then n else 0, Total(left[1..], j), Count(right, (j, y));
      assert Total(left, j) == here + later;
      Distribute(here, later, x);
    }
  }

  lemma Distribute(a: int, b: int, x: int)
    ensures (a + b) * x == a * x + b * x && x * (a + b) == x * a + x * b
  {}

  lemma {:induction false} CountJoinedOneRight<K, A, B>(k: K, a: A, n: int, right: Coll<(K, B)>,
                                                        f: ((K, A, B)) -> (K, B), j: K, y: B)
    requires forall t: (K, A, B) :: f(t) == (t.0, t.2)
    ensures Count(Mapped(f, JoinedOne(k, a, n, right)), (j, y)) == if k == j then n * Count(right, (j, y)) else 0
  {
    if right != [] {
      CountJoinedOneRight(k, a, n, right[1..], f, j, y);
      var one := if right[0].0.0 == k then [((k, a, right[0].0.1), n * right[0].1)] else [];
      var rest := JoinedOne(k, a, n, right[1..]);
      MappedConcat(f, one, rest);
      CountConcat(Mapped(f, one), Mapped(f, rest), (j, y));
      var here := if right[0].0 == (j, y) then right[0].1 else 0;
      assert Count(Mapped(f, one), (j, y)) == if k == j then n * here else 0 by {
        if right[0].0.0 == k {
          assert Mapped(f, one) == [((k, right[0].0.1), n * right[0].1)];
        }
      }
      assert Count(right, (j, y)) == here + Count(right[1..], (j, y));
      Distribute(here, Count(right[1..], (j, y)), n);
    }
  }

  // ---------------------------------------------------------------- properties of all records

  ghost predicate AllRecords<T>(c: Coll<T>, p: T -> bool) {
    forall i :: 0 <= i < |c| ==> p(c[i].0)
  }

  lemma {:induction false} AllRecordsWithout<T>(c: Coll<T>, x: T, p: T -> bool)
    requires AllRecords(c, p)
    ensures AllRecords(Without(c, x), p)
  {
    if c != [] {
      AllRecordsWithout(c[1..], x, p);
    }
  }

  lemma {:induction false} AllRecordsDistinct<T>(c: Coll<T>, p: T -> bool)
    requires AllRecords(c, p)
    ensures AllRecords(Distinct(c), p)
    decreases |c|
  {
    if c != [] {
      AllRecordsWithout(c, c[0].0, p);
      AllRecordsDistinct(Without(c, c[0].0), p);
    }
  }

  /** What holds of the records on either side of a join holds of their combination. */
  lemma {:induction false} AllRecordsJoined<K, A, B>(left: Coll<(K, A)>, right: Coll<(K, B)>, p: ((K, A)) -> bool,
                                                     q: ((K, B)) -> bool)
    requires AllRecords(left, p) && AllRecords(right, q)
    ensures AllRecords(Joined(left, right), (t: (K, A, B)) => p((t.0, t.1)) && q((t.0, t.2)))
  {
    if left != [] {
      AllRecordsJoined(left[1..], right, p, q);
      AllRecordsJoinedOne(left[0].0.0, left[0].0.1, left[0].1, right, p, q);
    }
  }

  lemma {:induction false} AllRecordsJoinedOne<K, A, B>(k: K, a: A, n: int, right: Coll<(K, B)>,
                                                        p: ((K, A)) -> bool, q: ((K, B)) -> bool)
    requires p((k, a)) && AllRecords(right, q)
    ensures AllRecords(JoinedOne(k, a, n, right), (t: (K, A, B)) => p((t.0, t.1)) && q((t.0, t.2)))
  {
    if right != [] {
      AllRecordsJoinedOne(k, a, n, right[1..], p, q);
    }
  }

  // ---------------------------------------------------------------- consolidation

  /** The first record with its multiplicity, unless that is zero. */
  function Lead<T(==)>(c: Coll<T>): Coll<T>
    requires c != []
  {
    if Count(c, c[0].0) != 0 then [(c[0].0, Count(c, c[0].0))] else []
  }

  /** The records of nonzero multiplicity, each with its multiplicity: what a `reduce` closure is given. */
  function Consolidated<T(==)>(c: Coll<T>): Coll<T>
    decreases |c|
  {
    if c == [] then [] else Lead(c) + Consolidated(Without(c, c[0].0))
  }

  /** `d`, the consolidated form of `c`, has each record with its multiplicity, which is not zero. */
  lemma {:induction false} ConsolidatedCounts<T>(c: Coll<T>, d: Coll<T>, i: nat)
    requires d == Consolidated(c) && i < |d|
    ensures d[i].1 == Count(c, d[i].0) != 0
    decreases |c|
  {
    var rest := Without(c, c[0].0);
    var tail := Consolidated(rest);
    if |d| > |tail| && i == 0 {
      CountOfLead(c, d, tail);
    } else {
      var j := i - (|d| - |tail|);
      ConsolidatedCounts(rest, tail, j);
      CountOfLater(c, rest, tail[j]);
    }
  }

  lemma CountOfLead<T>(c: Coll<T>, d: Coll<T>, tail: Coll<T>)
    requires c != [] && d == Lead(c) + tail && |d| > |tail|
    ensures d[0].1 == Count(c, d[0].0) != 0
  {}

  lemma CountOfLater<T>(c: Coll<T>, rest: Coll<T>, entry: (T, int))
    requires c != [] && rest == Without(c, c[0].0) && entry.1 == Count(rest, entry.0) != 0
    ensures entry.1 == Count(c, entry.0)
  {
    CountWithout(c, c[0].0, entry.0);
  }

  /** Every record of nonzero multiplicity is there. */
  lemma {:induction false} ConsolidatedHas<T>(c: Coll<T>, d: Coll<T>, x: T) returns (i: nat)
    requires d == Consolidated(c) && Count(c, x) != 0
    ensures i < |d| && d[i].0 == x
    decreases |c|
  {
    var lead, rest := Lead(c), Without(c, c[0].0);
    var tail := Consolidated(rest);
    assert d == lead + tail;
    if x == c[0].0 {
      i := 0;
    } else {
      CountWithout(c, c[0].0, x);
      var j := ConsolidatedHas(rest, tail, x);
      i := |lead| + j;
    }
  }

  predicate AllDistinct<T(==)>(d: Coll<T>) {
    forall i, j :: 0 <= i < j < |d| ==> d[i].0 != d[j].0
  }

  lemma DistinctAfterLead<T>(lead: Coll<T>, tail: Coll<T>)
    requires |lead| <= 1 && AllDistinct(tail) && forall j :: 0 <= j < |tail| && lead != [] ==> tail[j].0 != lead[0].0
    ensures AllDistinct(lead + tail)
  {}

  lemma {:induction false} ConsolidatedDistinct<T>(c: Coll<T>)
    ensures AllDistinct(Consolidated(c))
    decreases |c|
  {
    if c != [] {
      var tail := Consolidated(Without(c, c[0].0));
      ConsolidatedDistinct(Without(c, c[0].0));
      forall j | 0 <= j < |tail| && Lead(c) != [] ensures tail[j].0 != Lead(c)[0].0 {
        LeadNotInRest(c, tail, j);
      }
      DistinctAfterLead(Lead(c), tail);
    }
  }

  /** What follows the first record is about other records. */
  lemma LeadNotInRest<T>(c: Coll<T>, tail: Coll<T>, j: nat)
    requires c != [] && tail == Consolidated(Without(c, c[0].0)) && j < |tail|
    ensures tail[j].0 != c[0].0
  {
    ConsolidatedCounts(Without(c, c[0].0), tail, j);
    CountWithout(c, c[0].0, c[0].0);
  }
}
