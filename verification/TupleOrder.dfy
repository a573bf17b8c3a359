/**
 Comparison and equality of tuples in expressions. Numbers compare across integers and floats, nested tuples element
 by element; every pair of elements is looked at, so an unsupported pair is an error even after the result is clear.
 */
module TupleOrder {
  import opened Values
  import opened Sorting

  datatype Ordering = Less | Equal | Greater

  datatype SimpleType = NoneT | BoolT | IntT | FloatT | PointerT | StringT | TupleT | IntArrayT | FloatArrayT
    | DateTimeNaiveT | DateTimeUtcT | DurationT | BytesT | JsonT | ErrorT | PyObjectWrapperT

  /** `ValueError` with the two types that its message names. */
  datatype NotSupported = NotSupported(left: SimpleType, right: SimpleType)

  function TypeOf(v: Value): SimpleType {
    match v
    case Null => NoneT
    case Bool(_) => BoolT
    case Int(_) => IntT
    case Real(_) => FloatT
    case Pointer(_) => PointerT
    case Text(_) => StringT
    case Bytes(_) => BytesT
    case Tuple(_) => TupleT
    case IntArray(_) => IntArrayT
    case FloatArray(_) => FloatArrayT
    case DateTimeNaive(_) => DateTimeNaiveT
    case DateTimeUtc(_) => DateTimeUtcT
    case Duration(_) => DurationT
    case Json(_) => JsonT
    case Error => ErrorT
    case PyObject(_) => PyObjectWrapperT
  }

  // ---------------------------------------------------------------- integers as floats

  const MANTISSA: nat := 0x20_0000_0000_0000

  /** How many low bits of a natural number do not fit into the 53 bits of a mantissa. */
  function Excess(n: nat): nat {
    if n < MANTISSA then 0 else 1 + Excess(n / 2)
  }

  function Pow2(e: nat): (p: nat)
    ensures p > 0
  {
    if e == 0 then 1 else 2 * Pow2(e - 1)
  }

  /** The nearest quotient, ties to the even one. */
  function Nearest(n: nat, unit: nat): nat
    requires unit > 0
  {
    var q, rem := n / unit, n % unit;
    if 2 * rem > unit || (2 * rem == unit && q % 2 == 1) then q + 1 else q
  }

  /** To the nearest multiple of the last bit that fits. */
  function RoundedNat(n: nat): nat {
    Nearest(n, Pow2(Excess(n))) * Pow2(Excess(n))
  }

  function Rounded(i: int): int {
    if i >= 0 then RoundedNat(i) else 0 - RoundedNat(-i)
  }

  /** `as f64`. */
  function AsFloat(i: int): Float {
    Finite(Rounded(i) as real)
  }

  predicate Exact(i: int) {
    Rounded(i) == i
  }

  // ---------------------------------------------------------------- comparing single values

  function Reversed(o: Ordering): Ordering {
    match o case Less => Greater case Equal => Equal case Greater => Less
  }

  function CmpInt(a: int, b: int): Ordering {
    if a < b then Less else if a == b then Equal else Greater
  }

  function FloatClass(f: Float): int {
    match f case NegInf => 0 case Finite(_) => 1 case PosInf => 2 case NaN => 3
  }

  function CmpFloat(a: Float, b: Float): Ordering {
    if a.Finite? && b.Finite? then (if a.r < b.r then Less else if a.r == b.r then Equal else Greater)
    else CmpInt(FloatClass(a), FloatClass(b))
  }

  function CmpSeq(a: seq<nat>, b: seq<nat>): Ordering {
    if a == b then Equal else if LexLe(a, b) then Less else Greater
  }

  function Codes(s: string): seq<nat> {
    seq(|s|, i requires 0 <= i < |s| => s[i] as nat)
  }

  /** The derived order of two values of the same type, tuples aside. */
  function CmpScalar(a: Value, b: Value): Ordering
    requires TypeOf(a) == TypeOf(b) && !a.Tuple?
  {
    match a
    case Null => Equal
    case Bool(x) => CmpInt(if x then 1 else 0, if b.b then 1 else 0)
    case Int(x) => CmpInt(x, b.i)
    case Real(x) => CmpFloat(x, b.f)
    case Pointer(x) => CmpInt(x, b.key)
    case Text(x) => CmpSeq(Codes(x), Codes(b.s))
    case Bytes(x) => CmpSeq(x, b.bs)
    case IntArray(x) => CmpInt(x, b.handle)
    case FloatArray(x) => CmpInt(x, b.handle)
    case DateTimeNaive(x) => CmpInt(x, b.ns)
    case DateTimeUtc(x) => CmpInt(x, b.ns)
    case Duration(x) => CmpInt(x, b.ns)
    case Json(x) => CmpInt(x, b.handle)
    case Error => Equal
    case PyObject(x) => CmpInt(x, b.handle)
  }

  predicate Incomparable(t: SimpleType) {
    t.JsonT? || t.IntArrayT? || t.FloatArrayT?
  }

  // ---------------------------------------------------------------- the two functions

  function ComparedOne(a: Value, b: Value): Result<Ordering, NotSupported>
    decreases a
  {
    if a.Tuple? && b.Tuple? then Compared(a.vs, b.vs)
    else if a.Real? && b.Int? then Ok(CmpFloat(a.f, AsFloat(b.i)))
    else if a.Int? && b.Real? then Ok(CmpFloat(AsFloat(a.i), b.f))
    else if TypeOf(a) != TypeOf(b) || Incomparable(TypeOf(a)) then Err(NotSupported(TypeOf(a), TypeOf(b)))
    else Ok(CmpScalar(a, b))
  }

  function Compared(lhs: seq<Value>, rhs: seq<Value>): Result<Ordering, NotSupported>
    decreases lhs
  {
    if lhs == [] || rhs == [] then Ok(CmpInt(|lhs|, |rhs|))
    else
      var head, tail := ComparedOne(lhs[0], rhs[0]), Compared(lhs[1..], rhs[1..]);
      if head.Err? then head else if tail.Err? || head.value.Equal? then tail else head
  }

  function EqualOne(a: Value, b: Value): Result<bool, NotSupported>
    decreases a
  {
    if a.Tuple? && b.Tuple? then TuplesEqual(a.vs, b.vs)
    else if a.Real? && b.Int? then Ok(a.f == AsFloat(b.i))
    else if a.Int? && b.Real? then Ok(AsFloat(a.i) == b.f)
    else if b.Null? || a.Null? then Ok(a == b)
    else if TypeOf(a) == TypeOf(b) then Ok(a == b)
    else Err(NotSupported(TypeOf(a), TypeOf(b)))
  }

  function TuplesEqual(lhs: seq<Value>, rhs: seq<Value>): Result<bool, NotSupported>
    decreases lhs
  {
    if lhs == [] || rhs == [] then Ok(|lhs| == |rhs|)
    else
      var head, tail := EqualOne(lhs[0], rhs[0]), TuplesEqual(lhs[1..], rhs[1..]);
      if head.Err? then head else if tail.Err? then tail else Ok(head.value && tail.value)
  }

  // ---------------------------------------------------------------- the loops

  /** The outcome of a loop that has `result` so far and the pairs from `i` on to go. */
  ghost function Finishing(result: Ordering, lhs: seq<Value>, rhs: seq<Value>, i: nat): Result<Ordering, NotSupported>
    requires i <= |lhs| && i <= |rhs|
  {
    var rest := Compared(lhs[i..], rhs[i..]);
    if rest.Err? || result.Equal? then rest else Ok(result)
  }

  lemma FinishingStep(result: Ordering, lhs: seq<Value>, rhs: seq<Value>, i: nat)
    requires i < |lhs| && i < |rhs|
    ensures var one := ComparedOne(lhs[i], rhs[i]);
            Finishing(result, lhs, rhs, i) ==
            if one.Err? then one else Finishing(if result.Equal? then one.value else result, lhs, rhs, i + 1)
  {
    assert lhs[i..][1..] == lhs[i + 1..] && rhs[i..][1..] == rhs[i + 1..];
  }

  method CompareTuples(lhs: seq<Value>, rhs: seq<Value>) returns (r: Result<Ordering, NotSupported>)
    ensures r == Compared(lhs, rhs)
    decreases lhs
  {
    var result := Equal;
    assert lhs[0..] == lhs && rhs[0..] == rhs;
    for i := 0 to if |lhs| < |rhs| then |lhs| else |rhs|
      invariant Finishing(result, lhs, rhs, i) == Compared(lhs, rhs)
    {
      var a, b := lhs[i], rhs[i];
      FinishingStep(result, lhs, rhs, i);
      var cmp;
      if a.Tuple? && b.Tuple? {
        var nested := CompareTuples(a.vs, b.vs);
        if nested.Err? {
          return nested;
        }
        cmp := nested.value;
      } else if a.Real? && b.Int? {
        cmp := CmpFloat(a.f, AsFloat(b.i));
      } else if a.Int? && b.Real? {
        cmp := CmpFloat(AsFloat(a.i), b.f);
      } else if TypeOf(a) != TypeOf(b) || Incomparable(TypeOf(a)) {
        return Err(NotSupported(TypeOf(a), TypeOf(b)));
      } else {
        cmp := CmpScalar(a, b);
      }
      if result.Equal? {
        result := cmp;
      }
    }
    if result.Equal? {
      return Ok(CmpInt(|lhs|, |rhs|));
    }
    return Ok(result);
  }

  lemma {:induction false} EqualTuplesLength(lhs: seq<Value>, rhs: seq<Value>)
    ensures TuplesEqual(lhs, rhs) == Ok(true) ==> |lhs| == |rhs|
    decreases lhs
  {
    if lhs != [] && rhs != [] {
      EqualTuplesLength(lhs[1..], rhs[1..]);
    }
  }

  method AreTuplesEqual(lhs: seq<Value>, rhs: seq<Value>) returns (r: Result<bool, NotSupported>)
    ensures r == TuplesEqual(lhs, rhs)
    decreases lhs
  {
    var result := |lhs| == |rhs|;
    assert lhs[0..] == lhs && rhs[0..] == rhs;
    EqualTuplesLength(lhs, rhs);
    for i := 0 to if |lhs| < |rhs| then |lhs| else |rhs|
      invariant |lhs| != |rhs| ==> !result
      invariant var rest := TuplesEqual(lhs[i..], rhs[i..]);
                TuplesEqual(lhs, rhs) == if rest.Err? then rest else Ok(result && rest.value)
    {
      var a, b := lhs[i], rhs[i];
      assert lhs[i..][0] == a && rhs[i..][0] == b && lhs[i..][1..] == lhs[i + 1..] && rhs[i..][1..] == rhs[i + 1..];
      var single;
      if a.Tuple? && b.Tuple? {
        var nested := AreTuplesEqual(a.vs, b.vs);
        if nested.Err? {
          return nested;
        }
        single := nested.value;
      } else if a.Real? && b.Int? {
        single := a.f == AsFloat(b.i);
      } else if a.Int? && b.Real? {
        single := AsFloat(a.i) == b.f;
      } else if b.Null? {
        single := a.Null?;
      } else if a.Null? {
        single := b.Null?;
      } else if TypeOf(a) == TypeOf(b) {
        single := a == b;
      } else {
        return Err(NotSupported(TypeOf(a), TypeOf(b)));
      }
      result := result && single;
    }
    return Ok(result);
  }

  // ---------------------------------------------------------------- swapping

  function Swapped(r: Result<Ordering, NotSupported>): Result<Ordering, NotSupported> {
    if r.Ok? then Ok(Reversed(r.value)) else Err(NotSupported(r.error.right, r.error.left))
  }

  lemma CmpSeqSwapped(a: seq<nat>, b: seq<nat>)
    ensures CmpSeq(b, a) == Reversed(CmpSeq(a, b))
  {
    LexTotal(a, b);
  }

  lemma CmpScalarSwapped(a: Value, b: Value)
    requires TypeOf(a) == TypeOf(b) && !a.Tuple?
    ensures CmpScalar(b, a) == Reversed(CmpScalar(a, b))
  {
    if a.Text? {
      CmpSeqSwapped(Codes(a.s), Codes(b.s));
    } else if a.Bytes? {
      CmpSeqSwapped(a.bs, b.bs);
    }
  }

  lemma {:induction false} ComparedOneSwapped(a: Value, b: Value)
    ensures ComparedOne(b, a) == Swapped(ComparedOne(a, b))
    decreases a
  {
    if a.Tuple? && b.Tuple? {
      SwapReverses(a.vs, b.vs);
    } else if TypeOf(a) == TypeOf(b) {
      CmpScalarSwapped(a, b);
    } else {
      MixedSwapped(a, b);
    }
  }

  lemma MixedSwapped(a: Value, b: Value)
    requires TypeOf(a) != TypeOf(b)
    ensures ComparedOne(b, a) == Swapped(ComparedOne(a, b))
  {}

  /** The swapped call succeeds with the reversed result, and fails when the call fails, naming the types the other way round. */
  lemma {:induction false} SwapReverses(lhs: seq<Value>, rhs: seq<Value>)
    ensures Compared(rhs, lhs) == Swapped(Compared(lhs, rhs))
    decreases lhs
  {
    if lhs != [] && rhs != [] {
      ComparedOneSwapped(lhs[0], rhs[0]);
      SwapReverses(lhs[1..], rhs[1..]);
    }
  }

  // ---------------------------------------------------------------- equality

  lemma CodesInjective(a: string, b: string)
    requires Codes(a) == Codes(b)
    ensures a == b
  {
    assert |a| == |Codes(a)| && |b| == |Codes(b)|;
    forall i | 0 <= i < |a| ensures a[i] == b[i] {
      assert Codes(a)[i] == Codes(b)[i];
    }
  }

  lemma CmpScalarEqual(a: Value, b: Value)
    requires TypeOf(a) == TypeOf(b) && !a.Tuple?
    ensures CmpScalar(a, b).Equal? <==> a == b
  {
    if a.Text? && Codes(a.s) == Codes(b.s) {
      CodesInjective(a.s, b.s);
    }
  }

  lemma {:induction false} ComparedOneEqual(a: Value, b: Value)
    requires ComparedOne(a, b).Ok?
    ensures EqualOne(a, b) == Ok(ComparedOne(a, b).value.Equal?)
    decreases a
  {
    if a.Tuple? && b.Tuple? {
      EqualMeansEqual(a.vs, b.vs);
    } else if TypeOf(a) == TypeOf(b) {
      CmpScalarEqual(a, b);
    }
  }

  /** Where comparison is supported so is equality, and it holds exactly when the comparison says `Equal`. */
  lemma {:induction false} EqualMeansEqual(lhs: seq<Value>, rhs: seq<Value>)
    requires Compared(lhs, rhs).Ok?
    ensures TuplesEqual(lhs, rhs) == Ok(Compared(lhs, rhs).value.Equal?)
    decreases lhs
  {
    if lhs != [] && rhs != [] {
      ComparedOneEqual(lhs[0], rhs[0]);
      EqualMeansEqual(lhs[1..], rhs[1..]);
    }
  }

  // ---------------------------------------------------------------- transitivity

  /** The three results fit together as those of one order do. */
  predicate Composes(ab: Ordering, bc: Ordering, ac: Ordering) {
    && (ab.Equal? ==> ac == bc)
    && (bc.Equal? ==> ac == ab)
    && (ab == bc ==> ac == ab)
  }

  predicate IsNumber(v: Value) {
    v.Int? || v.Real?
  }

  /** Where the three values mix integers and floats, the integers are exactly representable as floats. */
  predicate ExactOne(a: Value, b: Value, c: Value)
    decreases a
  {
    if a.Tuple? && b.Tuple? && c.Tuple? then ExactWhereMixed(a.vs, b.vs, c.vs)
    else if IsNumber(a) && IsNumber(b) && IsNumber(c) && (a.Real? || b.Real? || c.Real?)
    then (a.Int? ==> Exact(a.i)) && (b.Int? ==> Exact(b.i)) && (c.Int? ==> Exact(c.i))
    else true
  }

  predicate ExactWhereMixed(a: seq<Value>, b: seq<Value>, c: seq<Value>)
    decreases a
  {
    a == [] || b == [] || c == [] || (ExactOne(a[0], b[0], c[0]) && ExactWhereMixed(a[1..], b[1..], c[1..]))
  }

  lemma CmpSeqComposes(a: seq<nat>, b: seq<nat>, c: seq<nat>)
    ensures Composes(CmpSeq(a, b), CmpSeq(b, c), CmpSeq(a, c))
  {
    LexTotal(a, b);
    LexTotal(b, c);
    LexTotal(a, c);
    if LexLe(a, b) && LexLe(b, c) {
      LexTransitive(a, b, c);
    }
    if LexLe(c, b) && LexLe(b, a) {
      LexTransitive(c, b, a);
    }
  }

  /** A number as a float; exact for exact integers. */
  function Number(v: Value): Float
    requires IsNumber(v)
  {
    if v.Int? then AsFloat(v.i) else v.f
  }

  lemma NumbersCompare(a: Value, b: Value)
    requires IsNumber(a) && IsNumber(b) && (a.Int? ==> Exact(a.i)) && (b.Int? ==> Exact(b.i))
    ensures ComparedOne(a, b) == Ok(CmpFloat(Number(a), Number(b)))
  {}

  lemma MixedComposes(a: Value, b: Value, c: Value)
    requires IsNumber(a) && IsNumber(b) && IsNumber(c)
    requires (a.Int? ==> Exact(a.i)) && (b.Int? ==> Exact(b.i)) && (c.Int? ==> Exact(c.i))
    ensures Composes(ComparedOne(a, b).value, ComparedOne(b, c).value, ComparedOne(a, c).value)
  {
    NumbersCompare(a, b);
    NumbersCompare(b, c);
    NumbersCompare(a, c);
  }

  lemma ScalarComposes(a: Value, b: Value, c: Value)
    requires TypeOf(a) == TypeOf(b) == TypeOf(c) && !a.Tuple?
    ensures Composes(CmpScalar(a, b), CmpScalar(b, c), CmpScalar(a, c))
  {
    if a.Text? {
      CmpSeqComposes(Codes(a.s), Codes(b.s), Codes(c.s));
    } else if a.Bytes? {
      CmpSeqComposes(a.bs, b.bs, c.bs);
    }
  }

  lemma {:induction false} ComparedOneComposes(a: Value, b: Value, c: Value)
    requires ExactOne(a, b, c)
    requires ComparedOne(a, b).Ok? && ComparedOne(b, c).Ok? && ComparedOne(a, c).Ok?
    ensures Composes(ComparedOne(a, b).value, ComparedOne(b, c).value, ComparedOne(a, c).value)
    decreases a
  {
    if a.Tuple? {
      ComparisonTransitive(a.vs, b.vs, c.vs);
    } else if IsNumber(a) && (a.Real? || b.Real? || c.Real?) {
      MixedComposes(a, b, c);
    } else {
      ScalarComposes(a, b, c);
    }
  }

  lemma EqualLengths(lhs: seq<Value>, rhs: seq<Value>)
    requires Compared(lhs, rhs) == Ok(Equal)
    ensures |lhs| == |rhs|
    decreases lhs
  {
    if lhs != [] && rhs != [] {
      EqualLengths(lhs[1..], rhs[1..]);
    }
  }

  /** When all three pairs can be compared and integers that meet floats are exact, comparison is transitive. */
  lemma {:induction false} ComparisonTransitive(a: seq<Value>, b: seq<Value>, c: seq<Value>)
    requires ExactWhereMixed(a, b, c)
    requires Compared(a, b).Ok? && Compared(b, c).Ok? && Compared(a, c).Ok?
    ensures Composes(Compared(a, b).value, Compared(b, c).value, Compared(a, c).value)
    decreases a
  {
    if a == [] || b == [] || c == [] {
      if Compared(a, b).value.Equal? {
        EqualLengths(a, b);
      }
      if Compared(b, c).value.Equal? {
        EqualLengths(b, c);
      }
    } else {
      ComparedOneComposes(a[0], b[0], c[0]);
      ComparisonTransitive(a[1..], b[1..], c[1..]);
    }
  }

  // ---------------------------------------------------------------- integers that are not exact

  lemma DivisionUnique(n: nat, d: nat, q: nat, rem: nat)
    requires d > 0 && n == q * d + rem && rem < d
    ensures n / d == q && n % d == rem
  {
    var p := n / d;
    assert n == p * d + n % d;
    assert p < q ==> (p + 1) * d <= q * d;
    assert q < p ==> (q + 1) * d <= p * d;
  }

  lemma Halving(n: nat, u: nat)
    requires u > 0
    ensures n / (2 * u) == n / 2 / u && n % (2 * u) == 2 * (n / 2 % u) + n % 2
  {
    var m := n / 2;
    assert m == m / u * u + m % u;
    DivisionUnique(n, 2 * u, m / u, 2 * (m % u) + n % 2);
  }

  lemma {:induction false} MantissaFits(n: nat)
    ensures n / Pow2(Excess(n)) < MANTISSA
  {
    if n >= MANTISSA {
      MantissaFits(n / 2);
      Halving(n, Pow2(Excess(n / 2)));
    }
  }

  lemma Doubled(k: nat, p: nat)
    ensures k * (2 * p) == 2 * (k * p)
  {}

  /** Twice a multiple of its last bit is a multiple of its own last bit. */
  lemma DoubleMultiple(m: nat, q: nat) returns (p: nat)
    requires m == q * Pow2(Excess(m))
    ensures 2 * m == p * Pow2(Excess(2 * m))
  {
    if 2 * m < MANTISSA {
      p := 2 * m;
    } else {
      assert 2 * m / 2 == m;
      Doubled(q, Pow2(Excess(m)));
      p := q;
    }
  }

  /** A mantissa with zeros behind it loses nothing. */
  lemma {:induction false} ShiftedMultiple(k: nat, e: nat) returns (q: nat)
    requires k <= MANTISSA
    ensures k * Pow2(e) == q * Pow2(Excess(k * Pow2(e)))
  {
    if e == 0 {
      assert Excess(MANTISSA / 2) == 0 && Pow2(1) == 2;
      q := if k < MANTISSA then k else MANTISSA / 2;
    } else {
      var p := ShiftedMultiple(k, e - 1);
      Doubled(k, Pow2(e - 1));
      q := DoubleMultiple(k * Pow2(e - 1), p);
    }
  }

  lemma MultipleExact(n: nat, q: nat)
    requires n == q * Pow2(Excess(n))
    ensures RoundedNat(n) == n
  {
    DivisionUnique(n, Pow2(Excess(n)), q, 0);
  }

  lemma RoundedNatExact(n: nat)
    ensures RoundedNat(RoundedNat(n)) == RoundedNat(n)
  {
    MantissaFits(n);
    var p := ShiftedMultiple(Nearest(n, Pow2(Excess(n))), Excess(n));
    MultipleExact(RoundedNat(n), p);
  }

  /**
   An integer that is not exact breaks transitivity: it equals its float, which equals the nearest exact integer, from
   which it differs.
   */
  lemma TransitiveOnlyIfExact(i: int)
    ensures var a, b, c := [Int(i)], [Real(AsFloat(i))], [Int(Rounded(i))];
            && Compared(a, b) == Ok(Equal) && Compared(b, c) == Ok(Equal)
            && (Compared(a, c) == Ok(Equal) <==> Exact(i))
  {
    var a, b, c := [Int(i)], [Real(AsFloat(i))], [Int(Rounded(i))];
    RoundedNatExact(if i >= 0 then i else -i);
    assert Compared(a[1..], b[1..]) == Ok(Equal) && Compared(b[1..], c[1..]) == Ok(Equal) && Compared(a[1..], c[1..]) == Ok(Equal);
  }

  /** The first such integer. */
  lemma FirstInexact()
    ensures !Exact(MANTISSA + 1) && Rounded(MANTISSA + 1) == MANTISSA
    ensures forall i: int :: 0 - MANTISSA <= i <= MANTISSA ==> Exact(i)
  {
    assert Excess(MANTISSA / 2) == 0 && Excess((MANTISSA + 1) / 2) == 0;
    assert Excess(MANTISSA) == 1 && Excess(MANTISSA + 1) == 1 && Pow2(1) == 2;
    forall i: int | 0 - MANTISSA <= i <= MANTISSA ensures Exact(i) {
      assert Pow2(0) == 1;
    }
  }
}
