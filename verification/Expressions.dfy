/**
 Evaluation of expression trees over the values of a row, and the compression of argument lists: a list of consecutive
 column references is kept as a range and evaluated as a slice of the row.
 */
module Expressions {
  import opened Values

  datatype EvalError = IndexOutOfBounds | ErrorInValue | TypeMismatch | ValueError(code: nat)

  /** `Panicked` is a failed slice of the row, which no error handling sees. */
  datatype Outcome<+T> = Got(value: T) | Failed(error: EvalError) | Panicked

  type Operation = seq<Value> -> Result<Value, EvalError>

  /**
   `Operator` stands for the operators that evaluate their operands in a fixed order, stop at the first error, and
   compute from the values alone.
   */
  datatype Expression =
    | Argument(index: nat)
    | Const(v: Value)
    | Apply(f: Operation, args: Expressions)
    | OptionalApply(f: Operation, args: Expressions)
    | PointerWithInstance(f: Operation, args: Expressions, instance: Expression)
    | MakeTuple(args: Expressions)
    | IfElse(condition: Expression, then_: Expression, else_: Expression)
    | FillError(expression: Expression, replacement: Expression)
    | Operator(f: Operation, operands: seq<Expression>)

  datatype Expressions = Explicit(exprs: seq<Expression>) | Arguments(begin: nat, end: nat)

  function FromResult(r: Result<Value, EvalError>): Outcome<Value> {
    if r.Ok? then Got(r.value) else Failed(r.error)
  }

  /** `None` if one of the values is, otherwise the operation. */
  function Optional(f: Operation, vs: seq<Value>): Outcome<Value> {
    if Null in vs then Got(Null) else FromResult(f(vs))
  }

  function Eval(e: Expression, values: seq<Value>): Outcome<Value>
    decreases e
  {
    match e
    case Argument(i) =>
      if i >= |values| then Failed(IndexOutOfBounds)
      else if values[i].Error? then Failed(ErrorInValue)
      else Got(values[i])
    case Const(v) => Got(v)
    case Apply(f, args) =>
      var vs := EvalArgs(args, values);
      if vs.Got? then FromResult(f(vs.value)) else Stopped(vs)
    case OptionalApply(f, args) =>
      var vs := EvalArgs(args, values);
      if vs.Got? then Optional(f, vs.value) else Stopped(vs)
    case PointerWithInstance(f, args, instance) =>
      var vs := EvalArgs(args, values);
      if !vs.Got? then Stopped(vs)
      else
        var i := Eval(instance, values);
        if i.Got? then Optional(f, vs.value + [i.value]) else i
    case MakeTuple(args) =>
      var vs := EvalArgs(args, values);
      if vs.Got? then Got(Tuple(vs.value)) else Stopped(vs)
    case IfElse(condition, then_, else_) =>
      var c := Eval(condition, values);
      if !c.Got? then c
      else if !c.value.Bool? then Failed(TypeMismatch)
      else if c.value.b then Eval(then_, values) else Eval(else_, values)
    case FillError(expression, replacement) =>
      var v := Eval(expression, values);
      if v.Failed? then Eval(replacement, values) else v
    case Operator(f, operands) =>
      var vs := EvalAll(operands, values);
      if vs.Got? then FromResult(f(vs.value)) else Stopped(vs)
  }

  function Stopped(o: Outcome<seq<Value>>): Outcome<Value>
    requires !o.Got?
  {
    if o.Failed? then Failed(o.error) else Panicked
  }

  /** The expressions one by one, up to the first that fails. */
  function EvalAll(es: seq<Expression>, values: seq<Value>): Outcome<seq<Value>>
    decreases es
  {
    if es == [] then Got([])
    else
      var first := Eval(es[0], values);
      if first.Failed? then Failed(first.error)
      else if first.Panicked? then Panicked
      else
        var rest := EvalAll(es[1..], values);
        if rest.Got? then Got([first.value] + rest.value) else rest
  }

  function EvalArgs(args: Expressions, values: seq<Value>): Outcome<seq<Value>>
    decreases args
  {
    match args
    case Explicit(exprs) => EvalAll(exprs, values)
    case Arguments(begin, end) =>
      if !(begin <= end <= |values|) then Panicked
      else if Error in values[begin..end] then Failed(ErrorInValue)
      else Got(values[begin..end])
  }

  // ---------------------------------------------------------------- compression of one list

  /** The list refers to `begin`, `begin + 1`, and so on. */
  predicate Consecutive(source: seq<Expression>, begin: nat) {
    forall k :: 0 <= k < |source| ==> source[k].Argument? && source[k].index == begin + k
  }

  predicate IsSlice(source: seq<Expression>) {
    source != [] && source[0].Argument? && Consecutive(source, source[0].index)
  }

  /** Found exactly for non-empty lists of consecutive column references. */
  method MaybeArgumentSlice(source: seq<Expression>) returns (r: Option<(nat, nat)>)
    ensures r.Some? <==> IsSlice(source)
    ensures r.Some? ==> Consecutive(source, r.value.0) && r.value.1 == r.value.0 + |source|
  {
    if |source| == 0 || !source[0].Argument? {
      return None;
    }
    var firstIndex := source[0].index;
    var nextIndex := firstIndex + 1;
    for k := 1 to |source|
      invariant nextIndex == firstIndex + k && Consecutive(source[..k], firstIndex)
    {
      if !source[k].Argument? {
        return None;
      }
      if source[k].index != nextIndex {
        return None;
      }
      nextIndex := source[k].index + 1;
    }
    assert source[..|source|] == source;
    return Some((firstIndex, nextIndex));
  }

  function Collected(source: seq<Expression>): Expressions {
    if IsSlice(source) then Arguments(source[0].index, source[0].index + |source|) else Explicit(source)
  }

  method FromVec(source: seq<Expression>) returns (r: Expressions)
    ensures r == Collected(source)
  {
    var slice := MaybeArgumentSlice(source);
    if slice.Some? {
      return Arguments(slice.value.0, slice.value.1);
    }
    return Explicit(source);
  }

  /** References one by one give the slice, or the error that the slice gives. */
  lemma {:induction false} SliceIsEach(source: seq<Expression>, begin: nat, values: seq<Value>)
    requires Consecutive(source, begin) && begin + |source| <= |values|
    ensures EvalAll(source, values) == EvalArgs(Arguments(begin, begin + |source|), values)
  {
    if source != [] {
      SliceIsEach(source[1..], begin + 1, values);
      SliceFirst(values, begin, begin + |source|);
    }
  }

  lemma SliceFirst(values: seq<Value>, begin: nat, end: nat)
    requires begin < end <= |values|
    ensures values[begin..end] == [values[begin]] + values[begin + 1..end]
  {}

  lemma {:induction false} EachNeverPanics(source: seq<Expression>, begin: nat, values: seq<Value>)
    requires Consecutive(source, begin)
    ensures !EvalAll(source, values).Panicked?
  {
    if source != [] {
      EachNeverPanics(source[1..], begin + 1, values);
    }
  }

  /** A compressed list means the same as the list if and only if the row covers its references. */
  lemma CompressionExactIff(source: seq<Expression>, values: seq<Value>)
    ensures EvalArgs(Collected(source), values) == EvalAll(source, values) <==>
            (IsSlice(source) ==> source[0].index + |source| <= |values|)
    ensures EvalArgs(Collected(source), values) == EvalAll(source, values) || EvalArgs(Collected(source), values).Panicked?
  {
    if IsSlice(source) {
      var begin := source[0].index;
      assert Collected(source) == Arguments(begin, begin + |source|);
      if begin + |source| <= |values| {
        SliceIsEach(source, begin, values);
      } else {
        EachNeverPanics(source, begin, values);
        SlicePanics(begin, begin + |source|, values);
      }
    } else {
      assert Collected(source) == Explicit(source);
    }
  }

  lemma SlicePanics(begin: nat, end: nat, values: seq<Value>)
    requires end > |values|
    ensures EvalArgs(Arguments(begin, end), values).Panicked?
  {}

  // ---------------------------------------------------------------- whole trees

  /** The tree as it is built: every argument list goes through the compression. */
  function Built(e: Expression): Expression
    decreases e
  {
    match e
    case Argument(_) => e
    case Const(_) => e
    case Apply(f, args) => Apply(f, BuiltArgs(args))
    case OptionalApply(f, args) => OptionalApply(f, BuiltArgs(args))
    case PointerWithInstance(f, args, instance) => PointerWithInstance(f, BuiltArgs(args), Built(instance))
    case MakeTuple(args) => MakeTuple(BuiltArgs(args))
    case IfElse(c, t, f) => IfElse(Built(c), Built(t), Built(f))
    case FillError(x, r) => FillError(Built(x), Built(r))
    case Operator(f, operands) => Operator(f, BuiltAll(operands))
  }

  function BuiltAll(es: seq<Expression>): (bs: seq<Expression>)
    ensures |bs| == |es|
    decreases es
  {
    if es == [] then [] else [Built(es[0])] + BuiltAll(es[1..])
  }

  function BuiltArgs(args: Expressions): Expressions
    decreases args
  {
    if args.Explicit? then Collected(BuiltAll(args.exprs)) else args
  }

  /** All column references are below `n`. */
  predicate Covered(e: Expression, n: nat)
    decreases e
  {
    match e
    case Argument(i) => i < n
    case Const(_) => true
    case Apply(_, args) => CoveredArgs(args, n)
    case OptionalApply(_, args) => CoveredArgs(args, n)
    case PointerWithInstance(_, args, instance) => CoveredArgs(args, n) && Covered(instance, n)
    case MakeTuple(args) => CoveredArgs(args, n)
    case IfElse(c, t, f) => Covered(c, n) && Covered(t, n) && Covered(f, n)
    case FillError(x, r) => Covered(x, n) && Covered(r, n)
    case Operator(_, operands) => CoveredAll(operands, n)
  }

  predicate CoveredAll(es: seq<Expression>, n: nat)
    decreases es
  {
    if es == [] then true else Covered(es[0], n) && CoveredAll(es[1..], n)
  }

  predicate CoveredArgs(args: Expressions, n: nat)
    decreases args
  {
    if args.Explicit? then CoveredAll(args.exprs, n) else args.begin <= args.end <= n
  }

  lemma {:induction false} CoveredSlice(source: seq<Expression>, n: nat, k: nat)
    requires CoveredAll(source, n) && k < |source|
    ensures Covered(source[k], n)
  {
    if k > 0 {
      CoveredSlice(source[1..], n, k - 1);
    }
  }

  /**
   The tree as built evaluates like the tree as written, failures included, or it panics; on a row that covers all
   references it always does the former.
   */
  lemma {:induction false} BuiltEvaluatesTheSame(e: Expression, values: seq<Value>)
    ensures Eval(Built(e), values) == Eval(e, values) || Eval(Built(e), values).Panicked?
    ensures Covered(e, |values|) ==> Eval(Built(e), values) == Eval(e, values)
    decreases e
  {
    match e
    case Argument(_) =>
    case Const(_) =>
    case Apply(_, args) => BuiltArgsEvaluateTheSame(args, values);
    case OptionalApply(_, args) => BuiltArgsEvaluateTheSame(args, values);
    case PointerWithInstance(_, args, instance) =>
      BuiltArgsEvaluateTheSame(args, values);
      BuiltEvaluatesTheSame(instance, values);
    case MakeTuple(args) => BuiltArgsEvaluateTheSame(args, values);
    case IfElse(c, t, f) =>
      BuiltEvaluatesTheSame(c, values);
      BuiltEvaluatesTheSame(t, values);
      BuiltEvaluatesTheSame(f, values);
    case FillError(x, r) =>
      BuiltEvaluatesTheSame(x, values);
      BuiltEvaluatesTheSame(r, values);
    case Operator(_, operands) => BuiltAllEvaluateTheSame(operands, values);
  }

  lemma {:induction false} BuiltAllEvaluateTheSame(es: seq<Expression>, values: seq<Value>)
    ensures EvalAll(BuiltAll(es), values) == EvalAll(es, values) || EvalAll(BuiltAll(es), values).Panicked?
    ensures CoveredAll(es, |values|) ==> EvalAll(BuiltAll(es), values) == EvalAll(es, values)
    decreases es
  {
    if es != [] {
      BuiltEvaluatesTheSame(es[0], values);
      BuiltAllEvaluateTheSame(es[1..], values);
      assert BuiltAll(es)[1..] == BuiltAll(es[1..]);
    }
  }

  lemma {:induction false} BuiltArgsEvaluateTheSame(args: Expressions, values: seq<Value>)
    ensures EvalArgs(BuiltArgs(args), values) == EvalArgs(args, values) || EvalArgs(BuiltArgs(args), values).Panicked?
    ensures CoveredArgs(args, |values|) ==> EvalArgs(BuiltArgs(args), values) == EvalArgs(args, values)
    decreases args
  {
    if args.Explicit? {
      var built := BuiltAll(args.exprs);
      BuiltAllEvaluateTheSame(args.exprs, values);
      CompressionExactIff(built, values);
      if IsSlice(built) && CoveredArgs(args, |values|) {
        SliceCovered(args.exprs, |values|);
      }
    }
  }

  /** If the list as built is a slice, the list as written was one, and its last reference is covered. */
  lemma SliceCovered(es: seq<Expression>, n: nat)
    requires CoveredAll(es, n) && IsSlice(BuiltAll(es))
    ensures BuiltAll(es)[0].index + |es| <= n
  {
    var k := |es| - 1;
    BuiltAt(es, k);
    CoveredSlice(es, n, k);
    assert BuiltAll(es)[k].index == BuiltAll(es)[0].index + k;
  }

  lemma {:induction false} BuiltAt(es: seq<Expression>, k: nat)
    requires k < |es|
    ensures BuiltAll(es)[k] == Built(es[k])
  {
    if k > 0 {
      BuiltAt(es[1..], k - 1);
    }
  }
}
