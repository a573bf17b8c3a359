/** The values that travel through the engine, and the option and result wrappers. */
module Values {

  datatype Option<+T> = None | Some(value: T)

  datatype Result<+T, +E> = Ok(value: T) | Err(error: E)

  /** A row identifier. Hashing is taken to be collision free, so only equality and order matter. */
  type Key = nat

  /** `OrderedFloat<f64>`: finite numbers in their usual order, NaN equal to itself and above everything. */
  datatype Float = NegInf | Finite(r: real) | PosInf | NaN

  /** Arrays, JSON documents and Python objects are opaque handles compared by their hash. */
  datatype Value =
    | Null
    | Bool(b: bool)
    | Int(i: int)
    | Real(f: Float)
    | Pointer(key: Key)
    | Text(s: string)
    | Bytes(bs: seq<nat>)
    | Tuple(vs: seq<Value>)
    | IntArray(handle: nat)
    | FloatArray(handle: nat)
    | DateTimeNaive(ns: int)
    | DateTimeUtc(ns: int)
    | Duration(ns: int)
    | Json(handle: nat)
    | Error
    | PyObject(handle: nat)

  lemma ConcatAssociates<T>(a: seq<T>, b: seq<T>, c: seq<T>)
    ensures a + b + c == a + (b + c)
  {}
}
