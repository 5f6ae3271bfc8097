/**
 * The closed set of bencoded value kinds (integer, byte string, list,
 * dictionary) and the handles the containers store.
 */
module BValues {

  /** One byte of a byte string, compared as an unsigned value (as std::string does). */
  newtype uint8 = x: int | 0 <= x < 0x100

  /** Raw byte content of a string. */
  type Bytes = seq<uint8>

  datatype Option<+T> = None | Some(value: T)

  /** The tag of each concrete value kind; narrowing checks this tag. */
  datatype Kind = IntegerKind | StringKind | ListKind | DictionaryKind

  /** A bencoded value, as a snapshot of its content. */
  datatype Value =
    | Int(n: int)
    | Str(bytes: Bytes)
    | List(items: seq<Value>)
    | Dict(entries: seq<(Bytes, Value)>)

  /**
   * A value handle as the containers store it. `None` is the null handle,
   * which a dictionary entry holds right after an auto-inserting lookup.
   */
  type Item = Option<Value>

  function KindOf(v: Value): Kind {
    match v
    case Int(_) => IntegerKind
    case Str(_) => StringKind
    case List(_) => ListKind
    case Dict(_) => DictionaryKind
  }

  /**
   * Narrowing a handle to the requested kind: the same value when the kind
   * matches, the null handle otherwise.
   */
  function As(v: Value, k: Kind): (r: Item)
    ensures r.Some? <==> KindOf(v) == k
    ensures r.Some? ==> r.value == v
  {
    if KindOf(v) == k then Some(v) else None
  }

  /** Every handle in `xs` refers to a value. */
  predicate NoNulls(xs: seq<Item>) {
    forall i :: 0 <= i < |xs| ==> xs[i].Some?
  }
}
