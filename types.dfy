/**
 The type descriptors the parser walks (a stand-in for `reflect.Type`), the
 value trees it builds (a stand-in for `reflect.Value`), and its errors.
 */
module Types {
  import opened Bytes

  /** A Go type, one constructor per `reflect.Kind`. Only arrays and structs
      carry the structure the parser looks at; the other kinds are described
      by their kind alone. */
  datatype Type =
    | Invalid
    | Bool
    | Int | Int8 | Int16 | Int32 | Int64
    | Uint | Uint8 | Uint16 | Uint32 | Uint64 | Uintptr
    | Float32 | Float64
    | Complex64 | Complex128
    | Array(elem: Type, len: nat)
    | Chan | Func | Interface | Map | Pointer | Slice | String
    | Struct(fields: seq<Field>)
    | UnsafePointer

  /** A struct field in declaration order. */
  datatype Field = Field(name: string, typ: Type)

  // The numbering of reflect.Kind that the dispatch compares against.
  const KindInvalid := 0
  const KindChan := 18
  const KindStruct := 25

  /** The `reflect.Kind` number of a type. */
  function Kind(t: Type): (k: nat)
    ensures k <= 26
  {
    match t
    case Invalid => 0
    case Bool => 1
    case Int => 2
    case Int8 => 3
    case Int16 => 4
    case Int32 => 5
    case Int64 => 6
    case Uint => 7
    case Uint8 => 8
    case Uint16 => 9
    case Uint32 => 10
    case Uint64 => 11
    case Uintptr => 12
    case Float32 => 13
    case Float64 => 14
    case Complex64 => 15
    case Complex128 => 16
    case Array(_, _) => 17
    case Chan => 18
    case Func => 19
    case Interface => 20
    case Map => 21
    case Pointer => 22
    case Slice => 23
    case String => 24
    case Struct(_) => 25
    case UnsafePointer => 26
  }

  /** The kinds from Chan upward other than Struct, which the parser calls
      "variadic" and refuses to read. */
  predicate IsVariadic(t: Type)
  {
    t.Chan? || t.Func? || t.Interface? || t.Map? || t.Pointer? || t.Slice? || t.String? || t.UnsafePointer?
  }

  /** The kinds the dispatch refuses before reading anything. */
  predicate IsRejected(t: Type)
  {
    t.Invalid? || IsVariadic(t)
  }

  /** The kinds that reach the parser's "invariadic" branch: every kind other
      than Invalid, Array, Struct and the variadic kinds. */
  predicate IsScalar(t: Type)
  {
    !t.Invalid? && !t.Array? && !t.Struct? && !IsVariadic(t)
  }

  /** The dispatch on `reflect.Kind` numbers picks out these classes: Invalid
      is kind 0, the variadic kinds are those from Chan (18) upward other than
      Struct (25), and the scalar kinds are 1 through 16. */
  lemma KindClassifies(t: Type)
    ensures (Kind(t) == KindInvalid) == t.Invalid?
    ensures (Kind(t) >= KindChan && Kind(t) != KindStruct) == IsVariadic(t)
    ensures (Kind(t) == KindStruct) == t.Struct?
    ensures IsScalar(t) == (1 <= Kind(t) <= 16)
  {
  }

  /** `typ.Size()` of a scalar kind on a 64-bit target. */
  function Size(t: Type): (n: nat)
    requires IsScalar(t)
    ensures 1 <= n <= 16
  {
    match t
    case Bool => 1
    case Int8 => 1
    case Uint8 => 1
    case Int16 => 2
    case Uint16 => 2
    case Int32 => 4
    case Uint32 => 4
    case Float32 => 4
    case Int => 8
    case Int64 => 8
    case Uint => 8
    case Uint64 => 8
    case Uintptr => 8
    case Float64 => 8
    case Complex64 => 8
    case Complex128 => 16
  }

  /** The scalar kinds that have a conversion: all but the complex kinds. */
  predicate Convertible(t: Type)
    ensures Convertible(t) == (IsScalar(t) && !t.Complex64? && !t.Complex128?)
  {
    t.Bool? || t.Int? || t.Int8? || t.Int16? || t.Int32? || t.Int64? ||
    t.Uint? || t.Uint8? || t.Uint16? || t.Uint32? || t.Uint64? || t.Uintptr? ||
    t.Float32? || t.Float64?
  }

  /** A decoded value, one constructor per Go type the parser can produce.
      The integer constructors hold the mathematical value of the Go integer;
      the float constructors hold the unsigned integer that was converted to
      the float. */
  datatype Value =
    | BoolValue(b: bool)
    | IntValue(i: int)
    | Int8Value(i: int)
    | Int16Value(i: int)
    | Int32Value(i: int)
    | Int64Value(i: int)
    | UintValue(u: nat)
    | Uint8Value(u: nat)
    | Uint16Value(u: nat)
    | Uint32Value(u: nat)
    | Uint64Value(u: nat)
    | UintptrValue(u: nat)
    | Float32Value(u: nat)
    | Float64Value(u: nat)
    | ArrayValue(elems: seq<Value>)
    | StructValue(fields: seq<Value>)

  /** 2^(8n-1), half the range of an n-byte integer. */
  function Half(n: nat): (h: nat)
    requires n > 0
    ensures 2 * h == Pow256(n)
  {
    128 * Pow256(n - 1)
  }

  /** -2^(8n-1) <= i < 2^(8n-1): i fits an n-byte signed integer. */
  predicate SignedFits(i: int, n: nat)
    requires n > 0
  {
    -(Half(n) as int) <= i < Half(n)
  }

  /** v is a value the parser can produce for type t. A Go `int` is produced
      from the unsigned 8-byte read with no signed conversion, so its values
      are those of a uint64. */
  predicate HasType(v: Value, t: Type)
    decreases t
  {
    match t
    case Bool => v.BoolValue?
    case Int => v.IntValue? && 0 <= v.i < Pow256(8)
    case Int8 => v.Int8Value? && SignedFits(v.i, 1)
    case Int16 => v.Int16Value? && SignedFits(v.i, 2)
    case Int32 => v.Int32Value? && SignedFits(v.i, 4)
    case Int64 => v.Int64Value? && SignedFits(v.i, 8)
    case Uint => v.UintValue? && v.u < Pow256(8)
    case Uint8 => v.Uint8Value? && v.u < Pow256(1)
    case Uint16 => v.Uint16Value? && v.u < Pow256(2)
    case Uint32 => v.Uint32Value? && v.u < Pow256(4)
    case Uint64 => v.Uint64Value? && v.u < Pow256(8)
    case Uintptr => v.UintptrValue? && v.u < Pow256(8)
    case Float32 => v.Float32Value? && v.u < Pow256(4)
    case Float64 => v.Float64Value? && v.u < Pow256(8)
    case Array(elem, len) =>
      v.ArrayValue? && |v.elems| == len &&
      forall k | 0 <= k < len :: HasType(v.elems[k], elem)
    case Struct(fields) =>
      v.StructValue? && |v.fields| == |fields| &&
      forall k | 0 <= k < |fields| :: HasType(v.fields[k], fields[k].typ)
    case _ => false
  }

  /** The only values of a type that is neither an array nor a struct are
      scalars of a kind that has a conversion. */
  lemma ScalarValueIsConvertible(v: Value, t: Type)
    requires HasType(v, t) && !t.Array? && !t.Struct?
    ensures Convertible(t)
  {
  }

  /** The errors the parser can return, one per message. */
  datatype Error =
    | FieldNotValid        // "struct field is not valid"
    | FieldVariadic        // "struct field is variadic, unable to parse"
    | ContentNotLongEnough // "file content not long enough"
    | TypeError            // "type error"

  datatype Result<T> = Ok(value: T) | Err(error: Error)

  /** The outcome of a step of the parser: its result and the position of
      the stream's cursor afterwards (on failure too). */
  datatype Outcome<T> = Outcome(result: Result<T>, pos: nat)

  datatype Option<T> = None | Some(value: T)
}
