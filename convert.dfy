/**
 The byte-to-scalar conversion table of the parser (`convToInvariadicValue`).
 */
module Convert {
  import opened Bytes
  import opened Types

  // The byte-order selector is a Go `uint`.
  type Selector = x: int | 0 <= x < 0x1_0000_0000_0000_0000

  const LITTLE_ENDIAN: Selector := 0
  const BIG_ENDIAN: Selector := 1

  /** `binary.LittleEndian.UintN(buf)` when `end == LITTLE_ENDIAN`,
      `binary.BigEndian.UintN(buf)` for every other value of `end`. */
  function ReadUint(buf: seq<Byte>, n: nat, end: Selector): (u: nat)
    requires n <= |buf|
    ensures u < Pow256(n)
  {
    if end == LITTLE_ENDIAN then LittleEndian(buf[..n]) else BigEndian(buf[..n])
  }

  /** The two selector values the package exports: `LITTLE_ENDIAN` is 0 and
      reads the least significant byte first, `BIG_ENDIAN` is 1 and reads the
      most significant byte first. */
  lemma SelectorConstants(buf: seq<Byte>, n: nat)
    requires n <= |buf|
    ensures LITTLE_ENDIAN == 0 && BIG_ENDIAN == 1
    ensures ReadUint(buf, n, LITTLE_ENDIAN) == LittleEndian(buf[..n])
    ensures ReadUint(buf, n, BIG_ENDIAN) == BigEndian(buf[..n])
  {
  }

  /** The Go conversion from an n-byte unsigned integer to the signed integer
      of the same width: the same bit pattern read as two's complement. */
  function ToSigned(u: nat, n: nat): (i: int)
    requires n > 0 && u < Pow256(n)
    ensures SignedFits(i, n)
    ensures ToUnsigned(i, n) == u
  {
    if u < Half(n) then u else u - Pow256(n)
  }

  /** The n-byte two's-complement bit pattern of a signed value. */
  function ToUnsigned(i: int, n: nat): (u: nat)
    requires n > 0 && SignedFits(i, n)
    ensures u < Pow256(n)
    ensures (i >= 0) == (u < Half(n))
  {
    if i >= 0 then i else i + Pow256(n)
  }

  /** `convToInvariadicValue`: turn the bytes read for a scalar into a value
      of that kind. Booleans look at the first byte only; signed kinds
      reinterpret the unsigned read of the same width; `int` keeps the raw
      unsigned 8-byte read. Any other kind is a "type error". */
  function ConvToInvariadicValue(buf: seq<Byte>, t: Type, end: Selector): (r: Result<Value>)
    requires Convertible(t) ==> Size(t) <= |buf|
    ensures r.Ok? <==> Convertible(t)
    ensures r.Err? ==> r.error == TypeError
  {
    match t
    case Bool => Ok(BoolValue(buf[0] != 0))
    case Int => Ok(IntValue(ReadUint(buf, 8, end)))
    case Int8 => Ok(Int8Value(ToSigned(buf[0], 1)))
    case Int16 => Ok(Int16Value(ToSigned(ReadUint(buf, 2, end), 2)))
    case Int32 => Ok(Int32Value(ToSigned(ReadUint(buf, 4, end), 4)))
    case Int64 => Ok(Int64Value(ToSigned(ReadUint(buf, 8, end), 8)))
    case Uint => Ok(UintValue(ReadUint(buf, 8, end)))
    case Uint8 => Ok(Uint8Value(buf[0]))
    case Uint16 => Ok(Uint16Value(ReadUint(buf, 2, end)))
    case Uint32 => Ok(Uint32Value(ReadUint(buf, 4, end)))
    case Uint64 => Ok(Uint64Value(ReadUint(buf, 8, end)))
    case Uintptr => Ok(UintptrValue(ReadUint(buf, 8, end)))
    case Float32 => Ok(Float32Value(ReadUint(buf, 4, end)))
    case Float64 => Ok(Float64Value(ReadUint(buf, 8, end)))
    case _ => Err(TypeError)
  }

  /** A conversion yields a value of the Go type named by the kind, in range
      for that type's width. */
  lemma ConvHasType(buf: seq<Byte>, t: Type, end: Selector)
    requires Convertible(t) && Size(t) <= |buf|
    ensures HasType(ConvToInvariadicValue(buf, t, end).value, t)
  {
    match t
    case Bool =>
    case Int =>
    case Int8 =>
    case Int16 =>
    case Int32 =>
    case Int64 =>
    case Uint =>
    case Uint8 =>
    case Uint16 =>
    case Uint32 =>
    case Uint64 =>
    case Uintptr =>
    case Float32 =>
    case Float64 =>
  }

  /** The n-byte representation of u in the order `end` selects. */
  function WriteUint(u: nat, n: nat, end: Selector): (s: seq<Byte>)
    ensures |s| == n
  {
    if end == LITTLE_ENDIAN then ToLittleEndian(u, n) else ToBigEndian(u, n)
  }

  /** The bytes of a scalar value of kind t, in the order `end` selects: the
      layout the conversion reads. */
  function WriteScalar(v: Value, t: Type, end: Selector): (s: seq<Byte>)
    requires Convertible(t) && HasType(v, t)
    ensures |s| == Size(t)
  {
    match t
    case Bool => [if v.b then 1 else 0]
    case Int => WriteUint(v.i, 8, end)
    case Int8 => WriteUint(ToUnsigned(v.i, 1), 1, end)
    case Int16 => WriteUint(ToUnsigned(v.i, 2), 2, end)
    case Int32 => WriteUint(ToUnsigned(v.i, 4), 4, end)
    case Int64 => WriteUint(ToUnsigned(v.i, 8), 8, end)
    case Uint => WriteUint(v.u, 8, end)
    case Uint8 => WriteUint(v.u, 1, end)
    case Uint16 => WriteUint(v.u, 2, end)
    case Uint32 => WriteUint(v.u, 4, end)
    case Uint64 => WriteUint(v.u, 8, end)
    case Uintptr => WriteUint(v.u, 8, end)
    case Float32 => WriteUint(v.u, 4, end)
    case Float64 => WriteUint(v.u, 8, end)
  }

  /** Converting the bytes of a scalar value gives the value back, for every
      kind that has a conversion and for both byte orders. */
  lemma ConvWriteScalar(v: Value, t: Type, end: Selector)
    requires Convertible(t) && HasType(v, t)
    ensures ConvToInvariadicValue(WriteScalar(v, t, end), t, end) == Ok(v)
  {
    var s := WriteScalar(v, t, end);
    match t
    case Bool =>
    case Int => ReadWriteUint(v.i, 8, end);
    case Int8 =>
      ReadWriteUint(ToUnsigned(v.i, 1), 1, end);
      assert s[0] == ReadUint(s, 1, end) by { assert s[..1] == [s[0]]; }
      SignedRoundTrip(v.i, 1);
    case Int16 => ReadWriteUint(ToUnsigned(v.i, 2), 2, end); SignedRoundTrip(v.i, 2);
    case Int32 => ReadWriteUint(ToUnsigned(v.i, 4), 4, end); SignedRoundTrip(v.i, 4);
    case Int64 => ReadWriteUint(ToUnsigned(v.i, 8), 8, end); SignedRoundTrip(v.i, 8);
    case Uint => ReadWriteUint(v.u, 8, end);
    case Uint8 =>
      ReadWriteUint(v.u, 1, end);
      assert s[0] == ReadUint(s, 1, end) by { assert s[..1] == [s[0]]; }
    case Uint16 => ReadWriteUint(v.u, 2, end);
    case Uint32 => ReadWriteUint(v.u, 4, end);
    case Uint64 => ReadWriteUint(v.u, 8, end);
    case Uintptr => ReadWriteUint(v.u, 8, end);
    case Float32 => ReadWriteUint(v.u, 4, end);
    case Float64 => ReadWriteUint(v.u, 8, end);
  }

  /** Reading back what WriteUint wrote gives the value written. */
  lemma ReadWriteUint(u: nat, n: nat, end: Selector)
    requires u < Pow256(n)
    ensures ReadUint(WriteUint(u, n, end), n, end) == u
  {
    var s := WriteUint(u, n, end);
    assert s[..n] == s;
    if end == LITTLE_ENDIAN {
      LittleEndianRoundTrip(u, n);
    } else {
      BigEndianRoundTrip(u, n);
    }
  }

  /** An in-range signed value survives the trip through its bit pattern. */
  lemma SignedRoundTrip(i: int, n: nat)
    requires n > 0 && SignedFits(i, n)
    ensures ToSigned(ToUnsigned(i, n), n) == i
  {
  }

  /** Only `end == LITTLE_ENDIAN` selects little-endian order: every other
      value of the selector converts exactly as BIG_ENDIAN does. */
  lemma NonZeroEndianIsBig(buf: seq<Byte>, t: Type, end: Selector)
    requires Convertible(t) ==> Size(t) <= |buf|
    requires end != LITTLE_ENDIAN
    ensures ConvToInvariadicValue(buf, t, end) == ConvToInvariadicValue(buf, t, BIG_ENDIAN)
  {
  }

  /** A boolean is true exactly when its first byte is non-zero. */
  lemma BoolFromFirstByte(buf: seq<Byte>, end: Selector)
    requires |buf| >= 1
    ensures ConvToInvariadicValue(buf, Bool, end) == Ok(BoolValue(buf[0] != 0))
    ensures ConvToInvariadicValue(buf, Bool, end) == ConvToInvariadicValue(buf[..1], Bool, end)
  {
  }

  /** `int8` holds the two's-complement reading of the byte `uint8` holds. */
  lemma Int8ReinterpretsUint8(buf: seq<Byte>, end: Selector)
    requires |buf| >= 1
    ensures ConvToInvariadicValue(buf, Int8, end).value.i
         == ToSigned(ConvToInvariadicValue(buf, Uint8, end).value.u, 1)
  {
  }

  /** `int16` holds the two's-complement reading of the `uint16` read. */
  lemma Int16ReinterpretsUint16(buf: seq<Byte>, end: Selector)
    requires |buf| >= 2
    ensures ConvToInvariadicValue(buf, Int16, end).value.i
         == ToSigned(ConvToInvariadicValue(buf, Uint16, end).value.u, 2)
  {
  }

  /** `int32` holds the two's-complement reading of the `uint32` read. */
  lemma Int32ReinterpretsUint32(buf: seq<Byte>, end: Selector)
    requires |buf| >= 4
    ensures ConvToInvariadicValue(buf, Int32, end).value.i
         == ToSigned(ConvToInvariadicValue(buf, Uint32, end).value.u, 4)
  {
  }

  /** `int64` holds the two's-complement reading of the `uint64` read. */
  lemma Int64ReinterpretsUint64(buf: seq<Byte>, end: Selector)
    requires |buf| >= 8
    ensures ConvToInvariadicValue(buf, Int64, end).value.i
         == ToSigned(ConvToInvariadicValue(buf, Uint64, end).value.u, 8)
  {
  }

  /** `int` holds the `uint64` read unchanged, with no signed conversion. */
  lemma IntIsUint64(buf: seq<Byte>, end: Selector)
    requires |buf| >= 8
    ensures ConvToInvariadicValue(buf, Int, end).value.i
         == ConvToInvariadicValue(buf, Uint64, end).value.u
  {
  }
}
