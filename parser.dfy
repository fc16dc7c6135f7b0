/**
 The parser as the source runs it: a stream whose cursor every read
 advances, and methods that walk a type, reading into fresh buffers and
 collecting the decoded fields and elements in order. Each method is proved
 to leave the stream and return the result that module Decoder specifies.
 */
module Parser {
  import opened Bytes
  import opened Types
  import opened Convert
  import opened Decoder

  /** A readable file: its contents and the read cursor. */
  class ByteStream {
    const data: seq<Byte>
    var pos: nat

    ghost predicate Valid()
      reads this
    {
      pos <= |data|
    }

    constructor (contents: seq<Byte>)
      ensures Valid() && data == contents && pos == 0
    {
      data := contents;
      pos := 0;
    }

    /** `stream.Read(buf)`: copies the next bytes into buf, as many as fit
        or as many as are left, leaves the rest of buf as it was, and
        advances the cursor past what it copied. */
    method Read(buf: array<Byte>) returns (count: nat)
      requires Valid()
      modifies this, buf
      ensures Valid()
      ensures count == Available(data, old(pos), buf.Length)
      ensures pos == old(pos) + count
      ensures buf[..] == data[old(pos)..pos] + old(buf[..])[count..]
    {
      ghost var before := buf[..];
      count := Min(buf.Length, |data| - pos);
      var k := 0;
      while k < count
        invariant 0 <= k <= count
        invariant pos == old(pos)
        invariant forall j | 0 <= j < k :: buf[j] == data[pos + j]
        invariant forall j | k <= j < buf.Length :: buf[j] == before[j]
      {
        buf[k] := data[pos + k];
        k := k + 1;
      }
      assert buf[..] == data[pos..pos + count] + before[count..];
      pos := pos + count;
    }
  }

  /** `doParseValue`: reject the kinds it cannot parse without reading, walk
      structs and arrays, and read `Size()` bytes for everything else. */
  method DoParseValue(stream: ByteStream, typ: Type, end: Selector) returns (r: Result<Value>)
    requires stream.Valid()
    modifies stream
    ensures stream.Valid()
    ensures Outcome(r, stream.pos) == Decode(typ, stream.data, old(stream.pos), end)
    decreases typ, 2
  {
    var kind := Kind(typ);
    KindClassifies(typ);
    if kind == KindInvalid {
      return Err(FieldNotValid);
    } else if kind >= KindChan && kind != KindStruct {
      return Err(FieldVariadic);
    } else if typ.Struct? {
      r := ParseStructFromBinaryStream(stream, typ, end);
    } else if typ.Array? {
      r := ParseArrayFromBinaryStream(stream, typ, end);
    } else {
      assert IsScalar(typ);
      ghost var start := stream.pos;
      var numberSize := Size(typ);
      var buf := new Byte[numberSize](_ => 0);
      ReadIntoZeros(stream.data, start, numberSize, buf[..]);
      var _ := stream.Read(buf);
      if numberSize > buf.Length {
        return Err(ContentNotLongEnough);
      }
      r := ConvToInvariadicValue(buf[..], typ, end);
      DecodeScalar(typ, stream.data, start, end);
    }
  }

  /** `ParseStructFromBinaryStream`: the fields in declaration order, stopping
      at the first field that fails. */
  method ParseStructFromBinaryStream(stream: ByteStream, typ: Type, end: Selector) returns (r: Result<Value>)
    requires stream.Valid() && typ.Struct?
    modifies stream
    ensures stream.Valid()
    ensures Outcome(r, stream.pos) == DecodeStruct(typ, stream.data, old(stream.pos), end)
    decreases typ, 1
  {
    var newStruct: seq<Value> := [];
    var i := 0;
    while i < |typ.fields|
      invariant 0 <= i <= |typ.fields|
      invariant stream.Valid()
      invariant DecodeFields(typ, i, stream.data, old(stream.pos), end) == Outcome(Ok(newStruct), stream.pos)
    {
      var parsed := DoParseValue(stream, typ.fields[i].typ, end);
      if parsed.Err? {
        FieldsStopAtError(typ, i + 1, |typ.fields|, stream.data, old(stream.pos), end);
        return Err(parsed.error);
      }
      newStruct := newStruct + [parsed.value];
      i := i + 1;
    }
    return Ok(StructValue(newStruct));
  }

  /** `ParseArrayFromBinaryStream`: `Len()` elements in index order, stopping
      at the first element that fails. */
  method ParseArrayFromBinaryStream(stream: ByteStream, typ: Type, end: Selector) returns (r: Result<Value>)
    requires stream.Valid() && typ.Array?
    modifies stream
    ensures stream.Valid()
    ensures Outcome(r, stream.pos) == DecodeArray(typ, stream.data, old(stream.pos), end)
    decreases typ, 1
  {
    var arrayLen := typ.len;
    var elemType := typ.elem;
    var arr: seq<Value> := [];
    var i := 0;
    while i < arrayLen
      invariant 0 <= i <= arrayLen
      invariant stream.Valid()
      invariant DecodeElems(typ, i, stream.data, old(stream.pos), end) == Outcome(Ok(arr), stream.pos)
    {
      var parsed := DoParseValue(stream, elemType, end);
      if parsed.Err? {
        ElemsStopAtError(typ, i + 1, arrayLen, stream.data, old(stream.pos), end);
        return Err(parsed.error);
      }
      arr := arr + [parsed.value];
      i := i + 1;
    }
    return Ok(ArrayValue(arr));
  }
}
