/**
 The parser's traversal as functions of the stream's bytes and cursor: the
 specification that the methods of module Parser are proved to follow.

 Every step returns an Outcome: its result and where the cursor is
 afterwards. `DecodeFields(t, i, ...)` is the state of the field loop of
 `ParseStructFromBinaryStream` after i iterations, and `DecodeElems(t, i, ...)`
 that of the element loop of `ParseArrayFromBinaryStream`.
 */
module Decoder {
  import opened Bytes
  import opened Types
  import opened Convert

  function Min(a: nat, b: nat): nat
  {
    if a <= b then a else b
  }

  /** The number of bytes `stream.Read` delivers into an n-byte buffer when
      the cursor is at pos: as many as requested, or as many as are left. */
  function Available(data: seq<Byte>, pos: nat, n: nat): (got: nat)
    requires pos <= |data|
    ensures got <= n && pos + got <= |data|
    ensures got == n || pos + got == |data|
  {
    Min(n, |data| - pos)
  }

  /** The contents of the fresh, zero-filled n-byte buffer after
      `stream.Read(buf)` with the cursor at pos: the bytes delivered, then
      the zeros that were not overwritten. */
  function ReadAt(data: seq<Byte>, pos: nat, n: nat): (buf: seq<Byte>)
    requires pos <= |data|
    ensures |buf| == n
  {
    var got := Available(data, pos, n);
    data[pos..pos + got] + seq(n - got, _ => 0)
  }

  /** Byte k of the buffer is byte pos + k of the stream, or zero past its end. */
  lemma ReadAtContents(data: seq<Byte>, pos: nat, n: nat)
    requires pos <= |data|
    ensures forall k | 0 <= k < n :: ReadAt(data, pos, n)[k] == if pos + k < |data| then data[pos + k] else 0
  {
  }

  /** Reading into a zero-filled buffer gives ReadAt: the delivered bytes,
      then the zeros that were not overwritten. */
  lemma ReadIntoZeros(data: seq<Byte>, pos: nat, n: nat, zeros: seq<Byte>)
    requires pos <= |data| && |zeros| == n
    requires forall k | 0 <= k < n :: zeros[k] == 0
    ensures data[pos..pos + Available(data, pos, n)] + zeros[Available(data, pos, n)..] == ReadAt(data, pos, n)
  {
    var got := Available(data, pos, n);
    assert zeros[got..] == seq(n - got, _ => 0);
  }

  /** `doParseValue`. */
  function Decode(t: Type, data: seq<Byte>, pos: nat, end: Selector): (o: Outcome<Value>)
    requires pos <= |data|
    ensures pos <= o.pos <= |data|
    decreases t, 2
  {
    if t.Invalid? then
      Outcome(Err(FieldNotValid), pos)
    else if IsVariadic(t) then
      Outcome(Err(FieldVariadic), pos)
    else if t.Struct? then
      DecodeStruct(t, data, pos, end)
    else if t.Array? then
      DecodeArray(t, data, pos, end)
    else
      var numberSize := Size(t);
      var buf := ReadAt(data, pos, numberSize);
      var next: nat := pos + Available(data, pos, numberSize);
      if numberSize > |buf| then
        Outcome(Err(ContentNotLongEnough), next)
      else
        Outcome(ConvToInvariadicValue(buf, t, end), next)
  }

  /** A scalar kind reads its `Size()` bytes, padded with zeros at the end
      of the stream, and converts them; the length check never fails. */
  lemma DecodeScalar(t: Type, data: seq<Byte>, pos: nat, end: Selector)
    requires IsScalar(t) && pos <= |data|
    ensures Decode(t, data, pos, end)
         == Outcome(ConvToInvariadicValue(ReadAt(data, pos, Size(t)), t, end), pos + Available(data, pos, Size(t)))
  {
  }

  /** `ParseStructFromBinaryStream`: all fields, or the first field's error. */
  function DecodeStruct(t: Type, data: seq<Byte>, pos: nat, end: Selector): (o: Outcome<Value>)
    requires t.Struct? && pos <= |data|
    ensures pos <= o.pos <= |data|
    decreases t, 1
  {
    var fs := DecodeFields(t, |t.fields|, data, pos, end);
    match fs.result
    case Err(e) => Outcome(Err(e), fs.pos)
    case Ok(vs) => Outcome(Ok(StructValue(vs)), fs.pos)
  }

  /** `ParseArrayFromBinaryStream`: all elements, or the first element's error. */
  function DecodeArray(t: Type, data: seq<Byte>, pos: nat, end: Selector): (o: Outcome<Value>)
    requires t.Array? && pos <= |data|
    ensures pos <= o.pos <= |data|
    decreases t, 1
  {
    var es := DecodeElems(t, t.len, data, pos, end);
    match es.result
    case Err(e) => Outcome(Err(e), es.pos)
    case Ok(vs) => Outcome(Ok(ArrayValue(vs)), es.pos)
  }

  /** The field loop of `ParseStructFromBinaryStream` after its first i
      iterations: the values of fields 0..i-1, or the first field's error. */
  function DecodeFields(t: Type, i: nat, data: seq<Byte>, pos: nat, end: Selector): (o: Outcome<seq<Value>>)
    requires t.Struct? && i <= |t.fields| && pos <= |data|
    ensures pos <= o.pos <= |data|
    ensures o.result.Ok? ==> |o.result.value| == i
    decreases t, 0, i
  {
    if i == 0 then
      Outcome(Ok([]), pos)
    else
      var prev := DecodeFields(t, i - 1, data, pos, end);
      match prev.result
      case Err(_) => prev
      case Ok(vs) =>
        var field := Decode(t.fields[i - 1].typ, data, prev.pos, end);
        match field.result
        case Err(e) => Outcome(Err(e), field.pos)
        case Ok(v) => Outcome(Ok(vs + [v]), field.pos)
  }

  /** The element loop of `ParseArrayFromBinaryStream` after its first i
      iterations: the values of elements 0..i-1, or the first element's error. */
  function DecodeElems(t: Type, i: nat, data: seq<Byte>, pos: nat, end: Selector): (o: Outcome<seq<Value>>)
    requires t.Array? && i <= t.len && pos <= |data|
    ensures pos <= o.pos <= |data|
    ensures o.result.Ok? ==> |o.result.value| == i
    decreases t, 0, i
  {
    if i == 0 then
      Outcome(Ok([]), pos)
    else
      var prev := DecodeElems(t, i - 1, data, pos, end);
      match prev.result
      case Err(_) => prev
      case Ok(vs) =>
        var elem := Decode(t.elem, data, prev.pos, end);
        match elem.result
        case Err(e) => Outcome(Err(e), elem.pos)
        case Ok(v) => Outcome(Ok(vs + [v]), elem.pos)
  }

  /** Fail-fast: once a field has failed, the loop has stopped, and neither
      the result nor the cursor changes for the fields after it. */
  lemma {:induction false} FieldsStopAtError(t: Type, i: nat, j: nat, data: seq<Byte>, pos: nat, end: Selector)
    requires t.Struct? && i <= j <= |t.fields| && pos <= |data|
    requires DecodeFields(t, i, data, pos, end).result.Err?
    ensures DecodeFields(t, j, data, pos, end) == DecodeFields(t, i, data, pos, end)
    decreases j
  {
    if j > i {
      FieldsStopAtError(t, i, j - 1, data, pos, end);
    }
  }

  /** Fail-fast: once an element has failed, the loop has stopped, and
      neither the result nor the cursor changes for the elements after it. */
  lemma {:induction false} ElemsStopAtError(t: Type, i: nat, j: nat, data: seq<Byte>, pos: nat, end: Selector)
    requires t.Array? && i <= j <= t.len && pos <= |data|
    requires DecodeElems(t, i, data, pos, end).result.Err?
    ensures DecodeElems(t, j, data, pos, end) == DecodeElems(t, i, data, pos, end)
    decreases j
  {
    if j > i {
      ElemsStopAtError(t, i, j - 1, data, pos, end);
    }
  }

  /** The number of bytes a type occupies in the stream: the sum of its
      scalars' sizes, each array's share multiplied by its length. No
      padding: fields are read back to back. */
  function Footprint(t: Type): nat
    decreases t, 1
  {
    match t
    case Array(_, len) => ElemsFootprint(t, len)
    case Struct(fields) => FieldsFootprint(t, |fields|)
    case _ => if IsScalar(t) then Size(t) else 0
  }

  /** The bytes occupied by the first i fields of struct t. */
  function FieldsFootprint(t: Type, i: nat): nat
    requires t.Struct? && i <= |t.fields|
    decreases t, 0, i
  {
    if i == 0 then 0 else FieldsFootprint(t, i - 1) + Footprint(t.fields[i - 1].typ)
  }

  /** The bytes occupied by the first i elements of array t. */
  function ElemsFootprint(t: Type, i: nat): nat
    requires t.Array?
    decreases t, 0, i
  {
    if i == 0 then 0 else ElemsFootprint(t, i - 1) + Footprint(t.elem)
  }

  /** The error decoding t reports, determined by the type alone: the
      offending kind itself, the element kind of a non-empty array, or the
      first field in declaration order that has an error. */
  function ErrorOf(t: Type): Option<Error>
    decreases t, 1
  {
    match t
    case Invalid => Some(FieldNotValid)
    case Complex64 => Some(TypeError)
    case Complex128 => Some(TypeError)
    case Array(elem, len) => if len == 0 then None else ErrorOf(elem)
    case Struct(fields) => FirstFieldError(t, 0, |fields|)
    case _ => if IsRejected(t) then Some(FieldVariadic) else None
  }

  /** The error of the first field among fields k..i-1 that has one,
      searching forward from k. */
  function FirstFieldError(t: Type, k: nat, i: nat): Option<Error>
    requires t.Struct? && k <= i <= |t.fields|
    decreases t, 0, i - k
  {
    if k == i then None
    else if ErrorOf(t.fields[k].typ).Some? then ErrorOf(t.fields[k].typ)
    else FirstFieldError(t, k + 1, i)
  }

  /** The byte layout the parser reads: the n-byte scalars of a value in
      traversal order, each in the byte order `end` selects. */
  function Encode(v: Value, t: Type, end: Selector): (s: seq<Byte>)
    requires HasType(v, t)
    decreases t, 1
  {
    if t.Array? then EncodeElems(v, t, t.len, end)
    else if t.Struct? then EncodeFields(v, t, |t.fields|, end)
    else
      ScalarValueIsConvertible(v, t);
      WriteScalar(v, t, end)
  }

  /** The layout of the first i fields of a struct value. */
  function EncodeFields(v: Value, t: Type, i: nat, end: Selector): seq<Byte>
    requires t.Struct? && HasType(v, t) && i <= |t.fields|
    decreases t, 0, i
  {
    if i == 0 then []
    else EncodeFields(v, t, i - 1, end) + Encode(v.fields[i - 1], t.fields[i - 1].typ, end)
  }

  /** The layout of the first i elements of an array value. */
  function EncodeElems(v: Value, t: Type, i: nat, end: Selector): seq<Byte>
    requires t.Array? && HasType(v, t) && i <= t.len
    decreases t, 0, i
  {
    if i == 0 then []
    else EncodeElems(v, t, i - 1, end) + Encode(v.elems[i - 1], t.elem, end)
  }
}
