# gosp parser, modelled in Dafny

gosp reads a Go struct out of a binary file. It takes the struct's type from
`reflect` and walks its fields in declaration order. Nested structs are
walked recursively, and an array of length n is walked as n elements of its
element type. Each scalar field is read as `Size()` bytes from the file's
cursor and converted in the byte order the caller picks: `LITTLE_ENDIAN` (0)
or `BIG_ENDIAN` (1). Kinds the parser cannot lay out flat are refused: Invalid,
and every kind from Chan upward except Struct. The complex kinds are read and
then refused.

The model has seven modules:

- `Bytes`: bytes and the two byte orders of `encoding/binary`, with their
  inverses.
- `Types`: a stand-in for `reflect.Type` (one constructor per `reflect.Kind`,
  with the real kind numbers), the value trees the parser builds, and one
  error per message the parser can return.
- `Convert`: `convToInvariadicValue` and the selector constants, plus the bytes
  a scalar value is written as (its partner).
- `Decoder`: the parser's traversal as pure functions of the file's bytes and
  cursor. `Decode` is `doParseValue`; `DecodeFields` and `DecodeElems` are the
  two loops after i iterations. This is the specification the methods are
  proved against.
- `Parser`: the parser as the source runs it. A `ByteStream` class holds the
  file contents and a cursor that `Read` moves. `DoParseValue`,
  `ParseStructFromBinaryStream` and `ParseArrayFromBinaryStream` are methods
  with the source's loops, fresh zero-filled buffers and early returns. Each
  is proved to return and leave the cursor exactly as `Decoder` says.
- `Properties`: what the traversal guarantees:
  - the error depends on the type alone, never on the data;
  - "file content not long enough" is never reported;
  - a short file is zero-padded;
  - a successful read consumes the type's footprint;
  - decoded values are well typed;
  - only 0 selects little-endian;
  - decoding the packed layout of any well-typed value gives it back;
  - fields and elements are decoded in order;
  - the loops stop at the first failure.
- `Examples`: the repository's test (`de ad be ef de ad be ef` read big-endian
  into `struct { Num uint64 }`), both through the decoder and through the
  method, and a two-field struct in either byte order.

The file is a byte sequence plus a cursor. `Read(buf)` copies
`min(len(buf), bytes left)` bytes and leaves the rest of the buffer as it
was. Because the parser always reads into a fresh zero-filled buffer, a file
that ends inside a scalar gives that scalar's leading bytes followed by zeros.
The check `numberSize > len(buf)` (parser.go:113) compares the buffer's size
with itself, so it never fires. The check looks meant to report a short file
as an error; as written it reports nothing, and the model follows the code:
see `Properties.ShortReadIsZeroPadded` and
`Properties.ContentNotLongEnoughNeverReported`.

## Model

| member | source | states |
|---|---|---|
| Bytes.LittleEndian | parser.go:147 | the little-endian value of n bytes is below 256^n |
| Bytes.BigEndian | parser.go:149 | the big-endian value of n bytes is below 256^n |
| Bytes.LittleEndianRoundTrip | parser.go:145-214 | writing v < 256^n little-endian in n bytes and reading it back gives v |
| Bytes.BigEndianRoundTrip | parser.go:145-214 | writing v < 256^n big-endian in n bytes and reading it back gives v |
| Bytes.LittleEndianOfBytes | parser.go:145-214 | every byte run is the little-endian form of its value, so reading loses nothing |
| Bytes.BigEndianOfBytes | parser.go:145-214 | every byte run is the big-endian form of its value |
| Bytes.LittleEndianFirstByteLeast | parser.go:147 | in little-endian order the first byte is the value mod 256 and the rest is the value div 256 |
| Bytes.BigEndianFirstByteMost | parser.go:149 | in big-endian order the first byte is worth 256^(n-1), and the rest is read the same way |
| Bytes.BigEndianIsReversedLittleEndian | parser.go:145-214 | reading big-endian is reading the reversed bytes little-endian |
| Types.Kind | parser.go:84 | every kind number lies in reflect's range 0..26 |
| Types.KindClassifies | parser.go:84-106 | kind 0 is exactly Invalid; kinds >= Chan other than Struct are exactly the variadic kinds; kind 25 is exactly Struct; the kinds reaching the default branch are exactly 1..16 |
| Types.Size | parser.go:108 | every kind reaching the default branch has a size of 1 to 16 bytes |
| Types.Convertible | parser.go:137-216 | the kinds `convToInvariadicValue` handles are exactly the default-branch kinds other than Complex64 and Complex128 |
| Types.ScalarValueIsConvertible | parser.go:137-216 | a value of a type other than array or struct always has a kind the conversion handles |
| Convert.SelectorConstants | parser.go:13-14 | the selectors `LITTLE_ENDIAN` = 0 and `BIG_ENDIAN` = 1; the first reads the least significant byte first, the second the most significant byte first |
| Convert.ReadUint | parser.go:146-213 | `binary.XEndian.UintN` yields a number below 256^n |
| Convert.ToSigned | parser.go:152-170 | the Go conversion `intN(uintN)` gives a value in the signed n-byte range with the same bit pattern |
| Convert.ToUnsigned | parser.go:152-170 | the bit pattern of a signed value is below 256^n, and its top half holds exactly the negatives |
| Convert.ConvToInvariadicValue | parser.go:124-218 | the conversion succeeds exactly for the kinds it handles, and every other kind fails with "type error" |
| Convert.ConvHasType | parser.go:137-214 | a successful conversion yields the Go type of its kind, in range for that width |
| Convert.WriteUint | parser.go:146-213 | the n-byte form of a number in the selected order has n bytes |
| Convert.WriteScalar | parser.go:137-214 | a scalar value's byte form is exactly `Size()` bytes long |
| Convert.ConvWriteScalar | parser.go:137-214 | converting a scalar value's byte form gives the value back, for every handled kind and both byte orders |
| Convert.ReadWriteUint | parser.go:146-213 | reading back an n-byte form in the same order gives the number written |
| Convert.SignedRoundTrip | parser.go:152-170 | an in-range signed value survives the trip through its bit pattern |
| Convert.NonZeroEndianIsBig | parser.go:146-213 | any selector other than `LITTLE_ENDIAN` converts exactly as `BIG_ENDIAN` does |
| Convert.BoolFromFirstByte | parser.go:138-144 | a bool is true exactly when the first byte is non-zero, and no other byte matters |
| Convert.Int8ReinterpretsUint8 | parser.go:151-152 | `int8` holds the two's-complement reading of the byte that `uint8` reads |
| Convert.Int16ReinterpretsUint16 | parser.go:153-158 | `int16` holds the two's-complement reading of the `uint16` read |
| Convert.Int32ReinterpretsUint32 | parser.go:159-164 | `int32` holds the two's-complement reading of the `uint32` read |
| Convert.Int64ReinterpretsUint64 | parser.go:165-170 | `int64` holds the two's-complement reading of the `uint64` read |
| Convert.IntIsUint64 | parser.go:145-150 | `int` holds the raw `uint64` read, with no signed conversion |
| Decoder.Available | parser.go:110 | `stream.Read` delivers at most the buffer's size, stays inside the file, and stops short only at the end of the file |
| Decoder.ReadAt | parser.go:108-110 | the buffer after the read is `Size()` bytes long |
| Decoder.ReadAtContents | parser.go:108-110 | byte k of the buffer is file byte pos + k, or zero past the end of the file |
| Decoder.Decode | parser.go:78-122 | a parse never moves the cursor backwards or past the end of the file |
| Decoder.DecodeStruct | parser.go:36-51 | a struct parse keeps the cursor inside the file |
| Decoder.DecodeArray | parser.go:59-75 | an array parse keeps the cursor inside the file |
| Decoder.DecodeFields | parser.go:42-49 | after i iterations of the field loop the cursor is inside the file and there are exactly i values |
| Decoder.DecodeElems | parser.go:67-73 | after i iterations of the element loop the cursor is inside the file and there are exactly i values |
| Decoder.FieldsStopAtError | parser.go:45-47 | once a field has failed, later fields change neither the result nor the cursor |
| Decoder.ElemsStopAtError | parser.go:69-71 | once an element has failed, later elements change neither the result nor the cursor |
| Parser.ByteStream.constructor | parser_test.go:21 | an opened file has its contents and the cursor at 0 |
| Parser.ByteStream.Read | parser.go:110 | the read copies the delivered bytes to the front of the buffer, keeps the rest of the buffer, and moves the cursor by the count |
| Parser.DoParseValue | parser.go:78-122 | the result and the new cursor are those `Decoder.Decode` gives for the old cursor |
| Parser.ParseStructFromBinaryStream | parser.go:36-51 | the loop returns all fields in order, or the first field's error, with the cursor where `Decoder.DecodeStruct` puts it |
| Parser.ParseArrayFromBinaryStream | parser.go:59-75 | the loop returns `Len()` elements in order, or the first element's error, with the cursor where `Decoder.DecodeArray` puts it |
| Properties.DecodeFailsAsTypeDictates | parser.go:84-121 | a parse fails exactly when the type has an error, and with that error; the file's contents and length never matter |
| Properties.FieldsFailAsTypeDictates | parser.go:42-49 | the field loop fails exactly when a field read so far has an error, and with the first such field's error |
| Properties.ElemsFailAsTypeDictates | parser.go:67-73 | the element loop fails, after at least one iteration, exactly when the element type has an error |
| Properties.FirstFieldErrorExtend | parser.go:42-47 | the first failing field among the first i is the first among the first i-1, or else field i-1 |
| Properties.ErrorOfNeverContentNotLongEnough | parser.go:113-115 | no type's error is "file content not long enough" |
| Properties.FirstFieldErrorNeverContentNotLongEnough | parser.go:42-47 | no field's error is "file content not long enough" |
| Properties.ContentNotLongEnoughNeverReported | parser.go:108-115 | no parse ever reports "file content not long enough", whatever the file |
| Properties.RejectedKindsReadNothing | parser.go:86-89 | Invalid fails with "not valid" and the variadic kinds with "variadic", both before the cursor moves |
| Properties.ShortReadIsZeroPadded | parser.go:108-116 | when the file ends inside a scalar, the bytes left are padded with zeros, converted, and the cursor stops at the end of the file |
| Properties.ComplexKindsReadThenFail | parser.go:108-116 | complex64 and complex128 consume 8 and 16 bytes (or up to the end of the file), then fail with "type error" |
| Properties.DecodeConsumesFootprint | parser.go:78-122 | a successful parse advances the cursor by the type's packed size, or to the end of a shorter file |
| Properties.FieldsConsumeFootprint | parser.go:42-49 | a successful field loop advances by the packed size of the fields read |
| Properties.ElemsConsumeFootprint | parser.go:67-73 | a successful element loop advances by the packed size of the elements read |
| Properties.DecodeTyped | parser.go:78-122 | a parsed value has its type's shape: arrays their length, structs one value per field, scalars of their kind and in range |
| Properties.FieldsTyped | parser.go:42-49 | each value of a successful field loop has its field's type |
| Properties.ElemsTyped | parser.go:67-73 | each value of a successful element loop has the element type |
| Properties.DecodeNonZeroSelectorIsBigEndian | parser.go:146-213 | through the whole type tree, any selector other than `LITTLE_ENDIAN` parses exactly as `BIG_ENDIAN` |
| Properties.FieldsNonZeroSelectorIsBigEndian | parser.go:42-49 | the same for the field loop |
| Properties.ElemsNonZeroSelectorIsBigEndian | parser.go:67-73 | the same for the element loop |
| Properties.EncodeLength | parser.go:108 | the packed layout of a value is exactly its type's footprint |
| Properties.EncodeFieldsLength | parser.go:42-49 | the layout of the first i fields is their packed size |
| Properties.EncodeElemsLength | parser.go:67-73 | the layout of the first i elements is their packed size |
| Properties.DecodeEncode | parser.go:36-122 | parsing the packed layout of any well-typed value, wherever it sits in the file, gives the value back and leaves the cursor just past it |
| Properties.DecodeLayout | parser.go:78-122 | the same, for a file holding the layout at the cursor |
| Properties.DecodeFieldsLayout | parser.go:42-49 | the field loop over a struct value's layout returns the first i field values and stops after their bytes |
| Properties.DecodeElemsLayout | parser.go:67-73 | the element loop over an array value's layout returns the first i elements and stops after their bytes |
| Properties.FieldDecodedInOrder | parser.go:42-49 | after a successful field loop, field k is what its type parses at offset FieldsFootprint(k), just past fields 0..k-1 |
| Properties.ElemDecodedInOrder | parser.go:67-73 | after a successful element loop, element k is what the element type parses at offset k times the element's footprint |
| Properties.StructStopsAtFirstFailingField | parser.go:42-47 | a failed struct parse is the error of its first failing field, and no later field is read |
| Properties.ArrayStopsAtFirstFailingElem | parser.go:67-71 | a failed array parse is the error of its first failing element, and no later element is read |
| Examples.DecodeWholeScalar | parser.go:106-120 | a handled scalar with all its bytes in the file converts exactly those bytes and moves past them |
| Examples.OneFieldStruct | parser.go:42-50 | a one-field struct parses to that field's value |
| Examples.TwoFieldStruct | parser.go:42-50 | a two-field struct parses to the first field's value, then the second's read where the first stopped |
| Examples.BigEndianDeadBeef | parser_test.go:17-39 | de ad be ef de ad be ef read big-endian is 16045690984833335023 |
| Examples.MyStructReadsBigEndian | parser_test.go:25 | eight bytes parsed big-endian into `struct { Num uint64 }` give Num their big-endian value and end the cursor at 8 |
| Examples.ParserIntExample | parser_test.go:17-39 | the test's bytes parsed big-endian give Num = 16045690984833335023, with the whole file consumed |
| Examples.TestParserInt | parser_test.go:9-41 | the stream-based method returns `struct { Num: 16045690984833335023 }` for the test's file |
| Examples.ReadUint16 | parser.go:179-184 | two bytes read as a `uint16` are b0 + 256 b1 little-endian and 256 b0 + b1 otherwise |
| Examples.PairExample | parser.go:42-50 | `struct { A, B uint16 }` over four bytes takes A from bytes 0-1 and B from bytes 2-3, in the selected order, and consumes all four |

## Left out

- I/O: the `*os.File`, including the test's file creation and removal, is a byte sequence held by `ByteStream`. On a regular file `os.File.Read` delivers min(len(buf), bytes left) bytes, and at end of file it returns `(0, io.EOF)`. parser.go:110 discards both of Read's results, so the model's `Read` returns only the count and has no end-of-file error; nothing the parser does depends on either. Errors from the operating system are not modelled.
- `Parse` (parser.go:18-24) only calls `ParseStructFromBinaryStream` and discards its result. It has no separate member.
- `reflect` is replaced by the `Type` and `Value` datatypes. `reflect.New`, `field.Set` and `arr.Index(i).Set` become building a sequence of values. The mutable `reflect.Value` that `ParseArrayFromBinaryStream` writes into, and that doParseValue passes on as `val` (parser.go:68, 101), is not modelled. Nor are the panics that `Set` raises when a nested array's elements are written into the outer array, or when `field.Set` (parser.go:48) meets an unexported or blank `_` field; the model's `Field(name, typ)` accepts any name.
- Parser.ParseStructFromBinaryStream and Parser.ParseArrayFromBinaryStream require a struct or an array type. The source panics in `NumField`/`Len` on anything else, and the model does not represent panics.
- Convert.ConvToInvariadicValue: for kind `int` the source returns a `uint64` value that `field.Set` would refuse (a panic). The model keeps the raw unsigned read as the `int` field's value.
- Convert.ConvToInvariadicValue: `float32(u)` and `float64(u)` are numeric conversions from the unsigned read, not bit reinterpretations. The model keeps the integer that is converted and does not model floating-point rounding.
- The `newSubStruct.(reflect.Value)` assertion (parser.go:95-98) always succeeds, because `ParseStructFromBinaryStream` returns a `reflect.Value`. The model has no such step.
- `Size()` follows a 64-bit target (`int`, `uint` and `uintptr` are 8 bytes). Go's alignment padding inside nested structs is not part of the byte layout the parser reads, since it reads field by field. `Footprint` is therefore the packed size.
- A file that ends inside a scalar is not an error in the code (the length check at parser.go:113 is always false), so the model has no "insufficient data" error and gives the code's zero padding instead.
