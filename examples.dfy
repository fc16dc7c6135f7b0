/**
 Concrete runs of the parser, worked out from the model: the repository's
 own test case (a struct with one `uint64` field read big-endian, through
 both the decoder and the stream-based method), and a struct of two
 `uint16` fields read in either byte order.
 */
module Examples {
  import opened Bytes
  import opened Types
  import opened Convert
  import opened Decoder
  import opened Parser

  /** A scalar of a kind that has a conversion, with all its bytes in the
      stream, converts exactly those bytes and moves the cursor past them. */
  lemma DecodeWholeScalar(t: Type, data: seq<Byte>, pos: nat, end: Selector)
    requires Convertible(t) && pos + Size(t) <= |data|
    ensures Decode(t, data, pos, end)
         == Outcome(ConvToInvariadicValue(data[pos..pos + Size(t)], t, end), pos + Size(t))
  {
    assert ReadAt(data, pos, Size(t)) == data[pos..pos + Size(t)];
  }

  /** A struct of one field decodes to that field's value. */
  lemma OneFieldStruct(t: Type, data: seq<Byte>, end: Selector, v: Value, p: nat)
    requires t.Struct? && |t.fields| == 1
    requires Decode(t.fields[0].typ, data, 0, end) == Outcome(Ok(v), p)
    ensures DecodeStruct(t, data, 0, end) == Outcome(Ok(StructValue([v])), p)
  {
    assert DecodeFields(t, 0, data, 0, end) == Outcome(Ok([]), 0);
    assert [] + [v] == [v];
  }

  /** A struct of two fields decodes to the first field's value, then the
      second's, read where the first one stopped. */
  lemma TwoFieldStruct(t: Type, data: seq<Byte>, end: Selector, v1: Value, p1: nat, v2: Value, p2: nat)
    requires t.Struct? && |t.fields| == 2 && p1 <= |data|
    requires Decode(t.fields[0].typ, data, 0, end) == Outcome(Ok(v1), p1)
    requires Decode(t.fields[1].typ, data, p1, end) == Outcome(Ok(v2), p2)
    ensures DecodeStruct(t, data, 0, end) == Outcome(Ok(StructValue([v1, v2])), p2)
  {
    assert DecodeFields(t, 0, data, 0, end) == Outcome(Ok([]), 0);
    assert [] + [v1] == [v1];
    assert DecodeFields(t, 1, data, 0, end) == Outcome(Ok([v1]), p1);
    assert [v1] + [v2] == [v1, v2];
  }

  /** `struct { Num uint64 }`. */
  const MyStruct := Struct([Field("Num", Uint64)])

  /** The contents of the repository's test file: de ad be ef de ad be ef. */
  predicate IsDeadBeef(data: seq<Byte>)
  {
    |data| == 8 &&
    data[0] == 0xde && data[1] == 0xad && data[2] == 0xbe && data[3] == 0xef &&
    data[4] == 0xde && data[5] == 0xad && data[6] == 0xbe && data[7] == 0xef
  }

  /** One step of a big-endian read: the first k + 1 bytes are worth 256
      times the first k, plus byte k. */
  lemma BigEndianPrefixStep(data: seq<Byte>, k: nat)
    requires k < |data|
    ensures BigEndian(data[..k + 1]) == 256 * BigEndian(data[..k]) + data[k]
  {
    assert data[..k + 1] == data[..k] + [data[k]];
    BigEndianAppend(data[..k], data[k]);
  }

  lemma BigEndianDeadBeef(data: seq<Byte>)
    requires IsDeadBeef(data)
    ensures BigEndian(data) == 16045690984833335023
  {
    assert data[..0] == [];
    BigEndianPrefixStep(data, 0);
    assert BigEndian(data[..1]) == 0xde;
    BigEndianPrefixStep(data, 1);
    assert BigEndian(data[..2]) == 0xdead;
    BigEndianPrefixStep(data, 2);
    assert BigEndian(data[..3]) == 0xdeadbe;
    BigEndianPrefixStep(data, 3);
    assert BigEndian(data[..4]) == 0xdeadbeef;
    BigEndianPrefixStep(data, 4);
    assert BigEndian(data[..5]) == 0xdeadbeefde;
    BigEndianPrefixStep(data, 5);
    assert BigEndian(data[..6]) == 0xdeadbeefdead;
    BigEndianPrefixStep(data, 6);
    assert BigEndian(data[..7]) == 0xdeadbeefdeadbe;
    BigEndianPrefixStep(data, 7);
    assert BigEndian(data[..8]) == 0xdeadbeefdeadbeef == 16045690984833335023;
    assert data[..8] == data;
  }

  /** Eight bytes read big-endian into `struct { Num uint64 }` give Num the
      big-endian value of those bytes and leave the cursor at the end. */
  lemma MyStructReadsBigEndian(data: seq<Byte>)
    requires |data| == 8
    ensures DecodeStruct(MyStruct, data, 0, BIG_ENDIAN)
         == Outcome(Ok(StructValue([Uint64Value(BigEndian(data))])), 8)
  {
    DecodeWholeScalar(Uint64, data, 0, BIG_ENDIAN);
    assert data[0..8] == data && data[..8] == data;
    assert MyStruct.fields[0].typ == Uint64;
    OneFieldStruct(MyStruct, data, BIG_ENDIAN, Uint64Value(BigEndian(data)), 8);
  }

  /** The repository's test: the eight bytes de ad be ef de ad be ef, read
      big-endian into `struct { Num uint64 }`, give Num = 16045690984833335023
      and leave the cursor at the end of the file. */
  lemma ParserIntExample(data: seq<Byte>)
    requires IsDeadBeef(data)
    ensures DecodeStruct(MyStruct, data, 0, BIG_ENDIAN)
         == Outcome(Ok(StructValue([Uint64Value(16045690984833335023)])), 8)
  {
    MyStructReadsBigEndian(data);
    BigEndianDeadBeef(data);
  }

  /** The repository's test case, through the stream-based method. */
  method TestParserInt(contents: seq<Byte>) returns (r: Result<Value>)
    requires IsDeadBeef(contents)
    ensures r == Ok(StructValue([Uint64Value(16045690984833335023)]))
  {
    var f := new ByteStream(contents);
    ParserIntExample(contents);
    r := ParseStructFromBinaryStream(f, MyStruct, BIG_ENDIAN);
  }

  /** `struct { A, B uint16 }`. */
  const Pair := Struct([Field("A", Uint16), Field("B", Uint16)])

  /** Two bytes read as a 16-bit number in either order. */
  lemma ReadUint16(s: seq<Byte>, end: Selector)
    requires |s| == 2
    ensures ReadUint(s, 2, end) == if end == LITTLE_ENDIAN then s[0] as int + 256 * (s[1] as int) else 256 * (s[0] as int) + s[1]
  {
    assert s[..2] == s;
    if end == LITTLE_ENDIAN {
      var tail := s[1..];
      assert tail[1..] == [];
      assert LittleEndian(tail) == s[1];
    } else {
      assert s[..0] == [];
      BigEndianPrefixStep(s, 0);
      BigEndianPrefixStep(s, 1);
    }
  }

  /** Fields are read in declaration order, from consecutive bytes: the
      stream b0 b1 b2 b3 gives A from b0 b1 and B from b2 b3, each in the
      byte order selected, and the cursor ends after the fourth byte. */
  lemma PairExample(data: seq<Byte>, end: Selector)
    requires |data| == 4
    ensures DecodeStruct(Pair, data, 0, end)
         == if end == LITTLE_ENDIAN then
              Outcome(Ok(StructValue([Uint16Value(data[0] as int + 256 * (data[1] as int)), Uint16Value(data[2] as int + 256 * (data[3] as int))])), 4)
            else
              Outcome(Ok(StructValue([Uint16Value(256 * (data[0] as int) + data[1]), Uint16Value(256 * (data[2] as int) + data[3])])), 4)
  {
    var a, b := data[0..2], data[2..4];
    ReadUint16(a, end);
    ReadUint16(b, end);
    DecodeWholeScalar(Uint16, data, 0, end);
    DecodeWholeScalar(Uint16, data, 2, end);
    assert Pair.fields[0].typ == Uint16 && Pair.fields[1].typ == Uint16;
    TwoFieldStruct(Pair, data, end, Uint16Value(ReadUint(a, 2, end)), 2, Uint16Value(ReadUint(b, 2, end)), 4);
  }
}
