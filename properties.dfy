/**
 What the parser guarantees, proved about the specification in module
 Decoder (and so, through the methods' postconditions, about module Parser):
 which types fail and with which error, how many bytes a decode consumes,
 the shape of what it returns, the byte-order selector, the round trip with
 the layout, the order in which fields and elements are read, and fail-fast.
 */
module Properties {
  import opened Bytes
  import opened Types
  import opened Convert
  import opened Decoder

  /** r fails exactly when e names an error, and then with that error. */
  predicate Agrees<T>(r: Result<T>, e: Option<Error>)
  {
    (r.Err? <==> e.Some?) && (r.Err? ==> r.error == e.value)
  }

  // ----- Which types fail, and with which error -------------------------

  /** Whether a decode fails, and with which error, depends on the type
      alone: never on the stream's contents or length. In particular a
      stream that ends early is not reported as an error. */
  lemma {:induction false} DecodeFailsAsTypeDictates(t: Type, data: seq<Byte>, pos: nat, end: Selector)
    requires pos <= |data|
    ensures Agrees(Decode(t, data, pos, end).result, ErrorOf(t))
    decreases t, 2
  {
    if t.Struct? {
      FieldsFailAsTypeDictates(t, |t.fields|, data, pos, end);
    } else if t.Array? {
      ElemsFailAsTypeDictates(t, t.len, data, pos, end);
    }
  }

  /** The field loop fails exactly when one of the fields decoded so far has
      an error, and then with the error of the first such field. */
  lemma {:induction false} FieldsFailAsTypeDictates(t: Type, i: nat, data: seq<Byte>, pos: nat, end: Selector)
    requires t.Struct? && i <= |t.fields| && pos <= |data|
    ensures Agrees(DecodeFields(t, i, data, pos, end).result, FirstFieldError(t, 0, i))
    decreases t, 1, i
  {
    if i > 0 {
      FieldsFailAsTypeDictates(t, i - 1, data, pos, end);
      FirstFieldErrorExtend(t, 0, i);
      var prev := DecodeFields(t, i - 1, data, pos, end);
      if prev.result.Ok? {
        DecodeFailsAsTypeDictates(t.fields[i - 1].typ, data, prev.pos, end);
      }
    }
  }

  /** The element loop fails, after at least one iteration, exactly when the
      element type has an error, and then with that error. */
  lemma {:induction false} ElemsFailAsTypeDictates(t: Type, i: nat, data: seq<Byte>, pos: nat, end: Selector)
    requires t.Array? && i <= t.len && pos <= |data|
    ensures Agrees(DecodeElems(t, i, data, pos, end).result, if i == 0 then None else ErrorOf(t.elem))
    decreases t, 1, i
  {
    if i > 0 {
      ElemsFailAsTypeDictates(t, i - 1, data, pos, end);
      var prev := DecodeElems(t, i - 1, data, pos, end);
      if prev.result.Ok? {
        DecodeFailsAsTypeDictates(t.elem, data, prev.pos, end);
      }
    }
  }

  /** Searching fields k..i-1 is searching k..i-2, then field i-1. */
  lemma {:induction false} FirstFieldErrorExtend(t: Type, k: nat, i: nat)
    requires t.Struct? && k < i <= |t.fields|
    ensures FirstFieldError(t, k, i)
         == if FirstFieldError(t, k, i - 1).Some? then FirstFieldError(t, k, i - 1)
            else ErrorOf(t.fields[i - 1].typ)
    decreases i - k
  {
    if k < i - 1 {
      FirstFieldErrorExtend(t, k + 1, i);
    }
  }

  /** No type has "file content not long enough" as its error. */
  lemma {:induction false} ErrorOfNeverContentNotLongEnough(t: Type)
    ensures ErrorOf(t) != Some(ContentNotLongEnough)
    decreases t, 1
  {
    match t
    case Array(elem, len) => ErrorOfNeverContentNotLongEnough(elem);
    case Struct(fields) => FirstFieldErrorNeverContentNotLongEnough(t, 0);
    case _ =>
  }

  lemma {:induction false} FirstFieldErrorNeverContentNotLongEnough(t: Type, k: nat)
    requires t.Struct? && k <= |t.fields|
    ensures FirstFieldError(t, k, |t.fields|) != Some(ContentNotLongEnough)
    decreases t, 0, |t.fields| - k
  {
    if k < |t.fields| {
      ErrorOfNeverContentNotLongEnough(t.fields[k].typ);
      FirstFieldErrorNeverContentNotLongEnough(t, k + 1);
    }
  }

  /** The "file content not long enough" check compares the buffer's
      requested size with its length, which are equal by construction: no
      decode ever reports that error. */
  lemma ContentNotLongEnoughNeverReported(t: Type, data: seq<Byte>, pos: nat, end: Selector)
    requires pos <= |data|
    ensures Decode(t, data, pos, end).result != Err(ContentNotLongEnough)
  {
    DecodeFailsAsTypeDictates(t, data, pos, end);
    ErrorOfNeverContentNotLongEnough(t);
  }

  /** Invalid and the kinds from Chan upward other than Struct fail before
      the cursor moves. */
  lemma RejectedKindsReadNothing(t: Type, data: seq<Byte>, pos: nat, end: Selector)
    requires pos <= |data| && IsRejected(t)
    ensures Decode(t, data, pos, end)
         == Outcome(Err(if t.Invalid? then FieldNotValid else FieldVariadic), pos)
  {
  }

  /** A stream that ends inside a scalar is not an error: the bytes that
      are left fill the front of the buffer, the rest of it stays zero, the
      conversion reads the padded buffer, and the cursor stops at the end of
      the stream. */
  lemma ShortReadIsZeroPadded(t: Type, data: seq<Byte>, pos: nat, end: Selector)
    requires IsScalar(t) && pos <= |data| < pos + Size(t)
    ensures Decode(t, data, pos, end)
         == Outcome(ConvToInvariadicValue(data[pos..] + seq(pos + Size(t) - |data|, _ => 0), t, end), |data|)
  {
    assert Available(data, pos, Size(t)) == |data| - pos;
    assert data[pos..pos + (|data| - pos)] == data[pos..];
  }

  /** The complex kinds reach the read: they consume their size, then fail
      with "type error". */
  lemma ComplexKindsReadThenFail(t: Type, data: seq<Byte>, pos: nat, end: Selector)
    requires pos <= |data| && (t.Complex64? || t.Complex128?)
    ensures Decode(t, data, pos, end)
         == Outcome(Err(TypeError), Min(pos + (if t.Complex64? then 8 else 16), |data|))
  {
  }

  // ----- How many bytes a decode consumes --------------------------------

  /** A successful decode advances the cursor by the type's footprint, or to
      the end of the stream if fewer bytes are left. */
  lemma {:induction false} DecodeConsumesFootprint(t: Type, data: seq<Byte>, pos: nat, end: Selector)
    requires pos <= |data|
    ensures Decode(t, data, pos, end).result.Ok? ==>
              Decode(t, data, pos, end).pos == Min(pos + Footprint(t), |data|)
    decreases t, 2
  {
    if t.Struct? {
      FieldsConsumeFootprint(t, |t.fields|, data, pos, end);
    } else if t.Array? {
      ElemsConsumeFootprint(t, t.len, data, pos, end);
    }
  }

  lemma {:induction false} FieldsConsumeFootprint(t: Type, i: nat, data: seq<Byte>, pos: nat, end: Selector)
    requires t.Struct? && i <= |t.fields| && pos <= |data|
    ensures DecodeFields(t, i, data, pos, end).result.Ok? ==>
              DecodeFields(t, i, data, pos, end).pos == Min(pos + FieldsFootprint(t, i), |data|)
    decreases t, 1, i
  {
    if i > 0 {
      FieldsConsumeFootprint(t, i - 1, data, pos, end);
      var prev := DecodeFields(t, i - 1, data, pos, end);
      if prev.result.Ok? {
        var field := Decode(t.fields[i - 1].typ, data, prev.pos, end);
        DecodeConsumesFootprint(t.fields[i - 1].typ, data, prev.pos, end);
        if field.result.Ok? {
          assert DecodeFields(t, i, data, pos, end).pos == field.pos;
          MinAdvance(pos, FieldsFootprint(t, i - 1), Footprint(t.fields[i - 1].typ), |data|);
        }
      }
    }
  }

  lemma {:induction false} ElemsConsumeFootprint(t: Type, i: nat, data: seq<Byte>, pos: nat, end: Selector)
    requires t.Array? && i <= t.len && pos <= |data|
    ensures DecodeElems(t, i, data, pos, end).result.Ok? ==>
              DecodeElems(t, i, data, pos, end).pos == Min(pos + ElemsFootprint(t, i), |data|)
    decreases t, 1, i
  {
    if i > 0 {
      ElemsConsumeFootprint(t, i - 1, data, pos, end);
      var prev := DecodeElems(t, i - 1, data, pos, end);
      if prev.result.Ok? {
        var elem := Decode(t.elem, data, prev.pos, end);
        DecodeConsumesFootprint(t.elem, data, prev.pos, end);
        if elem.result.Ok? {
          assert DecodeElems(t, i, data, pos, end).pos == elem.pos;
          MinAdvance(pos, ElemsFootprint(t, i - 1), Footprint(t.elem), |data|);
        }
      }
    }
  }

  /** Advancing by b after advancing by a, both bounded by the end of the
      stream, is advancing by a + b. */
  lemma MinAdvance(p: nat, a: nat, b: nat, bound: nat)
    requires p <= bound
    ensures Min(Min(p + a, bound) + b, bound) == Min(p + a + b, bound)
  {
  }

  // ----- What a decode returns -------------------------------------------

  /** A decoded value has the shape of its type: an array value has the
      array's length, a struct value one value per field, and every scalar
      is of its kind and in range for its width. */
  lemma {:induction false} DecodeTyped(t: Type, data: seq<Byte>, pos: nat, end: Selector)
    requires pos <= |data|
    ensures Decode(t, data, pos, end).result.Ok? ==> HasType(Decode(t, data, pos, end).result.value, t)
    decreases t, 2
  {
    if t.Struct? {
      FieldsTyped(t, |t.fields|, data, pos, end);
    } else if t.Array? {
      ElemsTyped(t, t.len, data, pos, end);
    } else if Convertible(t) {
      ConvHasType(ReadAt(data, pos, Size(t)), t, end);
    }
  }

  lemma {:induction false} FieldsTyped(t: Type, i: nat, data: seq<Byte>, pos: nat, end: Selector)
    requires t.Struct? && i <= |t.fields| && pos <= |data|
    ensures var o := DecodeFields(t, i, data, pos, end);
      o.result.Ok? ==> forall k | 0 <= k < i :: HasType(o.result.value[k], t.fields[k].typ)
    decreases t, 1, i
  {
    if i > 0 {
      FieldsTyped(t, i - 1, data, pos, end);
      var prev := DecodeFields(t, i - 1, data, pos, end);
      if prev.result.Ok? {
        DecodeTyped(t.fields[i - 1].typ, data, prev.pos, end);
      }
    }
  }

  lemma {:induction false} ElemsTyped(t: Type, i: nat, data: seq<Byte>, pos: nat, end: Selector)
    requires t.Array? && i <= t.len && pos <= |data|
    ensures var o := DecodeElems(t, i, data, pos, end);
      o.result.Ok? ==> forall k | 0 <= k < i :: HasType(o.result.value[k], t.elem)
    decreases t, 1, i
  {
    if i > 0 {
      ElemsTyped(t, i - 1, data, pos, end);
      var prev := DecodeElems(t, i - 1, data, pos, end);
      if prev.result.Ok? {
        DecodeTyped(t.elem, data, prev.pos, end);
      }
    }
  }

  // ----- The byte-order selector -----------------------------------------

  /** Only LITTLE_ENDIAN selects little-endian order: decoding with any
      other selector value is decoding with BIG_ENDIAN, for the whole tree. */
  lemma {:induction false} DecodeNonZeroSelectorIsBigEndian(t: Type, data: seq<Byte>, pos: nat, end: Selector)
    requires pos <= |data| && end != LITTLE_ENDIAN
    ensures Decode(t, data, pos, end) == Decode(t, data, pos, BIG_ENDIAN)
    decreases t, 2
  {
    if t.Struct? {
      FieldsNonZeroSelectorIsBigEndian(t, |t.fields|, data, pos, end);
    } else if t.Array? {
      ElemsNonZeroSelectorIsBigEndian(t, t.len, data, pos, end);
    } else if !IsRejected(t) {
      NonZeroEndianIsBig(ReadAt(data, pos, Size(t)), t, end);
    }
  }

  lemma {:induction false} FieldsNonZeroSelectorIsBigEndian(t: Type, i: nat, data: seq<Byte>, pos: nat, end: Selector)
    requires t.Struct? && i <= |t.fields| && pos <= |data| && end != LITTLE_ENDIAN
    ensures DecodeFields(t, i, data, pos, end) == DecodeFields(t, i, data, pos, BIG_ENDIAN)
    decreases t, 1, i
  {
    if i > 0 {
      FieldsNonZeroSelectorIsBigEndian(t, i - 1, data, pos, end);
      var prev := DecodeFields(t, i - 1, data, pos, end);
      DecodeNonZeroSelectorIsBigEndian(t.fields[i - 1].typ, data, prev.pos, end);
    }
  }

  lemma {:induction false} ElemsNonZeroSelectorIsBigEndian(t: Type, i: nat, data: seq<Byte>, pos: nat, end: Selector)
    requires t.Array? && i <= t.len && pos <= |data| && end != LITTLE_ENDIAN
    ensures DecodeElems(t, i, data, pos, end) == DecodeElems(t, i, data, pos, BIG_ENDIAN)
    decreases t, 1, i
  {
    if i > 0 {
      ElemsNonZeroSelectorIsBigEndian(t, i - 1, data, pos, end);
      var prev := DecodeElems(t, i - 1, data, pos, end);
      DecodeNonZeroSelectorIsBigEndian(t.elem, data, prev.pos, end);
    }
  }

  // ----- Round trip with the layout --------------------------------------

  /** The layout of a value occupies exactly its type's footprint. */
  lemma {:induction false} EncodeLength(v: Value, t: Type, end: Selector)
    requires HasType(v, t)
    ensures |Encode(v, t, end)| == Footprint(t)
    decreases t, 1
  {
    if t.Struct? {
      EncodeFieldsLength(v, t, |t.fields|, end);
    } else if t.Array? {
      EncodeElemsLength(v, t, t.len, end);
    } else {
      ScalarValueIsConvertible(v, t);
    }
  }

  lemma {:induction false} EncodeFieldsLength(v: Value, t: Type, i: nat, end: Selector)
    requires t.Struct? && HasType(v, t) && i <= |t.fields|
    ensures |EncodeFields(v, t, i, end)| == FieldsFootprint(t, i)
    decreases t, 0, i
  {
    if i > 0 {
      EncodeFieldsLength(v, t, i - 1, end);
      EncodeLength(v.fields[i - 1], t.fields[i - 1].typ, end);
    }
  }

  lemma {:induction false} EncodeElemsLength(v: Value, t: Type, i: nat, end: Selector)
    requires t.Array? && HasType(v, t) && i <= t.len
    ensures |EncodeElems(v, t, i, end)| == ElemsFootprint(t, i)
    decreases t, 0, i
  {
    if i > 0 {
      EncodeElemsLength(v, t, i - 1, end);
      EncodeLength(v.elems[i - 1], t.elem, end);
    }
  }

  /** Decoding the layout of a value, wherever it sits in the stream, gives
      the value back and leaves the cursor just past it: fields in
      declaration order, elements in index order, no padding, one byte
      order throughout. */
  lemma DecodeEncode(v: Value, t: Type, prefix: seq<Byte>, suffix: seq<Byte>, end: Selector)
    requires HasType(v, t)
    ensures Decode(t, prefix + Encode(v, t, end) + suffix, |prefix|, end)
         == Outcome(Ok(v), |prefix| + |Encode(v, t, end)|)
  {
    var enc := Encode(v, t, end);
    var data := prefix + enc + suffix;
    assert data[|prefix|..|prefix| + |enc|] == enc;
    DecodeLayout(v, t, data, |prefix|, end);
  }

  /** The same, for a stream holding the layout of v at pos. */
  lemma {:induction false} DecodeLayout(v: Value, t: Type, data: seq<Byte>, pos: nat, end: Selector)
    requires HasType(v, t)
    requires pos + |Encode(v, t, end)| <= |data|
    requires data[pos..pos + |Encode(v, t, end)|] == Encode(v, t, end)
    ensures Decode(t, data, pos, end) == Outcome(Ok(v), pos + |Encode(v, t, end)|)
    decreases t, 2
  {
    if t.Struct? {
      DecodeFieldsLayout(v, t, |t.fields|, data, pos, end);
      assert v.fields[..|t.fields|] == v.fields;
    } else if t.Array? {
      DecodeElemsLayout(v, t, t.len, data, pos, end);
      assert v.elems[..t.len] == v.elems;
    } else {
      ScalarValueIsConvertible(v, t);
      var bytes := WriteScalar(v, t, end);
      assert Encode(v, t, end) == bytes;
      ReadAtContents(data, pos, Size(t));
      assert ReadAt(data, pos, Size(t)) == bytes;
      ConvWriteScalar(v, t, end);
    }
  }

  /** A field of a struct value has the field's type. */
  lemma FieldTyped(v: Value, t: Type, k: nat)
    requires t.Struct? && HasType(v, t) && k < |t.fields|
    ensures HasType(v.fields[k], t.fields[k].typ)
  {
  }

  /** An element of an array value has the element type. */
  lemma ElemTyped(v: Value, t: Type, k: nat)
    requires t.Array? && HasType(v, t) && k < t.len
    ensures HasType(v.elems[k], t.elem)
  {
  }

  /** One more successful iteration of the element loop, with the positions
      named: the loop continues from where the previous elements ended. */
  lemma ElemsStepTo(t: Type, i: nat, data: seq<Byte>, pos: nat, end: Selector, vs: seq<Value>, v: Value, mid: nat, next: nat)
    requires t.Array? && 0 < i <= t.len && pos <= |data|
    requires DecodeElems(t, i - 1, data, pos, end) == Outcome(Ok(vs), mid)
    requires mid <= |data| && Decode(t.elem, data, mid, end) == Outcome(Ok(v), next)
    ensures DecodeElems(t, i, data, pos, end) == Outcome(Ok(vs + [v]), next)
  {
  }

  /** One more successful iteration of the field loop, with the positions named. */
  lemma FieldsStepTo(t: Type, i: nat, data: seq<Byte>, pos: nat, end: Selector, vs: seq<Value>, v: Value, mid: nat, next: nat)
    requires t.Struct? && 0 < i <= |t.fields| && pos <= |data|
    requires DecodeFields(t, i - 1, data, pos, end) == Outcome(Ok(vs), mid)
    requires mid <= |data| && Decode(t.fields[i - 1].typ, data, mid, end) == Outcome(Ok(v), next)
    ensures DecodeFields(t, i, data, pos, end) == Outcome(Ok(vs + [v]), next)
  {
  }

  /** Extending a prefix by one element. */
  lemma SnocPrefix<T>(s: seq<T>, i: nat)
    requires 0 < i <= |s|
    ensures s[..i - 1] + [s[i - 1]] == s[..i]
  {
  }

  /** A slice of a slice. */
  lemma Subslice(data: seq<Byte>, pos: nat, a: seq<Byte>, b: seq<Byte>)
    requires pos + |a| + |b| <= |data| && data[pos..pos + |a| + |b|] == a + b
    ensures data[pos..pos + |a|] == a
    ensures data[pos + |a|..pos + |a| + |b|] == b
  {
    assert data[pos..pos + |a|] == data[pos..pos + |a| + |b|][..|a|];
    assert data[pos + |a|..pos + |a| + |b|] == data[pos..pos + |a| + |b|][|a|..];
  }

  lemma {:induction false} DecodeFieldsLayout(v: Value, t: Type, i: nat, data: seq<Byte>, pos: nat, end: Selector)
    requires t.Struct? && HasType(v, t) && i <= |t.fields|
    requires pos + |EncodeFields(v, t, i, end)| <= |data|
    requires data[pos..pos + |EncodeFields(v, t, i, end)|] == EncodeFields(v, t, i, end)
    ensures DecodeFields(t, i, data, pos, end) == Outcome(Ok(v.fields[..i]), pos + |EncodeFields(v, t, i, end)|)
    decreases t, 1, i
  {
    if i > 0 {
      FieldTyped(v, t, i - 1);
      var before := EncodeFields(v, t, i - 1, end);
      var last := Encode(v.fields[i - 1], t.fields[i - 1].typ, end);
      var mid := pos + |before|;
      assert data[pos..mid] == before && data[mid..mid + |last|] == last by {
        Subslice(data, pos, before, last);
      }
      assert DecodeFields(t, i - 1, data, pos, end) == Outcome(Ok(v.fields[..i - 1]), mid) by {
        DecodeFieldsLayout(v, t, i - 1, data, pos, end);
      }
      assert Decode(t.fields[i - 1].typ, data, mid, end) == Outcome(Ok(v.fields[i - 1]), mid + |last|) by {
        DecodeLayout(v.fields[i - 1], t.fields[i - 1].typ, data, mid, end);
      }
      FieldsStepTo(t, i, data, pos, end, v.fields[..i - 1], v.fields[i - 1], mid, mid + |last|);
      SnocPrefix(v.fields, i);
    } else {
      assert v.fields[..0] == [];
    }
  }

  lemma {:induction false} DecodeElemsLayout(v: Value, t: Type, i: nat, data: seq<Byte>, pos: nat, end: Selector)
    requires t.Array? && HasType(v, t) && i <= t.len
    requires pos + |EncodeElems(v, t, i, end)| <= |data|
    requires data[pos..pos + |EncodeElems(v, t, i, end)|] == EncodeElems(v, t, i, end)
    ensures DecodeElems(t, i, data, pos, end) == Outcome(Ok(v.elems[..i]), pos + |EncodeElems(v, t, i, end)|)
    decreases t, 1, i
  {
    if i > 0 {
      var before := EncodeElems(v, t, i - 1, end);
      var last := Encode(v.elems[i - 1], t.elem, end);
      var mid := pos + |before|;
      assert data[pos..mid] == before && data[mid..mid + |last|] == last by {
        Subslice(data, pos, before, last);
      }
      assert DecodeElems(t, i - 1, data, pos, end) == Outcome(Ok(v.elems[..i - 1]), mid) by {
        DecodeElemsLayout(v, t, i - 1, data, pos, end);
      }
      assert Decode(t.elem, data, mid, end) == Outcome(Ok(v.elems[i - 1]), mid + |last|) by {
        ElemTyped(v, t, i - 1);
        DecodeLayout(v.elems[i - 1], t.elem, data, mid, end);
      }
      ElemsStepTo(t, i, data, pos, end, v.elems[..i - 1], v.elems[i - 1], mid, mid + |last|);
      SnocPrefix(v.elems, i);
    } else {
      assert v.elems[..0] == [];
    }
  }

  // ----- Order and fail-fast ---------------------------------------------

  /** After a successful field loop, field k holds what decoding its type
      gives at offset FieldsFootprint(t, k), just past fields 0..k-1 (or at
      the end of a stream that is too short). */
  lemma {:induction false} FieldDecodedInOrder(t: Type, i: nat, k: nat, data: seq<Byte>, pos: nat, end: Selector)
    requires t.Struct? && k < i <= |t.fields| && pos <= |data|
    requires DecodeFields(t, i, data, pos, end).result.Ok?
    ensures Decode(t.fields[k].typ, data, Min(pos + FieldsFootprint(t, k), |data|), end).result
         == Ok(DecodeFields(t, i, data, pos, end).result.value[k])
    decreases i
  {
    var prev := DecodeFields(t, i - 1, data, pos, end);
    assert prev.result.Ok?;
    var field := Decode(t.fields[i - 1].typ, data, prev.pos, end);
    assert field.result.Ok?;
    var vs := DecodeFields(t, i, data, pos, end).result.value;
    assert vs == prev.result.value + [field.result.value];
    if k < i - 1 {
      FieldDecodedInOrder(t, i - 1, k, data, pos, end);
      assert vs[k] == prev.result.value[k];
    } else {
      assert k == i - 1;
      FieldsConsumeFootprint(t, k, data, pos, end);
      assert prev.pos == Min(pos + FieldsFootprint(t, k), |data|);
    }
  }

  /** After a successful element loop, element k holds what decoding the
      element type gives at offset ElemsFootprint(t, k), just past elements
      0..k-1. */
  lemma {:induction false} ElemDecodedInOrder(t: Type, i: nat, k: nat, data: seq<Byte>, pos: nat, end: Selector)
    requires t.Array? && k < i <= t.len && pos <= |data|
    requires DecodeElems(t, i, data, pos, end).result.Ok?
    ensures Decode(t.elem, data, Min(pos + ElemsFootprint(t, k), |data|), end).result
         == Ok(DecodeElems(t, i, data, pos, end).result.value[k])
    decreases i
  {
    var prev := DecodeElems(t, i - 1, data, pos, end);
    assert prev.result.Ok?;
    var elem := Decode(t.elem, data, prev.pos, end);
    assert elem.result.Ok?;
    var vs := DecodeElems(t, i, data, pos, end).result.value;
    assert vs == prev.result.value + [elem.result.value];
    if k < i - 1 {
      ElemDecodedInOrder(t, i - 1, k, data, pos, end);
      assert vs[k] == prev.result.value[k];
    } else {
      assert k == i - 1;
      ElemsConsumeFootprint(t, k, data, pos, end);
      assert prev.pos == Min(pos + ElemsFootprint(t, k), |data|);
    }
  }

  /** Field k is where the field loop stops: fields 0..k-1 decode, field k
      fails, and the loop's outcome after it is that field's error, with the
      cursor where that field left it. */
  predicate FieldFailsFirst(t: Type, k: nat, data: seq<Byte>, pos: nat, end: Selector)
    requires t.Struct? && k < |t.fields| && pos <= |data|
  {
    var before := DecodeFields(t, k, data, pos, end);
    before.result.Ok? &&
    var field := Decode(t.fields[k].typ, data, before.pos, end);
    field.result.Err? &&
    DecodeFields(t, k + 1, data, pos, end) == Outcome(Err(field.result.error), field.pos)
  }

  /** When the first i-1 fields decode and the first i do not, field i-1 is
      the one that fails first. */
  lemma FieldFailsLast(t: Type, i: nat, data: seq<Byte>, pos: nat, end: Selector)
    requires t.Struct? && 0 < i <= |t.fields| && pos <= |data|
    requires DecodeFields(t, i - 1, data, pos, end).result.Ok?
    requires DecodeFields(t, i, data, pos, end).result.Err?
    ensures FieldFailsFirst(t, i - 1, data, pos, end)
  {
    var k := i - 1;
    var field := Decode(t.fields[k].typ, data, DecodeFields(t, k, data, pos, end).pos, end);
    assert field.result.Err?;
    assert DecodeFields(t, k + 1, data, pos, end) == Outcome(Err(field.result.error), field.pos);
  }

  /** A failed struct decode is the error of the first failing field, and
      no field after it is read. */
  lemma {:induction false} StructStopsAtFirstFailingField(t: Type, i: nat, data: seq<Byte>, pos: nat, end: Selector)
    requires t.Struct? && i <= |t.fields| && pos <= |data|
    requires DecodeFields(t, i, data, pos, end).result.Err?
    ensures exists k :: 0 <= k < i && FieldFailsFirst(t, k, data, pos, end) &&
                        DecodeFields(t, i, data, pos, end) == DecodeFields(t, k + 1, data, pos, end)
  {
    var prev := DecodeFields(t, i - 1, data, pos, end);
    if prev.result.Err? {
      StructStopsAtFirstFailingField(t, i - 1, data, pos, end);
      var k :| 0 <= k < i - 1 && FieldFailsFirst(t, k, data, pos, end) &&
               prev == DecodeFields(t, k + 1, data, pos, end);
      FieldsStopAtError(t, k + 1, i, data, pos, end);
    } else {
      FieldFailsLast(t, i, data, pos, end);
    }
  }

  /** Element k is where the element loop stops. */
  predicate ElemFailsFirst(t: Type, k: nat, data: seq<Byte>, pos: nat, end: Selector)
    requires t.Array? && k < t.len && pos <= |data|
  {
    var before := DecodeElems(t, k, data, pos, end);
    before.result.Ok? &&
    var elem := Decode(t.elem, data, before.pos, end);
    elem.result.Err? &&
    DecodeElems(t, k + 1, data, pos, end) == Outcome(Err(elem.result.error), elem.pos)
  }

  /** When the first i-1 elems decode and the first i do not, elem i-1 is
      the one that fails first. */
  lemma ElemFailsLast(t: Type, i: nat, data: seq<Byte>, pos: nat, end: Selector)
    requires t.Array? && 0 < i <= t.len && pos <= |data|
    requires DecodeElems(t, i - 1, data, pos, end).result.Ok?
    requires DecodeElems(t, i, data, pos, end).result.Err?
    ensures ElemFailsFirst(t, i - 1, data, pos, end)
  {
    var k := i - 1;
    var elem := Decode(t.elem, data, DecodeElems(t, k, data, pos, end).pos, end);
    assert elem.result.Err?;
    assert DecodeElems(t, k + 1, data, pos, end) == Outcome(Err(elem.result.error), elem.pos);
  }

  /** A failed array decode is the error of the first failing element, and
      no element after it is read. */
  lemma {:induction false} ArrayStopsAtFirstFailingElem(t: Type, i: nat, data: seq<Byte>, pos: nat, end: Selector)
    requires t.Array? && i <= t.len && pos <= |data|
    requires DecodeElems(t, i, data, pos, end).result.Err?
    ensures exists k :: 0 <= k < i && ElemFailsFirst(t, k, data, pos, end) &&
                        DecodeElems(t, i, data, pos, end) == DecodeElems(t, k + 1, data, pos, end)
  {
    var prev := DecodeElems(t, i - 1, data, pos, end);
    if prev.result.Err? {
      ArrayStopsAtFirstFailingElem(t, i - 1, data, pos, end);
      var k :| 0 <= k < i - 1 && ElemFailsFirst(t, k, data, pos, end) &&
               prev == DecodeElems(t, k + 1, data, pos, end);
      ElemsStopAtError(t, k + 1, i, data, pos, end);
    } else {
      ElemFailsLast(t, i, data, pos, end);
    }
  }
}
