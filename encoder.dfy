/** The `EncodeValue` implementations of `encode.rs` as methods that append to a
    mutable output sink, each proved to append exactly the bytes its trace
    function gives and to report that trace's status. */
module Encoder {
  import opened Wrappers
  import opened Scale
  import opened Text
  import opened Schema
  import opened EncodeSpec
  import opened EncodeProperties

  /** The `scale::Output` the encoder writes to: an append-only byte buffer. */
  class Sink {
    var bytes: seq<Byte>

    constructor ()
      ensures bytes == []
    {
      bytes := [];
    }

    /** `Output::push_byte`. */
    method PushByte(b: Byte)
      modifies this
      ensures bytes == old(bytes) + [b]
    {
      bytes := bytes + [b];
    }

    /** `Output::write`. */
    method Write(bs: seq<Byte>)
      modifies this
      ensures bytes == old(bytes) + bs
    {
      bytes := bytes + bs;
    }
  }

  /** `Field::encode_value_to`: resolve the field's type and encode against it. */
  method EncodeField(reg: Registry, f: Field, v: Value, out: Sink) returns (st: Status)
    modifies out
    decreases v, 4, 0
    ensures out.bytes == old(out.bytes) + FieldTrace(reg, f, v).written
    ensures st == FieldTrace(reg, f, v).status
  {
    if f.ty !in reg {
      return Failed(UnknownType(f.ty));
    }
    st := EncodeType(reg, reg[f.ty], v, out);
  }

  /** `Type::encode_value_to`: encode against the type's definition. */
  method EncodeType(reg: Registry, ty: Type, v: Value, out: Sink) returns (st: Status)
    modifies out
    decreases v, 3, 0
    ensures out.bytes == old(out.bytes) + TypeTrace(reg, ty, v).written
    ensures st == TypeTrace(reg, ty, v).status
  {
    st := EncodeTypeDef(reg, ty.def, v, out);
  }

  /** `TypeDef::encode_value_to`: on success the output has grown by exactly the
      encoding; on failure it has only grown, by the bytes written before the
      failing node. */
  method EncodeTypeDef(reg: Registry, def: TypeDef, v: Value, out: Sink) returns (st: Status)
    modifies out
    decreases v, 2, 0
    ensures out.bytes == old(out.bytes) + TypeDefTrace(reg, def, v).written
    ensures st == TypeDefTrace(reg, def, v).status
    ensures st.Done? ==> Encode(reg, def, v) == Ok(out.bytes[|old(out.bytes)|..])
    ensures st.Failed? ==> Encode(reg, def, v) == Err(st.error) && old(out.bytes) <= out.bytes
  {
    match def
    case Array(elem) =>
      st := EncodeArray(reg, elem, v, out);
    case Primitive(k) =>
      st := EncodePrimitive(k, v, out);
    case Composite(fields) =>
      st := EncodeComposite(reg, fields, v, out);
    case Other(_) =>
      st := Failed(Unimplemented);
  }

  /** `TypeDefArray::encode_value_to`. */
  method EncodeArray(reg: Registry, elem: TypeId, v: Value, out: Sink) returns (st: Status)
    modifies out
    decreases v, 1, 0
    ensures out.bytes == old(out.bytes) + ArrayTrace(reg, elem, v).written
    ensures st == ArrayTrace(reg, elem, v).status
  {
    if elem !in reg {
      return Failed(UnknownType(elem));
    }
    var ty := reg[elem];
    match v
    case String(s) =>
      if ty.def != Primitive(U8) {
        return Failed(TypeMismatch);
      }
      var decoded := HexDecode(StripHexPrefix(s));
      if decoded.None? {
        return Failed(InvalidHex);
      }
      PushEach(decoded.value, out);
      st := Done;
    case Seq(elems) =>
      st := EncodeElements(reg, ty, v, out);
    case _ =>
      st := Failed(TypeMismatch);
  }

  /** The loop over the decoded bytes of a hex string in
      `TypeDefArray::encode_value_to`: each byte's `u8` encoding, which is the
      byte itself. */
  method PushEach(bytes: seq<Byte>, out: Sink)
    modifies out
    ensures out.bytes == old(out.bytes) + bytes
  {
    for i := 0 to |bytes|
      invariant out.bytes == old(out.bytes) + bytes[..i]
    {
      out.PushByte(bytes[i]);
    }
    assert bytes[..|bytes|] == bytes;
  }

  /** The loop over a sequence value in `TypeDefArray::encode_value_to`: each
      element against the element type, in order, stopping at the first failure. */
  method EncodeElements(reg: Registry, ty: Type, v: Value, out: Sink) returns (st: Status)
    requires v.Seq?
    modifies out
    decreases v, 0, 0
    ensures out.bytes == old(out.bytes) + ElementsTrace(reg, ty, v, |v.elems|).written
    ensures st == ElementsTrace(reg, ty, v, |v.elems|).status
  {
    var i := 0;
    while i < |v.elems|
      invariant i <= |v.elems|
      invariant ElementsTrace(reg, ty, v, i).status.Done?
      invariant out.bytes == old(out.bytes) + ElementsTrace(reg, ty, v, i).written
    {
      st := EncodeType(reg, ty, v.elems[i], out);
      if st.Failed? {
        ElementsFailureSticks(reg, ty, v, i + 1, |v.elems|);
        return;
      }
      i := i + 1;
    }
    st := Done;
  }

  /** `TypeDefPrimitive::encode_value_to`: every check comes before the single write. */
  method EncodePrimitive(k: PrimitiveKind, v: Value, out: Sink) returns (st: Status)
    modifies out
    ensures out.bytes == old(out.bytes) + PrimitiveTrace(k, v).written
    ensures st == PrimitiveTrace(k, v).status
  {
    match k
    case Bool =>
      if !v.Bool? {
        return Failed(TypeMismatch);
      }
      out.PushByte(if v.b then 1 else 0);
      st := Done;
    case Char =>
      st := Failed(CharUnsupported);
    case Str =>
      if !v.String? {
        return Failed(TypeMismatch);
      }
      var bytes := Utf8(v.s);
      if |bytes| >= CompactLimit {
        return Failed(LengthOverflow);
      }
      out.Write(CompactU32(|bytes|) + bytes);
      st := Done;
    case U8 | U16 | U32 =>
      if !(v.Number? && v.n.Integer?) {
        return Failed(TypeMismatch);
      }
      st := WriteUnsigned(v.n.i, Width(k), out);
    case U64 | U128 =>
      if v.Number? && v.n.Integer? {
        st := WriteUnsigned(v.n.i, Width(k), out);
      } else if v.String? {
        var parsed := ParseUnsigned(Sanitize(v.s), Pow256(Width(k)));
        if parsed.None? {
          return Failed(NumericParse);
        }
        out.Write(LittleEndian(parsed.value, Width(k)));
        st := Done;
      } else {
        st := Failed(TypeMismatch);
      }
    case _ =>
      st := Failed(Unimplemented);
  }

  /** `try_into()?` to a w-byte unsigned integer, then `encode_to`. */
  method WriteUnsigned(i: int, w: nat, out: Sink) returns (st: Status)
    modifies out
    ensures out.bytes == old(out.bytes) + UnsignedTrace(i, w).written
    ensures st == UnsignedTrace(i, w).status
  {
    if !(0 <= i < Pow256(w)) {
      return Failed(NumericConversion);
    }
    out.Write(LittleEndian(i, w));
    st := Done;
  }

  /** `TypeDefComposite::encode_value_to`: the fields zipped positionally with the
      map's values, stopping at the shorter list or at the first failure. */
  method EncodeComposite(reg: Registry, fields: seq<Field>, v: Value, out: Sink) returns (st: Status)
    modifies out
    decreases v, 1, 0
    ensures out.bytes == old(out.bytes) + CompositeTrace(reg, fields, v).written
    ensures st == CompositeTrace(reg, fields, v).status
  {
    if !v.Map? {
      return Failed(TypeMismatch);
    }
    var n := Min(|fields|, |v.entries|);
    var i := 0;
    while i < n
      invariant i <= n
      invariant FieldsTrace(reg, fields, v, i).status.Done?
      invariant out.bytes == old(out.bytes) + FieldsTrace(reg, fields, v, i).written
    {
      st := EncodeField(reg, fields[i], v.entries[i].1, out);
      if st.Failed? {
        FieldsFailureSticks(reg, fields, v, i + 1, n);
        return;
      }
      i := i + 1;
    }
    st := Done;
  }
}
