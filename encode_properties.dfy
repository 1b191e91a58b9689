/** Properties of the encoding: the byte contract of each primitive, the
    equivalence of the alternative surface forms of one value, how arrays and
    structs are concatenations of their parts, and what a failure leaves behind. */
module EncodeProperties {
  import opened Wrappers
  import opened Scale
  import opened Text
  import opened Schema
  import opened EncodeSpec

  // ----------------------------------------------------------- primitives

  /** A bool is one byte, 1 for true and 0 for false; any other value is refused. */
  lemma BoolEncoding(reg: Registry, v: Value)
    ensures var r := Encode(reg, Primitive(PrimitiveKind.Bool), v);
      (r.Ok? <==> v.Bool?) &&
      (r.Ok? ==> r.value == [if v.b then 1 else 0]) &&
      (r.Err? ==> r.error == TypeMismatch)
  {
  }

  /** An unsigned kind takes an integer exactly when it fits the kind's width; the
      bytes are then exactly Width(k) long and read back as the integer. An
      integer out of range is refused, never wrapped or truncated. */
  lemma FixedWidthInteger(reg: Registry, k: PrimitiveKind, i: I64)
    requires IsUnsigned(k)
    ensures var r := Encode(reg, Primitive(k), Number(Integer(i)));
      (r.Ok? <==> 0 <= i < Pow256(Width(k))) &&
      (r.Ok? ==> |r.value| == Width(k) && FromLittleEndian(r.value) == i) &&
      (r.Err? ==> r.error == NumericConversion)
  {
    if 0 <= i < Pow256(Width(k)) {
      LittleEndianRoundTrip(i, Width(k));
    }
  }

  /** `u8`, `u16` and `u32` accept nothing but an integer. */
  lemma SmallUnsignedNeedsInteger(reg: Registry, k: PrimitiveKind, v: Value)
    requires k.U8? || k.U16? || k.U32?
    requires !(v.Number? && v.n.Integer?)
    ensures Encode(reg, Primitive(k), v) == Err(TypeMismatch)
  {
  }

  /** `u64` and `u128` also accept a string: separators removed, it must parse
      as a decimal that fits, and the bytes read back as the parsed number. */
  lemma LargeUnsignedFromString(reg: Registry, k: PrimitiveKind, s: string)
    requires k.U64? || k.U128?
    ensures var r := Encode(reg, Primitive(k), String(s));
      var p := ParseUnsigned(Sanitize(s), Pow256(Width(k)));
      (r.Ok? <==> p.Some?) &&
      (r.Ok? ==> |r.value| == Width(k) && FromLittleEndian(r.value) == p.value) &&
      (r.Err? ==> r.error == NumericParse)
  {
    var p := ParseUnsigned(Sanitize(s), Pow256(Width(k)));
    assert TypeDefTrace(reg, Primitive(k), String(s)) == PrimitiveTrace(k, String(s));
    if p.Some? {
      assert PrimitiveTrace(k, String(s)) == Trace(LittleEndian(p.value, Width(k)), Done);
      LittleEndianRoundTrip(p.value, Width(k));
    } else {
      assert PrimitiveTrace(k, String(s)) == Fail(NumericParse);
    }
  }

  /** `u64` and `u128` refuse every value that is neither an integer nor a string. */
  lemma LargeUnsignedShapes(reg: Registry, k: PrimitiveKind, v: Value)
    requires k.U64? || k.U128?
    requires !(v.Number? && v.n.Integer?) && !v.String?
    ensures Encode(reg, Primitive(k), v) == Err(TypeMismatch)
  {
  }

  /** Every non-negative `i64` fits a `u64` and a `u128`. */
  lemma LargeWidthsHoldI64(k: PrimitiveKind)
    requires k.U64? || k.U128?
    ensures 0x8000_0000_0000_0000 <= Pow256(Width(k))
  {
    assert Pow256(8) == 0x1_0000_0000_0000_0000;
    if k.U128? {
      assert Pow256(16) == Pow256(8) * Pow256(8) by {
        assert Pow256(16) == 0x1_0000_0000_0000_0000_0000_0000_0000_0000;
      }
    }
  }

  /** A decimal string, with separators anywhere, encodes exactly like the
      integer it denotes (for example "1_000_000" and 1000000). */
  lemma DecimalStringMatchesInteger(reg: Registry, k: PrimitiveKind, i: I64, s: string)
    requires k.U64? || k.U128?
    requires 0 <= i && Sanitize(s) == ShowDecimal(i)
    ensures Encode(reg, Primitive(k), String(s)).Ok?
    ensures Encode(reg, Primitive(k), String(s)) == Encode(reg, Primitive(k), Number(Integer(i)))
  {
    LargeWidthsHoldI64(k);
    ParseShowRoundTrip(i, Pow256(Width(k)));
    SanitizeShow(i);
  }

  /** Any string that parses to a non-negative `i64`, whatever its form (leading
      zeros, a `+`, separators), encodes exactly like that integer. */
  lemma StringMatchesInteger(reg: Registry, k: PrimitiveKind, i: I64, s: string)
    requires k.U64? || k.U128?
    requires 0 <= i && ParseUnsigned(Sanitize(s), Pow256(Width(k))) == Some(i as nat)
    ensures Encode(reg, Primitive(k), String(s)) == Encode(reg, Primitive(k), Number(Integer(i)))
  {
    LargeWidthsHoldI64(k);
    LargeUnsignedFromString(reg, k, s);
    FixedWidthInteger(reg, k, i);
    var a, b := Encode(reg, Primitive(k), String(s)), Encode(reg, Primitive(k), Number(Integer(i)));
    LittleEndianOfDecoded(a.value);
    LittleEndianOfDecoded(b.value);
  }

  /** Inserting one separator anywhere in a `u64`/`u128` string changes nothing. */
  lemma SeparatorIgnored(reg: Registry, k: PrimitiveKind, a: string, c: char, b: string)
    requires k.U64? || k.U128?
    requires IsSeparator(c)
    ensures Encode(reg, Primitive(k), String(a + [c] + b)) == Encode(reg, Primitive(k), String(a + b))
  {
    SanitizeAppend(a + [c], b);
    SanitizeAppend(a, [c]);
    SanitizeAppend(a, b);
    assert [c][1..] == [];
    assert Sanitize([c]) == "";
    assert a + [c] + b == (a + [c]) + b;
    assert Sanitize(a + [c]) == Sanitize(a);
    assert Sanitize(a + [c] + b) == Sanitize(a + b);
  }

  const U64Max: nat := 0xFFFF_FFFF_FFFF_FFFF

  /** An integer value is an `i64`, so the top half of the `u64` range is
      reachable only through the string form. */
  lemma U64TopHalfOnlyAsString(reg: Registry, i: I64)
    ensures Encode(reg, Primitive(U64), String(ShowDecimal(U64Max))).Ok?
    ensures Encode(reg, Primitive(U64), Number(Integer(i))) != Encode(reg, Primitive(U64), String(ShowDecimal(U64Max)))
  {
    assert Pow256(8) == U64Max + 1;
    ParseShowRoundTrip(U64Max, Pow256(8));
    SanitizeShow(U64Max);
    LargeUnsignedFromString(reg, U64, ShowDecimal(U64Max));
    FixedWidthInteger(reg, U64, i);
  }

  /** A decimal string too large for the width is refused with a parse error,
      not wrapped into range. */
  lemma OverflowingDecimalRefused(reg: Registry, k: PrimitiveKind, n: nat)
    requires k.U64? || k.U128?
    requires n >= Pow256(Width(k))
    ensures Encode(reg, Primitive(k), String(ShowDecimal(n))) == Err(NumericParse)
  {
    SanitizeShow(n);
    ParseShowOverflow(n, Pow256(Width(k)));
  }

  /** A string is its compact UTF-8 byte length followed by those bytes: reading
      the prefix back gives the length, and the rest is exactly the bytes. */
  lemma StrEncoding(reg: Registry, s: string)
    requires |Utf8(s)| < CompactLimit
    ensures var r := Encode(reg, Primitive(Str), String(s));
      r.Ok? &&
      var d := CompactDecode(r.value);
      d.Some? && d.value.0 == |Utf8(s)| && r.value[d.value.1..] == Utf8(s)
    ensures var r, n := Encode(reg, Primitive(Str), String(s)), |Utf8(s)|;
      var d := CompactDecode(r.value);
      d.Some? && d.value.1 == (if n < 0x40 then 1 else if n < 0x4000 then 2 else if n < 0x4000_0000 then 4 else 5)
  {
    var bytes := Utf8(s);
    CompactRoundTrip(|bytes|, bytes);
  }

  /** `str` accepts nothing but a string. */
  lemma StrNeedsString(reg: Registry, v: Value)
    requires !v.String?
    ensures Encode(reg, Primitive(Str), v) == Err(TypeMismatch)
  {
  }

  /** Every `TypeDef` variant other than array, primitive and composite fails
      without writing anything. */
  lemma UnhandledTypeDefFails(reg: Registry, def: TypeDef, v: Value)
    requires def.Other?
    ensures TypeDefTrace(reg, def, v).written == []
    ensures Encode(reg, def, v) == Err(Unimplemented)
  {
  }

  /** `char` and the signed kinds fail whatever the value, without writing anything. */
  lemma UnhandledPrimitiveFails(reg: Registry, k: PrimitiveKind, v: Value)
    requires k.Char? || k.I8? || k.I16? || k.I32? || k.I64? || k.I128?
    ensures TypeDefTrace(reg, Primitive(k), v).written == []
    ensures Encode(reg, Primitive(k), v) == Err(if k.Char? then CharUnsupported else Unimplemented)
  {
  }


  // --------------------------------------------------------------- arrays

  /** Once an element fails, the later elements are never encoded. */
  lemma {:induction false} ElementsFailureSticks(reg: Registry, ty: Type, v: Value, i: nat, n: nat)
    requires v.Seq? && i <= n <= |v.elems|
    requires ElementsTrace(reg, ty, v, i).status.Failed?
    ensures ElementsTrace(reg, ty, v, n) == ElementsTrace(reg, ty, v, i)
  {
    if n > i {
      ElementsFailureSticks(reg, ty, v, i, n - 1);
    }
  }

  lemma {:induction false} ElementsPrefix(reg: Registry, ty: Type, a: seq<Value>, b: seq<Value>, n: nat)
    requires n <= |a| && n <= |b| && a[..n] == b[..n]
    ensures ElementsTrace(reg, ty, Seq(a), n) == ElementsTrace(reg, ty, Seq(b), n)
  {
    if n > 0 {
      assert a[..n - 1] == a[..n][..n - 1] == b[..n][..n - 1] == b[..n - 1];
      assert a[n - 1] == a[..n][n - 1] == b[..n][n - 1] == b[n - 1];
      ElementsPrefix(reg, ty, a, b, n - 1);
    }
  }

  lemma ThenAssoc(a: Trace, b: Trace, c: Trace)
    ensures Then(Then(a, b), c) == Then(a, Then(b, c))
  {
  }

  lemma ThenDone(a: Trace)
    ensures Then(a, Trace([], Done)) == a
  {
  }

  lemma {:induction false} ElementsAppend(reg: Registry, ty: Type, xs: seq<Value>, ys: seq<Value>, m: nat)
    requires m <= |ys|
    ensures ElementsTrace(reg, ty, Seq(xs + ys), |xs| + m)
      == Then(ElementsTrace(reg, ty, Seq(xs), |xs|), ElementsTrace(reg, ty, Seq(ys), m))
  {
    if m == 0 {
      assert (xs + ys)[..|xs|] == xs == xs[..|xs|];
      ElementsPrefix(reg, ty, xs + ys, xs, |xs|);
      ThenDone(ElementsTrace(reg, ty, Seq(xs), |xs|));
    } else {
      ElementsAppend(reg, ty, xs, ys, m - 1);
      assert (xs + ys)[|xs| + m - 1] == ys[m - 1];
      ThenAssoc(ElementsTrace(reg, ty, Seq(xs), |xs|), ElementsTrace(reg, ty, Seq(ys), m - 1),
        TypeTrace(reg, ty, ys[m - 1]));
    }
  }

  /** Encoding a concatenated sequence runs the first part and, if it finished,
      the second: on success the output is the two outputs concatenated, with no
      length prefix or separator; on failure the bytes written so far remain. */
  lemma ArrayAppend(reg: Registry, e: TypeId, xs: seq<Value>, ys: seq<Value>)
    ensures ArrayTrace(reg, e, Seq(xs + ys)) == Then(ArrayTrace(reg, e, Seq(xs)), ArrayTrace(reg, e, Seq(ys)))
    ensures var r, rx, ry := Encode(reg, Array(e), Seq(xs + ys)), Encode(reg, Array(e), Seq(xs)), Encode(reg, Array(e), Seq(ys));
      (r.Ok? <==> rx.Ok? && ry.Ok?) && (r.Ok? ==> r.value == rx.value + ry.value)
  {
    if e in reg {
      ElementsAppend(reg, reg[e], xs, ys, |ys|);
    }
  }

  /** An array accepts nothing but a string or a sequence. */
  lemma ArrayNeedsSeqOrString(reg: Registry, e: TypeId, v: Value)
    requires e in reg && !v.String? && !v.Seq?
    ensures TypeDefTrace(reg, Array(e), v).written == []
    ensures Encode(reg, Array(e), v) == Err(TypeMismatch)
  {
  }

  /** The element type is resolved before the value is looked at: an unknown
      element id fails whatever the value, even an empty sequence. */
  lemma ArrayUnknownElement(reg: Registry, e: TypeId, v: Value)
    requires e !in reg
    ensures TypeDefTrace(reg, Array(e), v).written == []
    ensures Encode(reg, Array(e), v) == Err(UnknownType(e))
  {
  }

  /** A one-element sequence encodes as that element; an empty one writes nothing. */
  lemma ArrayOfOne(reg: Registry, e: TypeId, x: Value)
    requires e in reg
    ensures Encode(reg, Array(e), Seq([x])) == Encode(reg, reg[e].def, x)
    ensures Encode(reg, Array(e), Seq([])) == Ok([])
  {
    var t := TypeTrace(reg, reg[e], x);
    assert [x][0] == x;
    assert ElementsTrace(reg, reg[e], Seq([x]), 1) == Then(Trace([], Done), t);
    assert [] + t.written == t.written;
    assert TypeDefTrace(reg, Array(e), Seq([x])) == t;
  }

  /** A string is accepted for an array exactly when the element type is `u8` and
      the string, `0x` prefixes trimmed, is valid hex; the output is the decoded
      bytes alone, and a refused string writes nothing. */
  lemma HexStringArray(reg: Registry, e: TypeId, s: string)
    requires e in reg
    ensures var r := Encode(reg, Array(e), String(s));
      (r.Ok? <==> reg[e].def == Primitive(U8) && HexDecode(StripHexPrefix(s)).Some?) &&
      (r.Ok? ==> HexDecode(StripHexPrefix(s)) == Some(r.value)) &&
      (r.Err? ==> (r.error == (if reg[e].def == Primitive(U8) then InvalidHex else TypeMismatch)
                   && TypeDefTrace(reg, Array(e), String(s)).written == []))
  {
    assert TypeDefTrace(reg, Array(e), String(s)) == ArrayTrace(reg, e, String(s));
  }

  /** The values of a byte string as a sequence of integers. */
  function ByteValues(bs: seq<Byte>): (r: seq<Value>)
    ensures |r| == |bs| && forall i :: 0 <= i < |bs| ==> r[i] == Number(Integer(bs[i]))
  {
    seq(|bs|, i requires 0 <= i < |bs| => Number(Integer(bs[i])))
  }

  lemma {:induction false} ByteElements(reg: Registry, ty: Type, bs: seq<Byte>, n: nat)
    requires ty.def == Primitive(U8) && n <= |bs|
    ensures ElementsTrace(reg, ty, Seq(ByteValues(bs)), n) == Trace(bs[..n], Done)
  {
    if n > 0 {
      ByteElements(reg, ty, bs, n - 1);
      var b := bs[n - 1];
      var x := ByteValues(bs)[n - 1];
      assert x == Number(Integer(b));
      assert LittleEndian(b, 1) == [b];
      assert PrimitiveTrace(U8, x) == Trace([b], Done);
      assert TypeTrace(reg, ty, x) == Trace([b], Done);
      assert bs[..n] == bs[..n - 1] + [b];
    }
  }

  lemma DecodedHexArray(reg: Registry, e: TypeId, s: string, bs: seq<Byte>)
    requires e in reg && reg[e].def == Primitive(U8)
    requires HexDecode(StripHexPrefix(s)) == Some(bs)
    ensures TypeDefTrace(reg, Array(e), String(s)) == Trace(bs, Done)
  {
    assert TypeDefTrace(reg, Array(e), String(s)) == ArrayTrace(reg, e, String(s));
  }

  lemma ByteSequenceArray(reg: Registry, e: TypeId, bs: seq<Byte>)
    requires e in reg && reg[e].def == Primitive(U8)
    ensures TypeDefTrace(reg, Array(e), Seq(ByteValues(bs))) == Trace(bs, Done)
  {
    ByteElements(reg, reg[e], bs, |bs|);
    assert bs[..|bs|] == bs;
    assert TypeDefTrace(reg, Array(e), Seq(ByteValues(bs))) == ArrayTrace(reg, e, Seq(ByteValues(bs)));
  }

  /** A hex string, with or without `0x`, and the sequence of the same bytes as
      integers give byte-identical output: the bytes themselves. */
  lemma HexMatchesByteSequence(reg: Registry, e: TypeId, bs: seq<Byte>)
    requires e in reg && reg[e].def == Primitive(U8)
    ensures Encode(reg, Array(e), String(HexEncode(bs))) == Ok(bs)
    ensures Encode(reg, Array(e), String("0x" + HexEncode(bs))) == Ok(bs)
    ensures Encode(reg, Array(e), Seq(ByteValues(bs))) == Ok(bs)
  {
    var h := HexEncode(bs);
    HexRoundTrip(bs);
    HexHasNoPrefix(bs);
    PrefixedHexStrips(bs);
    DecodedHexArray(reg, e, h, bs);
    DecodedHexArray(reg, e, "0x" + h, bs);
    ByteSequenceArray(reg, e, bs);
  }

  // -------------------------------------------------------------- structs

  lemma {:induction false} FieldsFailureSticks(reg: Registry, fields: seq<Field>, v: Value, i: nat, n: nat)
    requires v.Map? && i <= n <= |fields| && n <= |v.entries|
    requires FieldsTrace(reg, fields, v, i).status.Failed?
    ensures FieldsTrace(reg, fields, v, n) == FieldsTrace(reg, fields, v, i)
  {
    if n > i {
      FieldsFailureSticks(reg, fields, v, i, n - 1);
    }
  }

  /** The zip reads only the first n fields and the values (not the keys) of the
      first n entries. */
  lemma {:induction false} FieldsAgree(reg: Registry, fa: seq<Field>, fb: seq<Field>,
                                       ea: seq<(Value, Value)>, eb: seq<(Value, Value)>, n: nat)
    requires n <= |fa| && n <= |fb| && n <= |ea| && n <= |eb|
    requires fa[..n] == fb[..n]
    requires forall i :: 0 <= i < n ==> ea[i].1 == eb[i].1
    ensures FieldsTrace(reg, fa, Map(ea), n) == FieldsTrace(reg, fb, Map(eb), n)
  {
    if n > 0 {
      assert fa[..n - 1] == fa[..n][..n - 1] == fb[..n][..n - 1] == fb[..n - 1];
      assert fa[n - 1] == fa[..n][n - 1] == fb[..n][n - 1] == fb[n - 1];
      FieldsAgree(reg, fa, fb, ea, eb, n - 1);
    }
  }

  /** Fields are matched to map values by position: keys are never looked at. */
  lemma CompositeIgnoresKeys(reg: Registry, fields: seq<Field>, ea: seq<(Value, Value)>, eb: seq<(Value, Value)>)
    requires |ea| == |eb| && forall i :: 0 <= i < |ea| ==> ea[i].1 == eb[i].1
    ensures Encode(reg, Composite(fields), Map(ea)) == Encode(reg, Composite(fields), Map(eb))
  {
    var n := Min(|fields|, |ea|);
    FieldsAgree(reg, fields, fields, ea, eb, n);
    assert TypeDefTrace(reg, Composite(fields), Map(ea)) == FieldsTrace(reg, fields, Map(ea), n);
    assert TypeDefTrace(reg, Composite(fields), Map(eb)) == FieldsTrace(reg, fields, Map(eb), n);
  }

  /** The zip stops at the shorter list: extra fields or extra entries are
      ignored, so the encoding equals that of the two lists cut to equal length. */
  lemma CompositeZipTruncates(reg: Registry, fields: seq<Field>, entries: seq<(Value, Value)>)
    ensures var n := Min(|fields|, |entries|);
      Encode(reg, Composite(fields), Map(entries)) == Encode(reg, Composite(fields[..n]), Map(entries[..n]))
  {
    var n := Min(|fields|, |entries|);
    FieldsAgree(reg, fields, fields[..n], entries, entries[..n], n);
    assert TypeDefTrace(reg, Composite(fields), Map(entries)) == FieldsTrace(reg, fields, Map(entries), n);
    assert TypeDefTrace(reg, Composite(fields[..n]), Map(entries[..n]))
      == FieldsTrace(reg, fields[..n], Map(entries[..n]), n);
  }

  lemma {:induction false} FieldsAppend(reg: Registry, f1: seq<Field>, f2: seq<Field>,
                                        e1: seq<(Value, Value)>, e2: seq<(Value, Value)>, m: nat)
    requires |f1| == |e1| && m <= |f2| && m <= |e2|
    ensures FieldsTrace(reg, f1 + f2, Map(e1 + e2), |f1| + m)
      == Then(FieldsTrace(reg, f1, Map(e1), |f1|), FieldsTrace(reg, f2, Map(e2), m))
  {
    if m == 0 {
      assert (f1 + f2)[..|f1|] == f1[..|f1|];
      FieldsAgree(reg, f1 + f2, f1, e1 + e2, e1, |f1|);
      ThenDone(FieldsTrace(reg, f1, Map(e1), |f1|));
    } else {
      FieldsAppend(reg, f1, f2, e1, e2, m - 1);
      assert (f1 + f2)[|f1| + m - 1] == f2[m - 1];
      assert (e1 + e2)[|f1| + m - 1] == e2[m - 1];
      ThenAssoc(FieldsTrace(reg, f1, Map(e1), |f1|), FieldsTrace(reg, f2, Map(e2), m - 1),
        FieldTrace(reg, f2[m - 1], e2[m - 1].1));
    }
  }

  /** A struct is the concatenation of its fields' encodings in declaration
      order: splitting the fields and the entries at the same point splits the
      output there, and a failing field keeps the bytes of the fields before it. */
  lemma CompositeAppend(reg: Registry, f1: seq<Field>, f2: seq<Field>, e1: seq<(Value, Value)>, e2: seq<(Value, Value)>)
    requires |f1| == |e1|
    ensures TypeDefTrace(reg, Composite(f1 + f2), Map(e1 + e2))
      == Then(TypeDefTrace(reg, Composite(f1), Map(e1)), TypeDefTrace(reg, Composite(f2), Map(e2)))
  {
    FieldsAppend(reg, f1, f2, e1, e2, Min(|f2|, |e2|));
  }

  /** A one-field struct encodes as its field's value against the field's type. */
  lemma CompositeOfOne(reg: Registry, f: Field, key: Value, x: Value)
    ensures Encode(reg, Composite([f]), Map([(key, x)]))
      == if f.ty in reg then Encode(reg, reg[f.ty].def, x) else Err(UnknownType(f.ty))
    ensures f.ty !in reg ==> TypeDefTrace(reg, Composite([f]), Map([(key, x)])).written == []
  {
    var t := FieldTrace(reg, f, x);
    assert [(key, x)][0].1 == x;
    assert FieldsTrace(reg, [f], Map([(key, x)]), 1) == Then(Trace([], Done), t);
    assert [] + t.written == t.written;
    assert TypeDefTrace(reg, Composite([f]), Map([(key, x)])) == t;
    if f.ty in reg {
      assert t == TypeTrace(reg, reg[f.ty], x);
      assert TypeTrace(reg, reg[f.ty], x) == TypeDefTrace(reg, reg[f.ty].def, x);
    }
  }

  /** A struct `{ a: u8, b: bool }` given a map whose values are 7 and true, in
      that order, is `07 01`, whatever the keys are: here they are not even
      the field names. */
  lemma StructExample()
    ensures var reg := map[0 := Type([], Primitive(U8)), 1 := Type([], Primitive(PrimitiveKind.Bool))];
      var fields := [Field(Some("a"), 0), Field(Some("b"), 1)];
      Encode(reg, Composite(fields), Map([(String("x"), Number(Integer(7))), (String("y"), Value.Bool(true))]))
        == Ok([7, 1])
  {
    var reg := map[0 := Type([], Primitive(U8)), 1 := Type([], Primitive(PrimitiveKind.Bool))];
    var fields := [Field(Some("a"), 0), Field(Some("b"), 1)];
    var v := Map([(String("x"), Number(Integer(7))), (String("y"), Value.Bool(true))]);
    assert LittleEndian(7, 1) == [7];
    assert FieldTrace(reg, fields[0], Number(Integer(7))) == Trace([7], Done);
    assert FieldTrace(reg, fields[1], Value.Bool(true)) == Trace([1], Done);
    assert FieldsTrace(reg, fields, v, 1) == Trace([7], Done);
    assert FieldsTrace(reg, fields, v, 2) == Trace([7, 1], Done);
    assert TypeDefTrace(reg, Composite(fields), v) == FieldsTrace(reg, fields, v, 2);
  }

  /** A struct accepts nothing but a map. */
  lemma CompositeNeedsMap(reg: Registry, fields: seq<Field>, v: Value)
    requires !v.Map?
    ensures Encode(reg, Composite(fields), v) == Err(TypeMismatch)
    ensures TypeDefTrace(reg, Composite(fields), v).written == []
  {
    assert TypeDefTrace(reg, Composite(fields), v) == CompositeTrace(reg, fields, v);
  }
}
