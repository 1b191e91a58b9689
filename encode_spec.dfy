/** What `encode_value_to` appends to its output, as pure functions over the
    schema and the value.

    Each `…Trace` function gives the exact bytes an encoding appends and whether
    it finishes. A failure part-way through a sequence or a struct leaves the
    bytes of the earlier elements or fields in the output, so a failed trace
    carries them. Recursion always descends into a strict part of the value
    (an element, a map value), which is what the termination measure follows. */
module EncodeSpec {
  import opened Wrappers
  import opened Scale
  import opened Text
  import opened Schema

  function Min(a: nat, b: nat): (m: nat) { if a <= b then a else b }

  /** A trace that failed before writing anything. */
  function Fail(e: Error): (t: Trace) { Trace([], Failed(e)) }

  /** Running `second` after `first`: nothing more happens once `first` failed. */
  function Then(first: Trace, second: Trace): (t: Trace)
  {
    if first.status.Failed? then first else Trace(first.written + second.written, second.status)
  }

  predicate IsUnsigned(k: PrimitiveKind) { k.U8? || k.U16? || k.U32? || k.U64? || k.U128? }

  /** Byte width of the unsigned kinds. */
  function Width(k: PrimitiveKind): (w: nat)
  {
    match k
    case U8 => 1
    case U16 => 2
    case U32 => 4
    case U64 => 8
    case U128 => 16
    case _ => 0
  }

  /** `(*i).try_into()?` into a w-byte unsigned integer, then `encode_to`. */
  function UnsignedTrace(i: int, w: nat): (t: Trace)
  {
    if 0 <= i < Pow256(w) then Trace(LittleEndian(i, w), Done) else Fail(NumericConversion)
  }

  /** `str::encode_to`: the compact byte length, then the UTF-8 bytes. */
  function StrTrace(s: string): (t: Trace)
  {
    var bytes := Utf8(s);
    if |bytes| < CompactLimit then Trace(CompactU32(|bytes|) + bytes, Done) else Fail(LengthOverflow)
  }

  /** The `TypeDefPrimitive` rule. Every check happens before anything is
      written, so a primitive either appends its whole encoding or nothing. */
  function PrimitiveTrace(k: PrimitiveKind, v: Value): (t: Trace)
    ensures t.status.Failed? ==> t.written == []
    ensures t.status.Done? && IsUnsigned(k) ==> |t.written| == Width(k)
  {
    match k
    case Bool => if v.Bool? then Trace([if v.b then 1 else 0], Done) else Fail(TypeMismatch)
    case Char => Fail(CharUnsupported)
    case Str => if v.String? then StrTrace(v.s) else Fail(TypeMismatch)
    case U8 | U16 | U32 =>
      if v.Number? && v.n.Integer? then UnsignedTrace(v.n.i, Width(k)) else Fail(TypeMismatch)
    case U64 | U128 =>
      if v.Number? && v.n.Integer? then UnsignedTrace(v.n.i, Width(k))
      else if v.String? then
        match ParseUnsigned(Sanitize(v.s), Pow256(Width(k)))
        case Some(n) => Trace(LittleEndian(n, Width(k)), Done)
        case None => Fail(NumericParse)
      else Fail(TypeMismatch)
    case _ => Fail(Unimplemented)
  }

  /** The `Field` rule: resolve the field's type, then encode against it. */
  function FieldTrace(reg: Registry, f: Field, v: Value): (t: Trace)
    decreases v, 4, 0
  {
    if f.ty !in reg then Fail(UnknownType(f.ty)) else TypeTrace(reg, reg[f.ty], v)
  }

  /** The `Type` rule: encode against the type's definition. */
  function TypeTrace(reg: Registry, ty: Type, v: Value): (t: Trace)
    decreases v, 3, 0
  {
    TypeDefTrace(reg, ty.def, v)
  }

  /** The `TypeDef` rule: dispatch on the variant; any other variant is unimplemented. */
  function TypeDefTrace(reg: Registry, def: TypeDef, v: Value): (t: Trace)
    decreases v, 2, 0
  {
    match def
    case Array(elem) => ArrayTrace(reg, elem, v)
    case Primitive(k) => PrimitiveTrace(k, v)
    case Composite(fields) => CompositeTrace(reg, fields, v)
    case Other(_) => Fail(Unimplemented)
  }

  /** The `TypeDefArray` rule: a hex string for a byte array, or a sequence whose
      elements are encoded one after the other, without a length prefix. */
  function ArrayTrace(reg: Registry, elem: TypeId, v: Value): (t: Trace)
    decreases v, 1, 0
  {
    if elem !in reg then Fail(UnknownType(elem))
    else
      match v
      case String(s) =>
        if reg[elem].def == Primitive(U8) then
          match HexDecode(StripHexPrefix(s))
          case Some(bytes) => Trace(bytes, Done)
          case None => Fail(InvalidHex)
        else Fail(TypeMismatch)
      case Seq(elems) => ElementsTrace(reg, reg[elem], v, |elems|)
      case _ => Fail(TypeMismatch)
  }

  /** The first n elements of the sequence value v, each encoded against ty. */
  function ElementsTrace(reg: Registry, ty: Type, v: Value, n: nat): (t: Trace)
    requires v.Seq? && n <= |v.elems|
    decreases v, 0, n
  {
    if n == 0 then Trace([], Done)
    else Then(ElementsTrace(reg, ty, v, n - 1), TypeTrace(reg, ty, v.elems[n - 1]))
  }

  /** The `TypeDefComposite` rule: the fields zipped with the map's values. */
  function CompositeTrace(reg: Registry, fields: seq<Field>, v: Value): (t: Trace)
    decreases v, 1, 0
  {
    if v.Map? then FieldsTrace(reg, fields, v, Min(|fields|, |v.entries|)) else Fail(TypeMismatch)
  }

  /** The first n (field, map value) pairs of the zip. */
  function FieldsTrace(reg: Registry, fields: seq<Field>, v: Value, n: nat): (t: Trace)
    requires v.Map? && n <= |fields| && n <= |v.entries|
    decreases v, 0, n
  {
    if n == 0 then Trace([], Done)
    else Then(FieldsTrace(reg, fields, v, n - 1), FieldTrace(reg, fields[n - 1], v.entries[n - 1].1))
  }

  /** The result of encoding v against def: the bytes appended, or the error. */
  function Encode(reg: Registry, def: TypeDef, v: Value): (r: Result<seq<Byte>, Error>)
  {
    var t := TypeDefTrace(reg, def, v);
    if t.status.Done? then Ok(t.written) else Err(t.status.error)
  }
}
