/** The inputs of the encoder: the schema (scale-info's `Type`, `TypeDef`,
    `Field` and the registry they are resolved through), the dynamically typed
    `ron::Value` tree, and the outcome of an encoding. */
module Schema {
  import opened Wrappers
  import opened Scale

  /** A type's index in the registry. */
  type TypeId = nat

  /** scale-info's `TypeDefPrimitive`. */
  datatype PrimitiveKind = Bool | Char | Str | U8 | U16 | U32 | U64 | U128 | I8 | I16 | I32 | I64 | I128

  /** A struct field: an optional name and the id of its type. */
  datatype Field = Field(name: Option<string>, ty: TypeId)

  /** scale-info's `TypeDef`. The three variants the encoder handles carry what
      it reads; every other variant (variant/enum, sequence, tuple, …) is `Other`. */
  datatype TypeDef =
    | Composite(fields: seq<Field>)
    | Array(elem: TypeId)
    | Primitive(kind: PrimitiveKind)
    | Other(variant: string)

  /** A registry entry: the type's path (not used by the encoder) and its definition. */
  datatype Type = Type(path: seq<string>, def: TypeDef)

  /** The read-only registry; `resolve_type` fails on an id that is not a key. */
  type Registry = map<TypeId, Type>

  /** `ron::Number::Integer` holds an `i64`. */
  type I64 = x: int | -0x8000_0000_0000_0000 <= x < 0x8000_0000_0000_0000

  datatype Number = Integer(i: I64) | Float(f: real)

  /** `ron::Value`. A map is the sequence of its (key, value) entries in the
      order in which the map iterates them. */
  datatype Value =
    | Bool(b: bool)
    | Char(c: char)
    | Map(entries: seq<(Value, Value)>)
    | Number(n: Number)
    | Optional(inner: Option<Value>)
    | String(s: string)
    | Seq(elems: seq<Value>)
    | Unit

  /** Why an encoding stopped. `Unimplemented` stands for the source's
      `unimplemented!()` panics; `LengthOverflow` for the codec's refusal of a
      string longer than a `u32` can count. */
  datatype Error =
    | UnknownType(id: TypeId)
    | Unimplemented
    | CharUnsupported
    | TypeMismatch
    | NumericConversion
    | NumericParse
    | InvalidHex
    | LengthOverflow

  datatype Status = Done | Failed(error: Error)

  /** Everything an encoding appended to the output, and whether it finished.
      Bytes written before a failure stay in the output, so a failed trace can
      carry bytes too. */
  datatype Trace = Trace(written: seq<Byte>, status: Status)
}
