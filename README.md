# Type-directed SCALE encoding of RON values (cargo-contract `transcode/encode.rs`)

This project models the encoder that `cargo contract` uses to turn a
human-written argument — a `ron::Value` tree — into the SCALE-codec bytes a
contract expects, guided by the argument's type in the contract's scale-info
metadata. The encoder dispatches on the type definition (`Primitive`, `Array`,
`Composite`, anything else), resolves nested type ids through a read-only
registry, and appends bytes to an output sink in strict left-to-right order.
It never rolls back: bytes written before a failing element or field stay in
the output.

Layout:

- `wrappers.dfy` — `Option` and `Result`.
- `scale.dfy` (module `Scale`) — fixed-width little-endian integers and the
  `Compact<u32>` length prefix, each with a decoder and a round-trip lemma.
- `text.dfy` (module `Text`) — UTF-8 bytes of a string, `trim_start_matches("0x")`,
  `hex::decode` (with a reference hex encoder), removal of `_`/`,` separators and
  unsigned `from_str` (with a reference decimal renderer).
- `schema.dfy` (module `Schema`) — `TypeDef`, `Type`, `Field`, the registry as a
  `map`, `ron::Value`, the error kinds and the `Trace` of an encoding.
- `encode_spec.dfy` (module `EncodeSpec`) — the encoding as pure functions. Each
  `…Trace` function gives exactly the bytes appended and whether the encoding
  finished. `Encode` gives the bytes or the error.
- `encode_properties.dfy` (module `EncodeProperties`) — the properties below.
- `encoder.dfy` (module `Encoder`) — the `encode_value_to` implementations as
  methods that append to a `Sink` object. Each one is proved to append exactly
  its trace's bytes and to return its trace's status.

Recursion always goes into a strict part of the value (an element of a
sequence, a value of a map), so termination is proved on the value, even
when the registry is cyclic.

## Model

| member | source | states |
|---|---|---|
| Encoder.EncodeType | src/cmd/extrinsics/transcode/encode.rs:37-46 | appends exactly the trace of encoding against the type's definition and returns its status |
| Encoder.EncodeTypeDef | src/cmd/extrinsics/transcode/encode.rs:48-62 | dispatch on the variant. On success the sink has grown by exactly `Encode`'s bytes. On failure `Encode` gives the same error and the old contents are a prefix of the sink. Unhandled variants fail without writing |
| Encoder.EncodeArray | src/cmd/extrinsics/transcode/encode.rs:64-95 | resolves the element type once. A hex string for a `u8` element appends the decoded bytes. A sequence appends its elements' encodings. Any other case appends nothing and fails |
| Encoder.PushEach | src/cmd/extrinsics/transcode/encode.rs:76-78 | the loop over decoded bytes appends exactly those bytes, in order |
| Encoder.EncodeElements | src/cmd/extrinsics/transcode/encode.rs:86-91 | the element loop appends each element's encoding in order. It stops at the first failure, keeping what earlier elements wrote |
| Encoder.EncodePrimitive | src/cmd/extrinsics/transcode/encode.rs:97-186 | appends exactly the primitive's trace: the whole encoding, or nothing on failure |
| Encoder.WriteUnsigned | src/cmd/extrinsics/transcode/encode.rs:122-126 | `try_into` then `encode_to`: writes w little-endian bytes when the integer fits, otherwise writes nothing and fails with a conversion error |
| Encoder.EncodeComposite | src/cmd/extrinsics/transcode/encode.rs:188-207 | a map zips its values positionally with the fields, stops at the shorter list or at the first failure, and keeps the earlier bytes. A non-map writes nothing |
| Encoder.EncodeField | src/cmd/extrinsics/transcode/encode.rs:209-219 | resolves the field's type (unknown id: error, nothing written) and encodes against it |
| EncodeSpec.PrimitiveTrace | src/cmd/extrinsics/transcode/encode.rs:97-186 | a failing primitive writes nothing, and a successful unsigned one writes exactly its byte width |
| EncodeProperties.BoolEncoding | src/cmd/extrinsics/transcode/encode.rs:105-112 | `bool` succeeds exactly on a Bool value and writes one byte, 1 for true and 0 for false. Anything else is a type mismatch |
| EncodeProperties.FixedWidthInteger | src/cmd/extrinsics/transcode/encode.rs:122-168 | for every unsigned kind, an integer succeeds iff it lies in `0 .. 256^width`. The output is then `width` bytes that read back as the integer. Otherwise the error is a numeric conversion, never a wrap or truncation |
| EncodeProperties.SmallUnsignedNeedsInteger | src/cmd/extrinsics/transcode/encode.rs:122-148 | `u8`, `u16` and `u32` refuse every non-integer value with a type mismatch |
| EncodeProperties.LargeUnsignedFromString | src/cmd/extrinsics/transcode/encode.rs:155-159 | a `u64`/`u128` string succeeds iff its sanitised form parses to a value that fits. The bytes read back as that value. Otherwise the error is a parse error |
| EncodeProperties.LargeUnsignedShapes | src/cmd/extrinsics/transcode/encode.rs:161-175 | `u64`/`u128` refuse everything but an integer or a string |
| EncodeProperties.DecimalStringMatchesInteger | src/cmd/extrinsics/transcode/encode.rs:149-176 | a string that is the decimal of a non-negative integer, with separators anywhere, succeeds and encodes identically to the integer |
| EncodeProperties.StringMatchesInteger | src/cmd/extrinsics/transcode/encode.rs:149-176 | any `u64`/`u128` string that parses to a non-negative `i64` (leading zeros, a `+`, separators included) encodes exactly like that integer |
| EncodeProperties.SeparatorIgnored | src/cmd/extrinsics/transcode/encode.rs:156-157 | inserting a `_` or `,` anywhere in a `u64`/`u128` string does not change the encoding |
| EncodeProperties.U64TopHalfOnlyAsString | src/cmd/extrinsics/transcode/encode.rs:150-160 | `u64::MAX` is encodable from its decimal string, and no RON integer gives the same output, because RON integers are `i64` |
| EncodeProperties.OverflowingDecimalRefused | src/cmd/extrinsics/transcode/encode.rs:155-159 | a `u64`/`u128` decimal string whose value does not fit the width fails with a parse error instead of wrapping |
| EncodeProperties.StrEncoding | src/cmd/extrinsics/transcode/encode.rs:114-117 | a string encodes as a compact prefix that decodes to its UTF-8 byte length, followed by exactly those bytes. The prefix takes the shortest of the four compact modes: 1, 2, 4 or 5 bytes by the length |
| EncodeProperties.StrNeedsString | src/cmd/extrinsics/transcode/encode.rs:114-121 | `str` refuses every non-string value with a type mismatch |
| EncodeProperties.UnhandledTypeDefFails | src/cmd/extrinsics/transcode/encode.rs:59 | every other `TypeDef` variant fails as unimplemented and writes nothing |
| EncodeProperties.UnhandledPrimitiveFails | src/cmd/extrinsics/transcode/encode.rs:113-183 | `char` fails with its own error, and the signed kinds fail as unimplemented. Neither writes anything |
| EncodeProperties.ElementsFailureSticks | src/cmd/extrinsics/transcode/encode.rs:87-89 | after an element fails (`?`), no later element is encoded |
| EncodeProperties.ArrayAppend | src/cmd/extrinsics/transcode/encode.rs:86-91 | `xs ++ ys` encodes as `xs` followed, if it finished, by `ys`. It succeeds iff both do, and its bytes are their bytes concatenated, with no prefix or separator |
| EncodeProperties.ArrayOfOne | src/cmd/extrinsics/transcode/encode.rs:86-91 | a one-element sequence encodes as its element against the element type, and an empty sequence writes nothing |
| EncodeProperties.ArrayNeedsSeqOrString | src/cmd/extrinsics/transcode/encode.rs:72-92 | an array refuses every value that is neither a string nor a sequence with a type mismatch, writing nothing |
| EncodeProperties.ArrayUnknownElement | src/cmd/extrinsics/transcode/encode.rs:71 | an unknown element type id fails with that id before the value is examined, whatever the value (even an empty sequence), writing nothing |
| EncodeProperties.HexStringArray | src/cmd/extrinsics/transcode/encode.rs:71-85 | a string is accepted iff the element type is exactly `u8` and the string, with its `0x` prefixes trimmed, is valid hex. The output is then the decoded bytes alone. Refusals are invalid hex or a type mismatch and write nothing |
| EncodeProperties.HexMatchesByteSequence | src/cmd/extrinsics/transcode/encode.rs:71-91 | for a `u8` element type, the hex form of bytes (with or without `0x`) and the sequence of the same bytes as integers both encode to exactly those bytes |
| EncodeProperties.FieldsFailureSticks | src/cmd/extrinsics/transcode/encode.rs:196-198 | after a field fails, no later field is encoded |
| EncodeProperties.CompositeIgnoresKeys | src/cmd/extrinsics/transcode/encode.rs:196 | two maps with the same values in the same order encode identically, whatever their keys |
| EncodeProperties.CompositeZipTruncates | src/cmd/extrinsics/transcode/encode.rs:196 | the encoding equals that of the fields and entries both cut to the shorter length |
| EncodeProperties.CompositeAppend | src/cmd/extrinsics/transcode/encode.rs:195-199 | splitting fields and entries at the same point splits the output. A failing field keeps the earlier fields' bytes |
| EncodeProperties.CompositeOfOne | src/cmd/extrinsics/transcode/encode.rs:195-217 | a one-field struct encodes as the field's value against the field's resolved type. An unknown field type is an error and writes nothing |
| EncodeProperties.StructExample | src/cmd/extrinsics/transcode/encode.rs:195-199 | `{a: u8, b: bool}` with map values 7 and true encodes to `07 01`, whatever the keys are (here they are not the field names) |
| EncodeProperties.CompositeNeedsMap | src/cmd/extrinsics/transcode/encode.rs:200-205 | a struct refuses every non-map value with a type mismatch and writes nothing |
| Scale.LittleEndianRoundTrip | src/cmd/extrinsics/transcode/encode.rs:124-125 | an integer written in w little-endian bytes reads back as itself |
| Scale.LittleEndianOfDecoded | src/cmd/extrinsics/transcode/encode.rs:124-125 | every w-byte string is the encoding of the value it reads as, so the fixed-width encoding is injective |
| Scale.CompactRoundTrip | src/cmd/extrinsics/transcode/encode.rs:116 | the compact length prefix takes 1, 2, 4 or 5 bytes by its four modes, and it decodes to the length whatever follows it |
| Text.Utf8Length | src/cmd/extrinsics/transcode/encode.rs:116 | the byte length that prefixes a string lies between its character count and four times that. It equals the character count iff the string is ASCII |
| Text.Utf8CharShape | src/cmd/extrinsics/transcode/encode.rs:116 | a character takes the shortest UTF-8 form: 1, 2, 3 or 4 bytes by its code point range, with the lead byte tagged for that length and every continuation byte tagged `10` |
| Text.Utf8CharRoundTrip | src/cmd/extrinsics/transcode/encode.rs:116 | each character's UTF-8 bytes decode back to the character |
| Text.StripHexPrefix | src/cmd/extrinsics/transcode/encode.rs:75 | the input is some number of `0x` repetitions followed by the result, and the result does not start with `0x` |
| Text.RepeatedHexPrefixStrips | src/cmd/extrinsics/transcode/encode.rs:75 | any number of leading `0x` repetitions is trimmed, not just one |
| Text.HexDecodeAccepts | src/cmd/extrinsics/transcode/encode.rs:75 | hex decoding succeeds iff the length is even and every character is a hex digit |
| Text.HexDigitAccepted | src/cmd/extrinsics/transcode/encode.rs:75 | a character is accepted as a hex digit iff its lower-case form is one of `0-9a-f`, so both cases are accepted |
| Text.HexDigitValue | src/cmd/extrinsics/transcode/encode.rs:75 | an upper-case hex digit has the value of its lower-case form |
| Text.HexDecodeThenEncode | src/cmd/extrinsics/transcode/encode.rs:75 | the bytes a hex string decodes to, re-encoded, give that string in lower case |
| Text.HexRoundTrip | src/cmd/extrinsics/transcode/encode.rs:75 | decoding the hex form of bytes gives the bytes back |
| Text.PrefixedHexStrips | src/cmd/extrinsics/transcode/encode.rs:75 | trimming `0x` plus the hex form of bytes leaves exactly the hex form |
| Text.Sanitize | src/cmd/extrinsics/transcode/encode.rs:156 | the result contains no `_` or `,` and is no longer than the input |
| Text.SanitizeAppend | src/cmd/extrinsics/transcode/encode.rs:170 | removing separators distributes over concatenation |
| Text.ParseUnsigned | src/cmd/extrinsics/transcode/encode.rs:157 | a parsed value always lies below the type's limit |
| Text.ParseUnsignedAccepts | src/cmd/extrinsics/transcode/encode.rs:157 | parsing succeeds iff, after one optional `+`, the input is a non-empty run of digits whose value is below the limit, and it then gives that value |
| Text.LeadingZeroOrPlus | src/cmd/extrinsics/transcode/encode.rs:157 | a leading `0` or `+` in front of digits does not change the parse |
| Text.ParseShowOverflow | src/cmd/extrinsics/transcode/encode.rs:157 | the decimal form of a value at or above the limit is refused |
| Text.ParseShowRoundTrip | src/cmd/extrinsics/transcode/encode.rs:171 | the decimal form of any value below the limit parses back to the value |

## Left out

- `resolve_type` and the scale-info registry are not part of this model. The
  registry is a `map` from type id to `Type`. An id that is not a key is an
  `UnknownType` error. Only a type's path and definition are kept.
- `ron::Value` parsing is not modelled. A map is the sequence of its entries in
  the order `values()` iterates them; the model does not say what that order is.
  Depending on its build, `ron` keeps a map sorted by key or in insertion order,
  so the values a struct receives follow that order, not the field names.
- `Float` numbers, `Char`, `Option` and `Unit` values are shapes that every rule
  refuses. The float's payload is never inspected.
- The `scale::Output` / `Encode` trait plumbing becomes the `Sink` class, whose
  `PushByte` and `Write` append.
- Error message texts are not modelled, only the error kind. The `u32` rule's
  message says "u16" (encode.rs line 146); that message slip is not represented.
- The `unimplemented!()` panics (encode.rs lines 59 and 178) are the error
  `Unimplemented` instead of a process abort. The commented-out signed-integer
  code is not modelled: the signed kinds take that `Unimplemented` branch.
- A string whose UTF-8 length does not fit a `u32` makes the codec panic while
  writing the length. It is the error `LengthOverflow`, with nothing written.
- `hex::decode` is modelled on characters rather than UTF-8 bytes. It succeeds
  on the same inputs: a non-ASCII character is not a hex digit either way.
- The declared length of a fixed-size array type is not represented, because
  the encoder never reads it.

On these points the code behaves in ways that are easy to miss; the model follows the code:

- `char` returns an ordinary error; it does not panic.
- `trim_start_matches("0x")` removes every leading repetition of `0x`, not just one.
- Rust's unsigned `from_str` also accepts one leading `+`.
- A RON integer is an `i64`, so the integer form of `u64`/`u128` reaches only
  values below 2^63. Larger values need the string form.
