/** The field record of the codec. Its real definition (and its `Bytes` and
    `load` methods) is not part of this model; what the core reads of it is
    its four members below. */
module IsoField {
  import opened Base

  /** Byte encodings, numbered as in j8583/field.go:3-8. */
  const ASCII: int := 0
  const BINARY: int := 1
  const BCD: int := 2
  const RBCD: int := 3

  /** A part of a composite field (`SubField`). */
  datatype SubField = SubField(isoType: int, encoder: int, length: int, value: Option<GoString>)

  /** The dynamic `Value interface{}` of a field: a string, or some other
      value (the sub-field list a composite field carries). `None` at the
      use sites stands for Go's nil. */
  datatype Value = Text(s: GoString) | Composite(parts: seq<SubField>)

  /** `Field`: kind (FIXED, LLVAR, LLLVAR), value, byte encoding and declared length. */
  datatype Field = Field(isoType: int, value: Option<Value>, encoder: int, length: int)

  /** Go's zero value `Field{}`. */
  const ZeroField: Field := Field(0, None, 0, 0)

  /** `f.Value.(string)` when the assertion succeeds, and nothing otherwise. */
  function TextOf(f: Field): (s: GoString)
    ensures (f.value.Some? && f.value.value.Text?) ==> s == f.value.value.s
    ensures !(f.value.Some? && f.value.value.Text?) ==> s == []
  {
    match f.value
    case Some(Text(s)) => s
    case _ => []
  }
}

/** Everything the core calls but that is defined in code outside the model,
    as uninterpreted values: each is an arbitrary total function (or
    constant), so every property proved holds whatever they compute. */
module Collaborators {
  import opened Base
  import opened IsoField

  datatype Env = Env(
    lbcd: GoString -> seq<byte>,                       // left-packed BCD of the MTI
    bcd: GoString -> seq<byte>,                        // packed BCD of TPDU and header
    bcd2Ascii: seq<byte> -> GoString,                  // packed BCD back to digits
    fieldBytes: Field -> Result<seq<byte>>,            // Field.Bytes()
    load: (Field, seq<byte>) -> Result<int>,           // Field.load(raw): bytes consumed
    encrypt: (seq<byte>, seq<byte>) -> Result<seq<byte>>, // security.EncryptWithDESKey(data, key)
    int2Byte: int -> seq<byte>,                        // utils.Int2Byte
    fixed: int, llvar: int, lllvar: int,               // FIXED, LLVAR, LLLVAR
    newFieldFix: (int, int, GoString) -> Field,        // NewFieldFix(encoder, length, value)
    newFieldVar: (int, int, GoString) -> Field,        // NewFieldVar(isoType, encoder, value)
    newSubFieldFix: (int, int, GoString) -> SubField,  // NewSubFieldFix(encoder, length, value)
    newFields: (int, int, seq<SubField>) -> Field,     // NewFields(isoType, encoder, parts)
    newSubField: (int, int, seq<SubField>) -> Field    // NewSubField(isoType, encoder, parts)
  )

  /** The length assumption the MAC makes of the cipher: a successful
      encryption of at least one 8-byte block yields at least 8 bytes.
      Without it `result[i]` for i < 8 would fault on the cipher's output. */
  ghost predicate CipherKeepsBlock(encrypt: (seq<byte>, seq<byte>) -> Result<seq<byte>>) {
    forall data: seq<byte>, key: seq<byte> ::
      |data| >= 8 && encrypt(data, key).Ok? ==> |encrypt(data, key).value| >= 8
  }
}
