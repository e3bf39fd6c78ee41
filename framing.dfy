/** j8583/message.go as values: the header checks, the field table, and the
    functions that say what `BytesFields`, `Bytes`, `BytesLenHeader`,
    `Decode` and `DecodeDes` compute. The class `J8583.Message` runs the
    loops and appends the code runs and is proved to compute these. */
module Framing {
  import opened Base
  import opened Utils
  import opened GoStd
  import opened IsoField
  import opened Collaborators
  import opened Bitmap

  // ---------------------------------------------------------------------
  // Header checks

  /** `encodeTpdu`: a 10-byte TPDU that `strconv.Atoi` accepts, packed by `bcd`. */
  function EncodeTpdu(env: Env, tpdu: GoString): (r: Result<seq<byte>>)
    ensures r.Ok? <==> (|tpdu| == 10 && AtoiAccepts(tpdu))
    ensures r.Ok? ==> r.value == env.bcd(tpdu)
    ensures tpdu == [] ==> r == Err(TpduRequired)
    ensures tpdu != [] && r.Err? ==> r.error == TpduInvalid
  {
    if tpdu == [] then Err(TpduRequired)
    else if |tpdu| != 10 then Err(TpduInvalid)
    else if !AtoiAccepts(tpdu) then Err(TpduInvalid)
    else Ok(env.bcd(tpdu))
  }

  /** `encodeHeader`: a 12-byte header that `strconv.Atoi` accepts, packed by `bcd`. */
  function EncodeHeader(env: Env, header: GoString): (r: Result<seq<byte>>)
    ensures r.Ok? <==> (|header| == 12 && AtoiAccepts(header))
    ensures r.Ok? ==> r.value == env.bcd(header)
    ensures r.Err? ==> r.error == HeaderInvalid
  {
    if |header| != 12 then Err(HeaderInvalid)
    else if !AtoiAccepts(header) then Err(HeaderInvalid)
    else Ok(env.bcd(header))
  }

  /** `decodeMti(raw, encode, length)`: for BCD the length counts digits and is
      halved; too few bytes fail with "bad raw data"; only ASCII and BCD are
      known encodings. A negative length would fault in the slice, so the
      callers never pass one. */
  function DecodeMti(env: Env, raw: seq<byte>, encode: int, length: int): (r: Result<GoString>)
    requires length >= 0
    ensures encode == BCD ==> (r.Ok? <==> |raw| >= length / 2)
    ensures encode == BCD && r.Ok? ==> r.value == env.bcd2Ascii(raw[..length / 2])
    ensures encode == ASCII ==> (r.Ok? <==> |raw| >= length)
    ensures encode == ASCII && r.Ok? ==> r.value == raw[..length]
    ensures encode != BCD && encode != ASCII ==>
              r == (if |raw| < length then Err(BadRawData) else Err(InvalidEncodeType))
    ensures r.Err? && |raw| >= (if encode == BCD then length / 2 else length) ==> r.error == InvalidEncodeType
  {
    var n := if encode == BCD then length / 2 else length;
    if |raw| < n then Err(BadRawData)
    else if encode == ASCII then Ok(raw[..n])
    else if encode == BCD then Ok(env.bcd2Ascii(raw[..n]))
    else Err(InvalidEncodeType)
  }

  // ---------------------------------------------------------------------
  // The field table

  /** The table entry `parseFields()` gives index i, or None when it has none. */
  function FieldDef(env: Env, i: int): Option<Field> {
    match i
    case 2 => Some(Field(env.llvar, None, BCD, 0))
    case 3 => Some(Field(env.fixed, None, BCD, 6))
    case 4 => Some(Field(env.fixed, None, BCD, 12))
    case 6 => Some(Field(env.fixed, None, BCD, 12))
    case 10 => Some(Field(env.fixed, None, BCD, 8))
    case 11 => Some(Field(env.fixed, None, BCD, 6))
    case 12 => Some(Field(env.fixed, None, BCD, 6))
    case 13 => Some(Field(env.fixed, None, BCD, 4))
    case 14 => Some(Field(env.fixed, None, BCD, 4))
    case 15 => Some(Field(env.fixed, None, BCD, 4))
    case 22 => Some(Field(env.fixed, None, BCD, 3))
    case 23 => Some(Field(env.fixed, None, RBCD, 3))
    case 25 => Some(Field(env.fixed, None, BCD, 2))
    case 26 => Some(Field(env.fixed, None, BCD, 2))
    case 32 => Some(Field(env.llvar, None, BCD, 0))
    case 35 => Some(Field(env.llvar, None, BCD, 0))
    case 37 => Some(Field(env.fixed, None, ASCII, 12))
    case 38 => Some(Field(env.fixed, None, ASCII, 6))
    case 39 => Some(Field(env.fixed, None, ASCII, 2))
    case 41 => Some(Field(env.fixed, None, ASCII, 8))
    case 42 => Some(Field(env.fixed, None, ASCII, 15))
    case 44 => Some(Field(env.llvar, None, BCD, 0))
    case 46 => Some(Field(env.lllvar, None, BCD, 0))
    case 48 => Some(Field(env.lllvar, None, BCD, 0))
    case 49 => Some(Field(env.fixed, None, ASCII, 3))
    case 51 => Some(Field(env.fixed, None, ASCII, 3))
    case 52 => Some(Field(env.fixed, None, BINARY, 8))
    case 53 => Some(Field(env.fixed, None, BCD, 16))
    case 54 => Some(Field(env.lllvar, None, ASCII, 0))
    case 55 => Some(Field(env.lllvar, None, BINARY, 0))
    case 57 => Some(Field(env.lllvar, None, ASCII, 0))
    case 60 => Some(env.newSubField(env.lllvar, BCD,
                 [Part(env, 2), Part(env, 6), Part(env, 3), Part(env, 1), Part(env, 1)]))
    case 61 => Some(env.newSubField(env.lllvar, BCD, [Part(env, 6), Part(env, 6), Part(env, 4)]))
    case 62 => Some(Field(env.lllvar, None, BINARY, 0))
    case 63 => Some(env.newSubField(env.lllvar, BCD, [Part(env, 3)]))
    case 64 => Some(Field(env.fixed, None, BINARY, 8))
    case _ => None
  }

  /** A fixed BCD sub-field of the given length. */
  function Part(env: Env, length: int): SubField {
    SubField(env.fixed, BCD, length, None)
  }

  /** The indices `parseFields()` defines. */
  const TableKeys: set<int> :=
    {2, 3, 4, 6, 10, 11, 12, 13, 14, 15, 22, 23, 25, 26, 32, 35, 37, 38, 39,
     41, 42, 44, 46, 48, 49, 51, 52, 53, 54, 55, 57, 60, 61, 62, 63, 64}

  /** `parseFields()`: the constant table of field definitions, 36 entries
      between 2 and 64; there is none for field 1, the bitmap flag. */
  function ParseFields(env: Env): (t: map<int, Field>)
    ensures forall i :: i in t ==> 2 <= i <= 64 && Some(t[i]) == FieldDef(env, i)
    ensures 64 in t && t[64] == Field(env.fixed, None, BINARY, 8)
  {
    map i | 2 <= i <= 64 && FieldDef(env, i).Some? :: FieldDef(env, i).value
  }

  /** The table defines exactly the 36 listed fields. */
  lemma ParseFieldsKeys(env: Env)
    ensures ParseFields(env).Keys == TableKeys
  {
    forall i | i in TableKeys
      ensures i in ParseFields(env)
    {
    }
  }

  // ---------------------------------------------------------------------
  // BytesFields

  /** Slot i takes part in `BytesFields`: its index is at least 2 and its
      value is not nil. */
  predicate Populated(fields: seq<Field>, i: int) {
    2 <= i < |fields| && fields[i].value.Some?
  }

  /** The bytes of the populated slots among the first k, in ascending slot
      order; the first `Bytes()` error among them is the result. */
  function PayloadUpTo(env: Env, fields: seq<Field>, k: nat): Result<seq<byte>>
    requires k <= |fields|
  {
    if k == 0 then Ok([])
    else
      match PayloadUpTo(env, fields, k - 1)
      case Err(e) => Err(e)
      case Ok(p) =>
        if Populated(fields, k - 1) then
          match env.fieldBytes(fields[k - 1])
          case Err(e) => Err(e)
          case Ok(d) => Ok(p + d)
        else Ok(p)
  }

  /** The bytes of all populated slots. */
  function Payload(env: Env, fields: seq<Field>): Result<seq<byte>> {
    PayloadUpTo(env, fields, |fields|)
  }

  /** Once a prefix fails, every longer one fails with the same error. */
  lemma {:induction false} PayloadErrSticks(env: Env, fields: seq<Field>, j: nat, k: nat)
    requires j <= k <= |fields|
    requires PayloadUpTo(env, fields, j).Err?
    ensures PayloadUpTo(env, fields, k) == PayloadUpTo(env, fields, j)
    decreases k - j
  {
    if j < k {
      PayloadErrSticks(env, fields, j, k - 1);
    }
  }

  /** The payload of the first k slots fails exactly when one of their
      populated slots fails to encode. */
  lemma {:induction false} PayloadUpToFails(env: Env, fields: seq<Field>, k: nat)
    requires k <= |fields|
    ensures PayloadUpTo(env, fields, k).Err? <==>
              exists i :: 0 <= i < k && Populated(fields, i) && env.fieldBytes(fields[i]).Err?
  {
    if k > 0 {
      PayloadUpToFails(env, fields, k - 1);
    }
  }

  /** The error is that of the first populated slot that fails. */
  lemma PayloadFirstError(env: Env, fields: seq<Field>, i: nat)
    requires Populated(fields, i) && env.fieldBytes(fields[i]).Err?
    requires forall j :: 0 <= j < i && Populated(fields, j) ==> env.fieldBytes(fields[j]).Ok?
    ensures Payload(env, fields) == Err(env.fieldBytes(fields[i]).error)
  {
    PayloadUpToFails(env, fields, i);
    PayloadErrSticks(env, fields, i + 1, |fields|);
  }

  /** Some slot below j takes part in `BytesFields`. */
  predicate PopulatedBelow(fields: seq<Field>, j: int) {
    exists i :: 0 <= i < j && Populated(fields, i)
  }

  lemma PopulatedBelowStep(fields: seq<Field>, j: int)
    ensures PopulatedBelow(fields, j + 1) <==> (PopulatedBelow(fields, j) || Populated(fields, j))
  {
    if Populated(fields, j) {
      assert 0 <= j < j + 1;
    }
  }

  /** Some slot takes part in `BytesFields`. */
  predicate AnyPopulated(fields: seq<Field>) {
    PopulatedBelow(fields, |fields|)
  }

  /** Bitmap byte `byteIndex` once the first b of its bit positions are done. */
  function PartialByte(any: bool, secondBitmap: bool, byteIndex: int, b: nat): byte
    requires b <= 8
  {
    if any then TopBits(b) else if secondBitmap && byteIndex == 0 && b > 0 then 0x80 else 0
  }

  /** The field data accumulated after n bitmap positions: the payload n times. */
  function Reps(payload: Result<seq<byte>>, n: nat): seq<byte> {
    if payload.Ok? then Repeat(payload.value, n) else []
  }

  /** Byte k of the bitmap `BytesFields` writes. Every populated slot sets the
      bit of every position (the slot loop reuses the name `i`), so one
      populated slot sets all bits; with none, only the secondary-bitmap flag
      can be set. */
  function FinalByte(any: bool, secondBitmap: bool, k: int): byte {
    if any then 0xFF else if secondBitmap && k == 0 then 0x80 else 0
  }

  function BitmapAsWritten(fields: seq<Field>, secondBitmap: bool): (bm: seq<byte>)
    ensures |bm| == ByteNum(secondBitmap)
  {
    seq(ByteNum(secondBitmap), k => FinalByte(AnyPopulated(fields), secondBitmap, k))
  }

  /** n copies of d, one after the other. */
  function Repeat(d: seq<byte>, n: nat): (r: seq<byte>)
    ensures |r| == n * |d|
  {
    if n == 0 then [] else Repeat(d, n - 1) + d
  }

  /** `BytesFields()`: lbcd(Mti), then the bitmap, then the payload once per
      bitmap position; the first field error fails the call. */
  function BytesFieldsSpec(env: Env, mti: GoString, fields: seq<Field>, secondBitmap: bool): Result<seq<byte>> {
    match Payload(env, fields)
    case Err(e) => Err(e)
    case Ok(d) =>
      Ok(env.lbcd(mti) + BitmapAsWritten(fields, secondBitmap) + Repeat(d, 8 * ByteNum(secondBitmap)))
  }

  /** With no populated slot the bitmap holds at most the secondary flag and
      no field data follows. */
  lemma BytesFieldsEmpty(env: Env, mti: GoString, fields: seq<Field>, secondBitmap: bool)
    requires !AnyPopulated(fields)
    ensures BytesFieldsSpec(env, mti, fields, secondBitmap) ==
              Ok(env.lbcd(mti) + ([if secondBitmap then 0x80 else 0] + Zeros(ByteNum(secondBitmap) - 1)))
  {
    PayloadUpToFails(env, fields, |fields|);
    assert Payload(env, fields) == Ok([]) by {
      PayloadNoneEmpty(env, fields, |fields|);
    }
    var bm := BitmapAsWritten(fields, secondBitmap);
    var expected := [if secondBitmap then 0x80 else 0] + Zeros(ByteNum(secondBitmap) - 1);
    assert |bm| == |expected|;
    assert forall k :: 0 <= k < |bm| ==> bm[k] == expected[k];
    assert bm == expected;
    var m := 8 * ByteNum(secondBitmap);
    assert |Repeat([], m)| == m * 0 == 0;
    assert env.lbcd(mti) + expected + Repeat([], m) == env.lbcd(mti) + expected;
  }

  lemma {:induction false} PayloadNoneEmpty(env: Env, fields: seq<Field>, k: nat)
    requires k <= |fields|
    requires forall i :: 0 <= i < k ==> !Populated(fields, i)
    ensures PayloadUpTo(env, fields, k) == Ok([])
  {
    if k > 0 {
      PayloadNoneEmpty(env, fields, k - 1);
    }
  }

  /** With any populated slot every bitmap position is set, so the bitmap
      names every field from 2 up, and the payload is repeated once per
      position: 64 or 128 times. */
  lemma BytesFieldsAnyPopulated(env: Env, mti: GoString, fields: seq<Field>, secondBitmap: bool)
    requires AnyPopulated(fields)
    requires Payload(env, fields).Ok?
    ensures forall k :: 0 <= k < ByteNum(secondBitmap) ==> BitmapAsWritten(fields, secondBitmap)[k] == 0xFF
    ensures forall i :: i in SetIndices(BitmapAsWritten(fields, secondBitmap)) <==>
              2 <= i <= 8 * ByteNum(secondBitmap)
    ensures BytesFieldsSpec(env, mti, fields, secondBitmap) ==
              Ok(env.lbcd(mti) + BitmapAsWritten(fields, secondBitmap) +
                 Repeat(Payload(env, fields).value, 8 * ByteNum(secondBitmap)))
  {
    var bm := BitmapAsWritten(fields, secondBitmap);
    SetIndicesSpec(bm);
    forall pos | 0 <= pos < 8 * ByteNum(secondBitmap)
      ensures BitAt(bm, pos)
    {
      assert bm[pos / 8] == 0xFF;
    }
  }

  // ---------------------------------------------------------------------
  // Bytes and BytesLenHeader

  /** The secure envelope after the TPDU and header bytes: marker 0xE6, the
      string of field 42, the same string again (the code reads field 42 for
      the second copy too), `%04d` of the plain field bytes' length, twelve
      '0' characters and the encrypted field bytes. Indexing field 42 faults
      when there are at most 42 slots; `recover` turns that into an error. */
  function SecureEnvelope(env: Env, prefix: seq<byte>, fields: seq<Field>, fieldsByte: seq<byte>, tdk: GoString)
    : (r: Result<seq<byte>>)
    ensures |fields| <= 42 ==> r == Err(Critical)
    ensures r.Ok? <==> |fields| > 42 && DecodeString(tdk).Ok? && env.encrypt(fieldsByte, DecodeString(tdk).value).Ok?
    ensures r.Ok? ==>
              var c := env.encrypt(fieldsByte, DecodeString(tdk).value).value;
              |r.value| == |prefix| + 1 + 2 * |TextOf(fields[42])| + |Fmt04(|fieldsByte|)| + 12 + |c| &&
              r.value[..|prefix|] == prefix && r.value[|prefix|] == 0xE6 && r.value[|r.value| - |c|..] == c
  {
    if |fields| <= 42 then Err(Critical)
    else
      match DecodeString(tdk)
      case Err(e) => Err(e)
      case Ok(key) =>
        match env.encrypt(fieldsByte, key)
        case Err(e) => Err(e)
        case Ok(c) =>
          Ok(prefix + [0xE6] + TextOf(fields[42]) + TextOf(fields[42]) + Fmt04(|fieldsByte|) + ZeroChars(12) + c)
  }

  /** The header bytes: the TPDU, then the protocol header when it is not empty. */
  function HeaderBytes(env: Env, tpdu: GoString, header: GoString): (r: Result<seq<byte>>)
    ensures r.Ok? <==> EncodeTpdu(env, tpdu).Ok? && (|header| > 0 ==> EncodeHeader(env, header).Ok?)
    ensures EncodeTpdu(env, tpdu).Err? ==> r == Err(EncodeTpdu(env, tpdu).error)
    ensures r.Ok? ==> r.value == env.bcd(tpdu) + (if |header| > 0 then env.bcd(header) else [])
  {
    match EncodeTpdu(env, tpdu)
    case Err(e) => Err(e)
    case Ok(t) =>
      if |header| > 0 then
        match EncodeHeader(env, header)
        case Err(e) => Err(e)
        case Ok(h) => Ok(t + h)
      else Ok(t)
  }

  /** `Bytes(tdk)`: header bytes and field bytes, plain when tdk is empty and
      wrapped in the secure envelope otherwise. */
  function BytesSpec(env: Env, tpdu: GoString, header: GoString, mti: GoString, fields: seq<Field>,
                     secondBitmap: bool, tdk: GoString): Result<seq<byte>>
  {
    match HeaderBytes(env, tpdu, header)
    case Err(e) => Err(e)
    case Ok(prefix) =>
      match BytesFieldsSpec(env, mti, fields, secondBitmap)
      case Err(e) => Err(e)
      case Ok(fieldsByte) =>
        if |tdk| == 0 then Ok(prefix + fieldsByte)
        else SecureEnvelope(env, prefix, fields, fieldsByte, tdk)
  }

  /** Without a key: the message is the TPDU bytes, the header bytes when a
      header is set, and the field bytes; it fails exactly when one of them does. */
  lemma BytesPlain(env: Env, tpdu: GoString, header: GoString, mti: GoString, fields: seq<Field>, secondBitmap: bool)
    ensures BytesSpec(env, tpdu, header, mti, fields, secondBitmap, []).Ok? <==>
              (EncodeTpdu(env, tpdu).Ok? && (|header| == 0 || EncodeHeader(env, header).Ok?) &&
               BytesFieldsSpec(env, mti, fields, secondBitmap).Ok?)
    ensures BytesSpec(env, tpdu, header, mti, fields, secondBitmap, []).Ok? ==>
              BytesSpec(env, tpdu, header, mti, fields, secondBitmap, []).value ==
                env.bcd(tpdu) + (if |header| > 0 then env.bcd(header) else []) +
                BytesFieldsSpec(env, mti, fields, secondBitmap).value
  {
  }

  /** With a key: the envelope follows the header bytes, and the length field
      is the 4-digit decimal length of the plain field bytes. */
  lemma BytesSecure(env: Env, tpdu: GoString, header: GoString, mti: GoString, fields: seq<Field>,
                    secondBitmap: bool, tdk: GoString)
    requires |tdk| > 0
    requires BytesSpec(env, tpdu, header, mti, fields, secondBitmap, tdk).Ok?
    ensures |fields| > 42 && DecodeString(tdk).Ok? && BytesFieldsSpec(env, mti, fields, secondBitmap).Ok?
    ensures var fb := BytesFieldsSpec(env, mti, fields, secondBitmap).value;
            var key := DecodeString(tdk).value;
            env.encrypt(fb, key).Ok? &&
            BytesSpec(env, tpdu, header, mti, fields, secondBitmap, tdk).value ==
              HeaderBytes(env, tpdu, header).value + [0xE6] + TextOf(fields[42]) + TextOf(fields[42]) +
              Fmt04(|fb|) + ZeroChars(12) + env.encrypt(fb, key).value
  {
  }

  /** `BytesLenHeader`: `Int2Byte` of the high length byte, the low byte
      `length & 0xff`, then the message unchanged. */
  function LenHeaderSpec(env: Env, data: seq<byte>): (r: seq<byte>)
    ensures |r| == |env.int2Byte((|data| / 256) % 256)| + 1 + |data|
    ensures r[..|r| - |data| - 1] == env.int2Byte((|data| / 256) % 256)
    ensures r[|r| - |data| - 1] == (|data| % 256) as byte
    ensures r[|r| - |data|..] == data
  {
    env.int2Byte((|data| / 256) % 256) + [(|data| % 256) as byte] + data
  }

  // ---------------------------------------------------------------------
  // Decode and DecodeDes

  /** One visited field: an index missing from the table fails, a cursor past
      the buffer faults, otherwise the cursor moves on by what `load` consumed. */
  function LoadStep(env: Env, table: map<int, Field>, raw: seq<byte>, cursor: int, i: int): Result<int> {
    if i !in table then Err(FieldNotDefined(i))
    else if !(0 <= cursor <= |raw|) then Err(Critical)
    else
      match env.load(table[i], raw[cursor..])
      case Err(e) => Err(FieldLoadFailed(i, e))
      case Ok(l) => Ok(cursor + l)
  }

  /** One position of a walk: an earlier error stays; otherwise field i is
      loaded when `load` holds, and the cursor stays when it does not. */
  function Advance(env: Env, table: map<int, Field>, raw: seq<byte>, r: Result<int>, load: bool, i: int): Result<int> {
    match r
    case Err(e) => Err(e)
    case Ok(c) => if load then LoadStep(env, table, raw, c, i) else Ok(c)
  }

  /** The fields in `indices`, loaded in order from cursor `start`; the result
      is the final cursor or the first error. */
  function LoadAll(env: Env, table: map<int, Field>, raw: seq<byte>, indices: seq<int>, start: int): Result<int>
    decreases |indices|
  {
    if indices == [] then Ok(start)
    else Advance(env, table, raw, LoadAll(env, table, raw, indices[..|indices| - 1], start), true, indices[|indices| - 1])
  }

  lemma LoadAllSnoc(env: Env, table: map<int, Field>, raw: seq<byte>, xs: seq<int>, i: int, start: int)
    ensures LoadAll(env, table, raw, xs + [i], start) == Advance(env, table, raw, LoadAll(env, table, raw, xs, start), true, i)
  {
    assert (xs + [i])[..|xs|] == xs;
  }

  /** Once a prefix fails, the whole walk fails with the same error. */
  lemma {:induction false} LoadAllErrSticks(env: Env, table: map<int, Field>, raw: seq<byte>, xs: seq<int>,
                                            k: nat, start: int)
    requires k <= |xs|
    requires LoadAll(env, table, raw, xs[..k], start).Err?
    ensures LoadAll(env, table, raw, xs, start) == LoadAll(env, table, raw, xs[..k], start)
    decreases |xs| - k
  {
    if k < |xs| {
      assert xs[..k + 1] == xs[..k] + [xs[k]];
      LoadAllSnoc(env, table, raw, xs[..k], xs[k], start);
      LoadAllErrSticks(env, table, raw, xs, k + 1, start);
    } else {
      assert xs[..k] == xs;
    }
  }

  /** Bitmap position of bit `bitIndex` of byte `byteIndex`. */
  function Pos(byteIndex: nat, bitIndex: nat): nat {
    8 * byteIndex + bitIndex
  }

  /** The bitmap loops of `Decode` over the whole bytes before byte
      `byteIndex` and the first `bitIndex` bits of that byte, from cursor
      `start`: field 1 (the secondary-bitmap flag) and clear bits are passed
      over, every other set bit is a `LoadStep`. */
  function WalkTo(env: Env, table: map<int, Field>, raw: seq<byte>, bm: seq<byte>,
                  byteIndex: nat, bitIndex: nat, start: int): Result<int>
    requires bitIndex <= 8 && 8 * byteIndex + bitIndex <= 8 * |bm|
    decreases byteIndex, bitIndex
  {
    if bitIndex == 0 then
      if byteIndex == 0 then Ok(start) else WalkTo(env, table, raw, bm, byteIndex - 1, 8, start)
    else
      var i := Pos(byteIndex, bitIndex);
      Advance(env, table, raw, WalkTo(env, table, raw, bm, byteIndex, bitIndex - 1, start),
              i - 1 != 0 && BitSet(bm[byteIndex], bitIndex - 1), i)
  }

  /** Within a byte, once the walk fails it keeps the same error. */
  lemma {:induction false} WalkToErrSticksBits(env: Env, table: map<int, Field>, raw: seq<byte>, bm: seq<byte>,
                                               byteIndex: nat, b: nat, c: nat, start: int, e: Error)
    requires b <= c <= 8 && byteIndex < |bm|
    requires WalkTo(env, table, raw, bm, byteIndex, b, start) == Err(e)
    ensures WalkTo(env, table, raw, bm, byteIndex, c, start) == Err(e)
    decreases c - b
  {
    if b < c {
      WalkToErrSticksBits(env, table, raw, bm, byteIndex, b, c - 1, start, e);
    }
  }

  /** Once the walk over the first bytes fails, the walk over all of them
      fails with the same error. */
  lemma {:induction false} WalkToErrSticks(env: Env, table: map<int, Field>, raw: seq<byte>, bm: seq<byte>,
                                           byteIndex: nat, start: int, e: Error)
    requires byteIndex <= |bm|
    requires WalkTo(env, table, raw, bm, byteIndex, 0, start) == Err(e)
    ensures WalkTo(env, table, raw, bm, |bm|, 0, start) == Err(e)
    decreases |bm| - byteIndex
  {
    if byteIndex < |bm| {
      WalkToErrSticksBits(env, table, raw, bm, byteIndex, 0, 8, start, e);
      WalkToErrSticks(env, table, raw, bm, byteIndex + 1, start, e);
    }
  }

  /** The walk is loading, in order, the fields the bitmap names among its
      first `8 * byteIndex + bitIndex` positions. */
  lemma {:induction false} WalkToIsLoadAll(env: Env, table: map<int, Field>, raw: seq<byte>, bm: seq<byte>,
                                           byteIndex: nat, bitIndex: nat, start: int)
    requires bitIndex <= 8 && Pos(byteIndex, bitIndex) <= 8 * |bm|
    ensures WalkTo(env, table, raw, bm, byteIndex, bitIndex, start) ==
              LoadAll(env, table, raw, SetIndicesUpTo(bm, Pos(byteIndex, bitIndex)), start)
    decreases byteIndex, bitIndex
  {
    if bitIndex == 0 {
      if byteIndex > 0 {
        WalkToIsLoadAll(env, table, raw, bm, byteIndex - 1, 8, start);
        WalkToByteStart(env, table, raw, bm, byteIndex, start);
      }
    } else {
      WalkToIsLoadAll(env, table, raw, bm, byteIndex, bitIndex - 1, start);
      WalkToBitStep(env, table, raw, bm, byteIndex, bitIndex, start);
    }
  }

  /** The whole walk loads, in order, the fields the whole bitmap names. */
  lemma WalkIsLoadAll(env: Env, table: map<int, Field>, raw: seq<byte>, bm: seq<byte>, start: int)
    ensures WalkTo(env, table, raw, bm, |bm|, 0, start) == LoadAll(env, table, raw, SetIndices(bm), start)
  {
    WalkToIsLoadAll(env, table, raw, bm, |bm|, 0, start);
    assert Pos(|bm|, 0) == 8 * |bm|;
  }

  /** The start of a byte is the end of the byte before it. */
  lemma WalkToByteStart(env: Env, table: map<int, Field>, raw: seq<byte>, bm: seq<byte>, byteIndex: nat, start: int)
    requires 0 < byteIndex && Pos(byteIndex, 0) <= 8 * |bm|
    ensures Pos(byteIndex - 1, 8) == Pos(byteIndex, 0)
    ensures WalkTo(env, table, raw, bm, byteIndex, 0, start) == WalkTo(env, table, raw, bm, byteIndex - 1, 8, start)
  {
  }

  /** One bit of the walk is one position of `SetIndicesUpTo`. */
  lemma WalkToBitStep(env: Env, table: map<int, Field>, raw: seq<byte>, bm: seq<byte>,
                      byteIndex: nat, bitIndex: nat, start: int)
    requires 0 < bitIndex <= 8 && Pos(byteIndex, bitIndex) <= 8 * |bm|
    requires WalkTo(env, table, raw, bm, byteIndex, bitIndex - 1, start) ==
               LoadAll(env, table, raw, SetIndicesUpTo(bm, Pos(byteIndex, bitIndex - 1)), start)
    ensures WalkTo(env, table, raw, bm, byteIndex, bitIndex, start) ==
              LoadAll(env, table, raw, SetIndicesUpTo(bm, Pos(byteIndex, bitIndex)), start)
  {
    var p := Pos(byteIndex, bitIndex);
    assert Pos(byteIndex, bitIndex - 1) == p - 1;
    WalkToUnfold(env, table, raw, bm, byteIndex, bitIndex, start);
    LoadAllStep(env, table, raw, bm, p, start);
  }

  /** One bit of the walk is one `Advance` at its position. */
  lemma WalkToUnfold(env: Env, table: map<int, Field>, raw: seq<byte>, bm: seq<byte>,
                     byteIndex: nat, bitIndex: nat, start: int)
    requires 0 < bitIndex <= 8 && Pos(byteIndex, bitIndex) <= 8 * |bm|
    ensures var p := Pos(byteIndex, bitIndex);
            WalkTo(env, table, raw, bm, byteIndex, bitIndex, start) ==
              Advance(env, table, raw, WalkTo(env, table, raw, bm, byteIndex, bitIndex - 1, start),
                      p - 1 != 0 && BitAt(bm, p - 1), p)
  {
    BitAtPos(bm, byteIndex, bitIndex - 1);
    assert Pos(byteIndex, bitIndex - 1) == Pos(byteIndex, bitIndex) - 1;
  }

  /** One more bitmap position is one `Advance` of the field loads. */
  lemma LoadAllStep(env: Env, table: map<int, Field>, raw: seq<byte>, bm: seq<byte>, p: nat, start: int)
    requires 0 < p <= 8 * |bm|
    ensures LoadAll(env, table, raw, SetIndicesUpTo(bm, p), start) ==
              Advance(env, table, raw, LoadAll(env, table, raw, SetIndicesUpTo(bm, p - 1), start),
                      p - 1 != 0 && BitAt(bm, p - 1), p)
  {
    var prev := SetIndicesUpTo(bm, p - 1);
    if p - 1 != 0 && BitAt(bm, p - 1) {
      assert SetIndicesUpTo(bm, p) == prev + [p];
      LoadAllSnoc(env, table, raw, prev, p, start);
    } else {
      assert SetIndicesUpTo(bm, p) == prev;
    }
  }

  /** The bit at a position is the bit of its byte. */
  lemma BitAtPos(bm: seq<byte>, byteIndex: nat, bitIndex: nat)
    requires bitIndex < 8 && Pos(byteIndex, bitIndex) < 8 * |bm|
    ensures BitAt(bm, Pos(byteIndex, bitIndex)) == BitSet(bm[byteIndex], bitIndex)
  {
    PositionSplit(byteIndex, bitIndex);
  }

  lemma LoadAllUndefined(env: Env, table: map<int, Field>, raw: seq<byte>, xs: seq<int>, k: nat, start: int)
    requires k < |xs| && xs[k] !in table
    requires LoadAll(env, table, raw, xs[..k], start).Ok?
    ensures LoadAll(env, table, raw, xs, start) == Err(FieldNotDefined(xs[k]))
  {
    assert xs[..k + 1] == xs[..k] + [xs[k]];
    LoadAllSnoc(env, table, raw, xs[..k], xs[k], start);
    LoadAllErrSticks(env, table, raw, xs, k + 1, start);
  }

  /** A walk over a list holding any index missing from the table fails. */
  lemma {:induction false} LoadAllFailsIfUndefined(env: Env, table: map<int, Field>, raw: seq<byte>,
                                                   xs: seq<int>, start: int)
    requires exists k :: 0 <= k < |xs| && xs[k] !in table
    ensures LoadAll(env, table, raw, xs, start).Err?
    decreases |xs|
  {
    var k :| 0 <= k < |xs| && xs[k] !in table;
    if LoadAll(env, table, raw, xs[..k], start).Ok? {
      LoadAllUndefined(env, table, raw, xs, k, start);
    } else {
      LoadAllErrSticks(env, table, raw, xs, k, start);
    }
  }

  /** What `Decode` yields: the three header strings, the bitmap as hex and
      the secondary-bitmap flag. `Decode` never fills `Fields`. */
  datatype Decoded = Decoded(tpdu: GoString, header: GoString, mti: GoString, bitmap: GoString, secondBitmap: bool)

  /** `Decode(raw)`: TPDU, header and MTI from raw[0:5], raw[5:11] and
      raw[11:13]; the `Bitmap` string from raw[13:21]; but the bitmap that is
      walked starts at offset 21 (16 bytes when raw[21] has bit 0x80), and the
      fields from just after it. `spare` is the rest of raw's backing array,
      from its length up to its capacity. The index raw[21] and the one-index
      slices raw[start:] handed to `load` are bounded by the length, but the
      two-index slice raw[21:21+byteNum] is bounded by the capacity, so the
      walked bitmap may reach into `spare`. A fault is turned into an error
      by `recover`. */
  function DecodeSpec(env: Env, raw: seq<byte>, spare: seq<byte>): Result<Decoded> {
    if |raw| < 22 then Err(Critical)
    else
      var second := raw[21] & 0x80 == 0x80;
      var byteNum := ByteNum(second);
      if |raw| + |spare| < 21 + byteNum then Err(Critical)
      else
        match LoadAll(env, ParseFields(env), raw, SetIndices((raw + spare)[21..21 + byteNum]), 21 + byteNum)
        case Err(e) => Err(e)
        case Ok(_) =>
          Ok(Decoded(env.bcd2Ascii(raw[..5]), env.bcd2Ascii(raw[5..11]), env.bcd2Ascii(raw[11..13]),
                     EncodeToString(raw[13..21]), second))
  }

  /** Once the walked bitmap lies within the length, the spare capacity is
      never read. */
  lemma DecodeSpareUnused(env: Env, raw: seq<byte>, spare: seq<byte>)
    requires |raw| >= 37
    ensures DecodeSpec(env, raw, spare) == DecodeSpec(env, raw, [])
  {
    assert (raw + spare)[21..37] == raw[21..37] == (raw + [])[21..37];
    assert (raw + spare)[21..29] == raw[21..29] == (raw + [])[21..29];
  }

  /** The field indices `Decode` visits, in order. */
  function WalkedIndices(raw: seq<byte>, spare: seq<byte>): seq<int>
    requires |raw| >= 22 && |raw| + |spare| >= 21 + ByteNum(raw[21] & 0x80 == 0x80)
  {
    SetIndices((raw + spare)[21..21 + ByteNum(raw[21] & 0x80 == 0x80)])
  }

  /** Decoding fails whenever the walked bitmap names a field missing from the
      table, such as 5, 99 or any field above 64. */
  lemma DecodeRejectsUndefined(env: Env, raw: seq<byte>, spare: seq<byte>, i: int)
    requires |raw| >= 22 && |raw| + |spare| >= 21 + ByteNum(raw[21] & 0x80 == 0x80)
    requires i in WalkedIndices(raw, spare) && i !in ParseFields(env)
    ensures DecodeSpec(env, raw, spare).Err?
  {
    var xs := WalkedIndices(raw, spare);
    var k :| 0 <= k < |xs| && xs[k] == i;
    LoadAllFailsIfUndefined(env, ParseFields(env), raw, xs, 21 + ByteNum(raw[21] & 0x80 == 0x80));
  }

  /** In particular, a raw message whose walked bitmap is 16 bytes and sets
      any bit of its second half never decodes. */
  lemma DecodeRejectsSecondaryFields(env: Env, raw: seq<byte>, spare: seq<byte>, pos: nat)
    requires |raw| >= 22 && |raw| + |spare| >= 37 && raw[21] & 0x80 == 0x80
    requires 64 <= pos < 128 && BitAt((raw + spare)[21..37], pos)
    ensures DecodeSpec(env, raw, spare).Err?
  {
    SetIndicesSpec((raw + spare)[21..37]);
    DecodeRejectsUndefined(env, raw, spare, pos + 1);
  }

  /** The three `decodeMti` calls of `Decode` never fail: their slices have
      exactly the lengths asked for. */
  lemma DecodeHeaderSlices(env: Env, raw: seq<byte>)
    requires |raw| >= 13
    ensures DecodeMti(env, raw[..5], BCD, 10) == Ok(env.bcd2Ascii(raw[..5]))
    ensures DecodeMti(env, raw[5..11], BCD, 12) == Ok(env.bcd2Ascii(raw[5..11]))
    ensures DecodeMti(env, raw[11..13], BCD, 4) == Ok(env.bcd2Ascii(raw[11..13]))
  {
    assert raw[..5][..5] == raw[..5];
    assert raw[5..11][..6] == raw[5..11];
    assert raw[11..13][..2] == raw[11..13];
  }

  /** `minSize`: 10/2 + 10%2 + 12/2 + 12%2 + 1/2 + 1 + 39. */
  const MinSize: nat := 10 / 2 + 10 % 2 + 12 / 2 + 12 % 2 + 1 / 2 + 1 + 39

  lemma MinSizeValue()
    ensures MinSize == 51
  {
  }

  /** The spare capacity of `append(raw[:keep], x...)` for `added` bytes of
      x: when they fit in raw's capacity, append writes them into raw's
      backing array, and the result keeps the rest of that array; otherwise
      it copies into a new array, whose spare bytes are not represented. */
  function AppendedSpare(raw: seq<byte>, spare: seq<byte>, keep: nat, added: nat): (s: seq<byte>)
    requires keep <= |raw|
    ensures keep + added <= |raw| + |spare| ==> keep + added + |s| == |raw| + |spare|
    ensures keep + added > |raw| + |spare| ==> s == []
  {
    if keep + added <= |raw| + |spare| then (raw + spare)[keep + added..] else []
  }

  /** `DecodeDes(raw, tdk)`: checks, then the encryption routine over
      raw[51:], spliced after raw[:11], and `Decode` of the result with the
      spare capacity that append leaves it. Slicing raw[51:] is not
      recovered, so callers must pass at least 51 bytes whenever the checks
      pass. */
  function DecodeDesSpec(env: Env, raw: seq<byte>, spare: seq<byte>, tdk: GoString): Result<Decoded>
    requires |raw| > 0 && |tdk| > 0 && DecodeString(tdk).Ok? ==> |raw| >= MinSize
  {
    if |raw| == 0 then Err(BufSizeNotEnough)
    else if |tdk| == 0 then Err(MissingCalculator)
    else
      match DecodeString(tdk)
      case Err(e) => Err(e)
      case Ok(key) =>
        match env.encrypt(raw[MinSize..], key)
        case Err(e) => Err(e)
        case Ok(c) =>
          DecodeSpec(env, raw[..MinSize - 1 - 39] + c, AppendedSpare(raw, spare, MinSize - 1 - 39, |c|))
  }

  /** A new array from append is longer than raw's whole capacity, so the
      spare bytes it would carry are never read. */
  lemma AppendedSpareUnused(env: Env, raw: seq<byte>, spare: seq<byte>, c: seq<byte>, other: seq<byte>)
    requires |raw| >= MinSize && 11 + |c| > |raw| + |spare|
    ensures DecodeSpec(env, raw[..11] + c, AppendedSpare(raw, spare, 11, |c|)) ==
              DecodeSpec(env, raw[..11] + c, other)
  {
    DecodeSpareUnused(env, raw[..11] + c, other);
    DecodeSpareUnused(env, raw[..11] + c, []);
  }

  /** A walked 8-byte bitmap that names no field decodes. */
  lemma DecodeNoFields(env: Env, raw: seq<byte>, spare: seq<byte>)
    requires |raw| >= 22 && raw[21] & 0x80 != 0x80 && |raw| + |spare| >= 29
    requires SetIndices((raw + spare)[21..29]) == []
    ensures DecodeSpec(env, raw, spare).Ok?
  {
  }

  /** The bitmap `Decode` walks after a 16-byte zero cipher output: the six
      zero bytes at 21 to 26 and raw's own bytes 27 and 28. */
  lemma OldBytesBitmap(raw: seq<byte>, spare: seq<byte>)
    requires |raw| >= MinSize && raw[27] == 0 && raw[28] == 0
    ensures var data := raw[..11] + Zeros(16);
            var sp := AppendedSpare(raw, spare, 11, 16);
            |data| == 27 && data[21] == 0 && |data| + |sp| >= 29 &&
            SetIndices((data + sp)[21..29]) == []
  {
    var data := raw[..11] + Zeros(16);
    var sp := AppendedSpare(raw, spare, 11, 16);
    assert sp == (raw + spare)[27..];
    var bm := (data + sp)[21..29];
    assert sp[0] == raw[27] && sp[1] == raw[28];
    assert bm[6] == sp[0] && bm[7] == sp[1];
    assert forall k :: 0 <= k < 6 ==> bm[k] == data[21 + k] == 0;
    NoneInZeros(bm, 64);
  }

  /** A cipher output of 16 bytes makes `Decode` walk a bitmap that runs past
      the decrypted data into raw's own bytes 27 to 28, which append has left
      in place: with those zero, decoding succeeds. */
  lemma DecodeDesReadsOldBytes(env: Env, raw: seq<byte>, spare: seq<byte>, tdk: GoString)
    requires |raw| >= MinSize && |tdk| > 0 && DecodeString(tdk).Ok?
    requires env.encrypt(raw[MinSize..], DecodeString(tdk).value) == Ok(Zeros(16))
    requires raw[27] == 0 && raw[28] == 0
    ensures DecodeDesSpec(env, raw, spare, tdk).Ok?
  {
    var data := raw[..11] + Zeros(16);
    var sp := AppendedSpare(raw, spare, 11, 16);
    var key := DecodeString(tdk).value;
    MinSizeValue();
    OldBytesBitmap(raw, spare);
    DecodeNoFields(env, data, sp);
    assert DecodeString(tdk) == Ok(key);
    assert DecodeDesSpec(env, raw, spare, tdk) ==
             match env.encrypt(raw[MinSize..], key)
             case Err(e) => Err(e)
             case Ok(c) => DecodeSpec(env, raw[..MinSize - 1 - 39] + c, AppendedSpare(raw, spare, MinSize - 1 - 39, |c|));
  }
}
