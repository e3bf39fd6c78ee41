/** j8583/message.go: the `Message` object, its encoders and the decoders.
    Each method runs the loops and appends of the code and is proved to
    compute the matching function of module `Framing`. */
module J8583 {
  import opened Base
  import opened Utils
  import opened GoStd
  import opened IsoField
  import opened Collaborators
  import opened Bitmap
  import opened Framing

  class Message {
    var tpdu: GoString
    var header: GoString
    var mti: GoString
    var bitmap: GoString
    var fields: seq<Field>
    var secondBitmap: bool

    constructor (tpdu: GoString, header: GoString, mti: GoString, bitmap: GoString,
                 fields: seq<Field>, secondBitmap: bool)
      ensures this.tpdu == tpdu && this.header == header && this.mti == mti
      ensures this.bitmap == bitmap && this.fields == fields && this.secondBitmap == secondBitmap
    {
      this.tpdu := tpdu;
      this.header := header;
      this.mti := mti;
      this.bitmap := bitmap;
      this.fields := fields;
      this.secondBitmap := secondBitmap;
    }

    /** `fieldLength()`: the highest addressable slot, 64, or 128 with the
        secondary bitmap. */
    function FieldLength(): (n: int)
      reads this
      ensures n == 64 || n == 128
      ensures n == 128 <==> secondBitmap
    {
      if secondBitmap then 128 else 64
    }

    /** The slot list holds every addressable slot, so that `m.Fields[i]`
        does not fault for 1 <= i <= fieldLength(). */
    predicate Addressable(i: int)
      reads this
    {
      1 <= i <= FieldLength() ==> i < |fields|
    }

    /** `getField(i)`: out of range, the zero field. */
    function GetField(i: int): (f: Field)
      reads this
      requires Addressable(i)
      ensures (i < 1 || i > FieldLength()) ==> f == ZeroField
      ensures 1 <= i <= FieldLength() ==> f == fields[i]
    {
      if i < 1 || i > FieldLength() then ZeroField else fields[i]
    }

    /** `getFieldValue(i)`: the value of `getField(i)`, nil out of range. */
    function GetFieldValue(i: int): (v: Option<Value>)
      reads this
      requires Addressable(i)
      ensures v == GetField(i).value
      ensures (i < 1 || i > FieldLength()) ==> v.None?
    {
      if i < 1 || i > FieldLength() then None else fields[i].value
    }

    /** `SetField(i, field)`: an index out of range changes nothing; otherwise
        slot i, and only slot i, becomes `field`, so `getField(i)` reads it back. */
    method SetField(i: int, field: Field)
      requires Addressable(i)
      modifies this
      ensures tpdu == old(tpdu) && header == old(header) && mti == old(mti)
      ensures bitmap == old(bitmap) && secondBitmap == old(secondBitmap)
      ensures |fields| == old(|fields|)
      ensures (i < 1 || i > FieldLength()) ==> fields == old(fields)
      ensures 1 <= i <= FieldLength() ==> GetField(i) == field
      ensures forall j :: 0 <= j < |fields| && j != i ==> fields[j] == old(fields[j])
    {
      if i < 1 || i > FieldLength() {
        return;
      }
      fields := fields[i := field];
    }

    /** `BytesFields()`: the MTI, the bitmap and the field data, built by the
        nested bitmap loops of the code. */
    method BytesFields(env: Env) returns (r: Result<seq<byte>>)
      ensures r == BytesFieldsSpec(env, mti, fields, secondBitmap)
    {
      var mtiBytes := env.lbcd(mti);
      var byteNum := 8;
      if secondBitmap {
        byteNum := 16;
      }
      var bm := new byte[byteNum](_ => 0);
      var data: seq<byte> := [];
      var byteIndex := 0;
      while byteIndex < byteNum
        invariant 0 <= byteIndex <= byteNum && byteNum == ByteNum(secondBitmap) == bm.Length
        invariant forall k :: 0 <= k < byteIndex ==> bm[k] == FinalByte(AnyPopulated(fields), secondBitmap, k)
        invariant forall k :: byteIndex <= k < byteNum ==> bm[k] == 0
        invariant data == Reps(Payload(env, fields), 8 * byteIndex)
        invariant byteIndex > 0 ==> Payload(env, fields).Ok?
      {
        var next := FillByte(env, bm, byteIndex, data);
        if next.Err? {
          return next;
        }
        data := next.value;
        byteIndex := byteIndex + 1;
      }
      assert bm[..] == BitmapAsWritten(fields, secondBitmap);
      r := Ok(mtiBytes + bm[..] + data);
    }

    /** The eight bit positions of bitmap byte `byteIndex`: the secondary
        flag at position 0, then for every position a pass over the slots. */
    method FillByte(env: Env, bm: array<byte>, byteIndex: nat, data: seq<byte>) returns (r: Result<seq<byte>>)
      requires byteIndex < bm.Length && bm[byteIndex] == 0
      requires data == Reps(Payload(env, fields), 8 * byteIndex)
      modifies bm
      ensures forall k :: 0 <= k < bm.Length && k != byteIndex ==> bm[k] == old(bm[k])
      ensures Payload(env, fields).Err? ==> r == Payload(env, fields)
      ensures Payload(env, fields).Ok? ==> r == Ok(Reps(Payload(env, fields), 8 * byteIndex + 8))
      ensures r.Ok? ==> bm[byteIndex] == FinalByte(AnyPopulated(fields), secondBitmap, byteIndex)
    {
      ghost var payload := Payload(env, fields);
      var acc := data;
      var bitIndex := 0;
      while bitIndex < 8
        invariant 0 <= bitIndex <= 8
        invariant forall k :: 0 <= k < bm.Length && k != byteIndex ==> bm[k] == old(bm[k])
        invariant bm[byteIndex] == PartialByte(AnyPopulated(fields), secondBitmap, byteIndex, bitIndex)
        invariant acc == Reps(payload, 8 * byteIndex + bitIndex)
        invariant bitIndex > 0 ==> payload.Ok?
      {
        var i := byteIndex * 8 + bitIndex + 1;
        if secondBitmap && i == 1 {
          bm[byteIndex] := SetBit(bm[byteIndex], bitIndex);
        }
        var next := CollectSlots(env, bm, byteIndex, bitIndex, acc);
        if next.Err? {
          return next;
        }
        acc := next.value;
        bitIndex := bitIndex + 1;
      }
      TopBitsFull();
      return Ok(acc);
    }

    /** The slot loop at one bit position: every populated slot sets the bit
        of that position and appends its bytes; the first failure ends it. */
    method CollectSlots(env: Env, bm: array<byte>, byteIndex: nat, bitIndex: nat, data: seq<byte>)
      returns (r: Result<seq<byte>>)
      requires byteIndex < bm.Length && bitIndex < 8
      modifies bm
      ensures forall k :: 0 <= k < bm.Length && k != byteIndex ==> bm[k] == old(bm[k])
      ensures Payload(env, fields).Err? ==> r == Payload(env, fields)
      ensures Payload(env, fields).Ok? ==> r == Ok(data + Payload(env, fields).value)
      ensures r.Ok? ==> bm[byteIndex] == if AnyPopulated(fields) then SetBit(old(bm[byteIndex]), bitIndex) else old(bm[byteIndex])
    {
      var fs := fields;
      ghost var b0 := bm[byteIndex];
      ghost var seen := false;
      var acc := data;
      var slot := 0;
      while slot < |fs|
        invariant 0 <= slot <= |fs|
        invariant forall k :: 0 <= k < bm.Length && k != byteIndex ==> bm[k] == old(bm[k])
        invariant seen == PopulatedBelow(fs, slot)
        invariant bm[byteIndex] == if seen then SetBit(b0, bitIndex) else b0
        invariant PayloadUpTo(env, fs, slot).Ok?
        invariant acc == data + PayloadUpTo(env, fs, slot).value
      {
        PopulatedBelowStep(fs, slot);
        var f := fs[slot];
        if 2 <= slot && f.value.Some? {
          SetBitTwice(b0, bitIndex);
          bm[byteIndex] := SetBit(bm[byteIndex], bitIndex);
          seen := true;
          var d := env.fieldBytes(f);
          if d.Err? {
            PayloadErrSticks(env, fs, slot + 1, |fs|);
            return Err(d.error);
          }
          AppendAssoc(data, PayloadUpTo(env, fs, slot).value, d.value);
          acc := acc + d.value;
        }
        slot := slot + 1;
      }
      return Ok(acc);
    }

    /** `Bytes(tdk)`: the TPDU, the header when set, the field bytes, and with
        a key the secure envelope around the encrypted field bytes. */
    method Bytes(env: Env, tdk: GoString) returns (r: Result<seq<byte>>)
      ensures r == BytesSpec(env, tpdu, header, mti, fields, secondBitmap, tdk)
    {
      var ret: seq<byte> := [];
      var tpduBytes := EncodeTpdu(env, tpdu);
      if tpduBytes.Err? {
        return Err(tpduBytes.error);
      }
      ret := ret + tpduBytes.value;
      if |header| > 0 {
        var headerBytes := EncodeHeader(env, header);
        if headerBytes.Err? {
          return Err(headerBytes.error);
        }
        ret := ret + headerBytes.value;
      }
      assert ret == HeaderBytes(env, tpdu, header).value;
      var fieldsByte := BytesFields(env);
      if fieldsByte.Err? {
        return Err(fieldsByte.error);
      }
      if |tdk| == 0 {
        return Ok(ret + fieldsByte.value);
      }
      ret := ret + [0xE6];
      if |fields| <= 42 {
        // `m.Fields[42]` faults; the deferred recover reports it
        return Err(Critical);
      }
      ret := ret + TextOf(fields[42]);
      ret := ret + TextOf(fields[42]);
      ret := ret + Fmt04(|fieldsByte.value|);
      ret := ret + ZeroChars(12);
      var key := DecodeString(tdk);
      if key.Err? {
        return Err(key.error);
      }
      var encrypted := env.encrypt(fieldsByte.value, key.value);
      if encrypted.Err? {
        return Err(encrypted.error);
      }
      return Ok(ret + encrypted.value);
    }

    /** `BytesLenHeader(tdk)`: `Bytes(tdk)` behind its two length bytes. */
    method BytesLenHeader(env: Env, tdk: GoString) returns (r: Result<seq<byte>>)
      ensures BytesSpec(env, tpdu, header, mti, fields, secondBitmap, tdk).Err? ==>
                r == Err(BytesSpec(env, tpdu, header, mti, fields, secondBitmap, tdk).error)
      ensures BytesSpec(env, tpdu, header, mti, fields, secondBitmap, tdk).Ok? ==>
                r == Ok(LenHeaderSpec(env, BytesSpec(env, tpdu, header, mti, fields, secondBitmap, tdk).value))
    {
      var data := Bytes(env, tdk);
      if data.Err? {
        return Err(data.error);
      }
      var length := |data.value|;
      var buf := env.int2Byte((length / 256) % 256);
      buf := buf + [(length % 256) as byte];
      buf := buf + data.value;
      return Ok(buf);
    }

    /** The message `Decode` builds from a decoded header; `Fields` stays nil. */
    predicate Holds(d: Decoded)
      reads this
    {
      tpdu == d.tpdu && header == d.header && mti == d.mti && bitmap == d.bitmap &&
      secondBitmap == d.secondBitmap && fields == []
    }
  }

  /** The two bitmap loops of `Decode`: every set bit but the first names a
      field, which must be in the table and is loaded at the cursor. */
  method WalkFields(env: Env, table: map<int, Field>, raw: seq<byte>, bitByte: seq<byte>, start: int)
    returns (r: Result<int>)
    ensures r == LoadAll(env, table, raw, SetIndices(bitByte), start)
  {
    WalkIsLoadAll(env, table, raw, bitByte, start);
    var cursor := start;
    var byteIndex := 0;
    while byteIndex < |bitByte|
      invariant 0 <= byteIndex <= |bitByte|
      invariant WalkTo(env, table, raw, bitByte, byteIndex, 0, start) == Ok(cursor)
    {
      var next := WalkByte(env, table, raw, bitByte, byteIndex, start, cursor);
      if next.Err? {
        WalkToErrSticks(env, table, raw, bitByte, byteIndex + 1, start, next.error);
        return next;
      }
      cursor := next.value;
      byteIndex := byteIndex + 1;
    }
    return Ok(cursor);
  }

  /** The inner bitmap loop of `Decode`, over the eight bits of one byte. */
  method WalkByte(env: Env, table: map<int, Field>, raw: seq<byte>, bitByte: seq<byte>,
                  byteIndex: nat, start: int, cursor: int) returns (r: Result<int>)
    requires byteIndex < |bitByte|
    requires WalkTo(env, table, raw, bitByte, byteIndex, 0, start) == Ok(cursor)
    ensures r == WalkTo(env, table, raw, bitByte, byteIndex, 8, start)
  {
    var at := cursor;
    var bitIndex := 0;
    while bitIndex < 8
      invariant 0 <= bitIndex <= 8
      invariant WalkTo(env, table, raw, bitByte, byteIndex, bitIndex, start) == Ok(at)
    {
      var step := VisitBit(env, table, raw, bitByte, byteIndex, bitIndex, start, at);
      if step.Err? {
        WalkToErrSticksBits(env, table, raw, bitByte, byteIndex, bitIndex + 1, 8, start, step.error);
        return step;
      }
      at := step.value;
      bitIndex := bitIndex + 1;
    }
    return Ok(at);
  }

  /** One pass of the inner bitmap loop of `Decode`: a clear bit, and the bit
      of field 1, leave the cursor alone; a set bit loads its field. */
  method VisitBit(env: Env, table: map<int, Field>, raw: seq<byte>, bitByte: seq<byte>,
                  byteIndex: nat, bitIndex: nat, start: int, cursor: int) returns (r: Result<int>)
    requires byteIndex < |bitByte| && bitIndex < 8
    requires WalkTo(env, table, raw, bitByte, byteIndex, bitIndex, start) == Ok(cursor)
    ensures r == WalkTo(env, table, raw, bitByte, byteIndex, bitIndex + 1, start)
  {
    var i := byteIndex * 8 + bitIndex + 1;
    if !BitSet(bitByte[byteIndex], bitIndex) || i == 1 {
      return Ok(cursor);
    }
    if i !in table {
      return Err(FieldNotDefined(i));
    }
    if !(0 <= cursor <= |raw|) {
      // `raw[start:]` faults; the deferred recover reports it
      return Err(Critical);
    }
    var l := env.load(table[i], raw[cursor..]);
    if l.Err? {
      return Err(FieldLoadFailed(i, l.error));
    }
    return Ok(cursor + l.value);
  }

  /** `Decode(raw)`: a new message with the decoded header, or the error of
      the field walk; a buffer too short for a slice is reported as the
      recovered fault. `spare` is the rest of raw's backing array, which the
      two-index slice of the bitmap may read. */
  method Decode(env: Env, raw: seq<byte>, spare: seq<byte>) returns (r: Result<Message>)
    ensures r.Err? <==> DecodeSpec(env, raw, spare).Err?
    ensures r.Err? ==> r.error == DecodeSpec(env, raw, spare).error
    ensures r.Ok? ==> fresh(r.value) && r.value.Holds(DecodeSpec(env, raw, spare).value)
  {
    if |raw| < 22 {
      return Err(Critical);
    }
    DecodeHeaderSlices(env, raw);
    var tpdu := DecodeMti(env, raw[..5], BCD, 10);
    var isoHeader := DecodeMti(env, raw[5..11], BCD, 12);
    var mti := DecodeMti(env, raw[11..13], BCD, 4);
    var bitmap := EncodeToString(raw[13..21]);
    var m := new Message(tpdu.value, isoHeader.value, mti.value, bitmap, [], false);
    var table := ParseFields(env);
    var byteNum := 8;
    var start := 21;
    if raw[start] & 0x80 == 0x80 {
      m.secondBitmap := true;
      byteNum := 16;
    }
    if |raw| + |spare| < start + byteNum {
      // beyond the capacity: the slice faults
      return Err(Critical);
    }
    var bitByte := (raw + spare)[start..start + byteNum];
    start := start + byteNum;
    var walk := WalkFields(env, table, raw, bitByte, start);
    if walk.Err? {
      return Err(walk.error);
    }
    return Ok(m);
  }

  /** `DecodeDes(raw, tdk)`: the checks, the cipher over raw[51:], and
      `Decode` of raw[:11] followed by its output. `spare` is the rest of
      raw's backing array; append keeps that array when the output fits. */
  method DecodeDes(env: Env, raw: seq<byte>, spare: seq<byte>, tdk: GoString) returns (r: Result<Message>)
    requires |raw| > 0 && |tdk| > 0 && DecodeString(tdk).Ok? ==> |raw| >= MinSize
    ensures r.Err? <==> DecodeDesSpec(env, raw, spare, tdk).Err?
    ensures r.Err? ==> r.error == DecodeDesSpec(env, raw, spare, tdk).error
    ensures r.Ok? ==> fresh(r.value) && r.value.Holds(DecodeDesSpec(env, raw, spare, tdk).value)
  {
    var minSize := 10 / 2 + 10 % 2 + 12 / 2 + 12 % 2 + 1 / 2 + 1 + 39;
    MinSizeValue();
    if |raw| <= 0 {
      return Err(BufSizeNotEnough);
    }
    if |tdk| <= 0 {
      return Err(MissingCalculator);
    }
    var key := DecodeString(tdk);
    if key.Err? {
      return Err(key.error);
    }
    var encrypted := env.encrypt(raw[minSize..], key.value);
    if encrypted.Err? {
      return Err(encrypted.error);
    }
    var keep := minSize - 1 - 39;
    var data := raw[..keep] + encrypted.value;
    var dataSpare := [];
    if keep + |encrypted.value| <= |raw| + |spare| {
      // append writes into raw's backing array and keeps its capacity
      dataSpare := (raw + spare)[keep + |encrypted.value|..];
    }
    assert dataSpare == AppendedSpare(raw, spare, keep, |encrypted.value|);
    assert DecodeDesSpec(env, raw, spare, tdk) == DecodeSpec(env, data, dataSpare);
    r := Decode(env, data, dataSpare);
  }
}
