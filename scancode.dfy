/** main.go: building the scan-code payment request (`buildSCanCodeMessage`)
    with its fields 57 and 64 (`buildField57`, `buildField64`). */
module ScanCode {
  import opened Base
  import opened Utils
  import opened GoStd
  import opened IsoField
  import opened Collaborators
  import opened Framing
  import opened Mac
  import opened J8583

  /** "UPLDC2", the tag in front of the order number in field 57. */
  const Upldc2: GoString := [0x55, 0x50, 0x4C, 0x44, 0x43, 0x32]

  /** "0200", the MTI of a financial request. */
  const Mti0200: GoString := [0x30, 0x32, 0x30, 0x30]

  /** "test", the block the code authenticates in place of the message. */
  const TestBlock: GoString := [0x74, 0x65, 0x73, 0x74]

  /** `buildField57(extOrder)`: an LLLVAR binary field whose value is the hex
      text of "UPLDC2" followed by the hex text of the order number, twice,
      and whose length is half the length of that text. The padded decimal
      length the code also computes is never used and is not modelled. */
  function Field57(env: Env, extOrder: GoString): (f: Field)
    ensures f.isoType == env.lllvar && f.encoder == BINARY
    ensures f.value.Some? && f.value.value.Text?
    ensures |TextOf(f)| == 12 + 4 * |extOrder|
    ensures f.length == 6 + 2 * |extOrder|
  {
    var value := EncodeToString(extOrder);
    var buf := EncodeToString(Upldc2) + EncodeToString(extOrder) + value;
    Field(env.lllvar, Some(Text(buf)), BINARY, |buf| / 2)
  }

  /** The text of field 57 decodes to "UPLDC2", the order number and the
      order number again, and its length field counts those bytes. */
  lemma Field57Decodes(env: Env, extOrder: GoString)
    ensures DecodeString(TextOf(Field57(env, extOrder))) == Ok(Upldc2 + extOrder + extOrder)
    ensures Field57(env, extOrder).length == |Upldc2 + extOrder + extOrder|
    ensures forall k :: 0 <= k < |TextOf(Field57(env, extOrder))| ==> IsUpperHex(TextOf(Field57(env, extOrder))[k])
  {
    var tag := Upldc2;
    EncodeConcat(tag, extOrder);
    EncodeConcat(tag + extOrder, extOrder);
    var t := EncodeToString(tag + extOrder + extOrder);
    assert TextOf(Field57(env, extOrder)) == t;
    DecodeEncode(tag + extOrder + extOrder);
    EncodeToStringUpperHex(tag + extOrder + extOrder);
  }

  /** The field `buildField64` stores: the MAC, as hex, of the fixed block
      "test", once the message's field bytes encode. */
  function Field64Value(env: Env, mti: GoString, fields: seq<Field>, secondBitmap: bool, key: GoString): (r: Result<Field>)
    requires CipherKeepsBlock(env.encrypt)
    ensures r.Ok? <==> BytesFieldsSpec(env, mti, fields, secondBitmap).Ok? && CalcMacSpec(env, TestBlock, key).Ok?
    ensures BytesFieldsSpec(env, mti, fields, secondBitmap).Err? ==>
              r == Err(BytesFieldsSpec(env, mti, fields, secondBitmap).error)
  {
    match BytesFieldsSpec(env, mti, fields, secondBitmap)
    case Err(e) => Err(e)
    case Ok(_) =>
      match CalcMacSpec(env, TestBlock, key)
      case Err(e) => Err(e)
      case Ok(mac) => Ok(env.newFieldFix(BINARY, 8, EncodeToString(mac)))
  }

  /** The stored MAC text is 16 upper-case hex characters that decode to
      the 8-character MAC. */
  lemma Field64Text(env: Env, mti: GoString, fields: seq<Field>, secondBitmap: bool, key: GoString)
    requires CipherKeepsBlock(env.encrypt)
    requires Field64Value(env, mti, fields, secondBitmap, key).Ok?
    ensures CalcMacSpec(env, TestBlock, key).Ok?
    ensures var mac := CalcMacSpec(env, TestBlock, key).value;
            Field64Value(env, mti, fields, secondBitmap, key).value == env.newFieldFix(BINARY, 8, EncodeToString(mac)) &&
            |EncodeToString(mac)| == 16 &&
            DecodeString(EncodeToString(mac)) == Ok(mac) &&
            forall k :: 0 <= k < 16 ==> IsUpperHex(EncodeToString(mac)[k])
  {
    var mak := DecodeString(key).value;
    MacShape(env, mak, TestBlock);
    var mac := CalcMacSpec(env, TestBlock, key).value;
    DecodeEncode(mac);
    EncodeToStringUpperHex(mac);
  }

  /** Field 64 does not depend on the message: any two messages whose field
      bytes encode get the same field 64. */
  lemma Field64IgnoresMessage(env: Env, key: GoString,
                              mti1: GoString, fields1: seq<Field>, second1: bool,
                              mti2: GoString, fields2: seq<Field>, second2: bool)
    requires CipherKeepsBlock(env.encrypt)
    requires BytesFieldsSpec(env, mti1, fields1, second1).Ok?
    requires BytesFieldsSpec(env, mti2, fields2, second2).Ok?
    ensures Field64Value(env, mti1, fields1, second1, key) == Field64Value(env, mti2, fields2, second2, key)
  {
  }

  /** `buildField64(m, key)`: stores field 64, or reports why it cannot.
      `m.Fields[64]` faults without a 65th slot, which nothing recovers. */
  method BuildField64(env: Env, m: Message, key: GoString) returns (err: Outcome)
    requires CipherKeepsBlock(env.encrypt)
    requires Field64Value(env, m.mti, m.fields, m.secondBitmap, key).Ok? ==> |m.fields| > 64
    modifies m
    ensures m.tpdu == old(m.tpdu) && m.header == old(m.header) && m.mti == old(m.mti)
    ensures m.bitmap == old(m.bitmap) && m.secondBitmap == old(m.secondBitmap)
    ensures var f := Field64Value(env, old(m.mti), old(m.fields), old(m.secondBitmap), key);
            (f.Err? ==> err == Fail(f.error) && m.fields == old(m.fields)) &&
            (f.Ok? ==> err == Pass && m.fields == old(m.fields)[64 := f.value])
  {
    var data := m.BytesFields(env);
    if data.Err? {
      return Fail(data.error);
    }
    var block := TestBlock;
    var macBytes := CalcMac(env, block, key);
    if macBytes.Err? {
      return Fail(macBytes.error);
    }
    var mac := EncodeToString(macBytes.value);
    m.fields := m.fields[64 := env.newFieldFix(BINARY, 8, mac)];
    return Pass;
  }

  /** The five parts of field 60: "00", the batch number, "003", "0", "0". */
  function Field60Parts(env: Env, batchNum: GoString): (parts: seq<SubField>)
    ensures |parts| == 5 && parts[1] == env.newSubFieldFix(BCD, 6, batchNum)
  {
    [env.newSubFieldFix(BCD, 2, ZeroChars(2)), env.newSubFieldFix(BCD, 6, batchNum),
     env.newSubFieldFix(BCD, 3, [0x30, 0x30, 0x33]), env.newSubFieldFix(BCD, 1, ZeroChars(1)),
     env.newSubFieldFix(BCD, 1, ZeroChars(1))]
  }

  /** The arguments of `buildSCanCodeMessage` that end up in the fields. */
  datatype Request = Request(amount: GoString, serialNum: GoString, batchNum: GoString,
                             terminalID: GoString, merchantID: GoString, scanCodeId: GoString,
                             extOrder: GoString)

  /** What the request puts in slot i before field 64 is computed. */
  function RequestSlot(env: Env, q: Request, i: int): (f: Field)
    ensures !Listed(i) ==> f == ZeroField
    ensures i == 57 ==> f == if |q.extOrder| > 0 then Field57(env, q.extOrder) else ZeroField
  {
    if i == 3 then env.newFieldFix(BCD, 6, ZeroChars(6))
    else if i == 4 then env.newFieldFix(BCD, 12, q.amount)
    else if i == 11 then env.newFieldFix(BCD, 6, q.serialNum)
    else if i == 22 then env.newFieldFix(BCD, 3, [0x30, 0x34, 0x30])
    else if i == 23 then env.newFieldFix(BCD, 3, [0x30, 0x30, 0x31])
    else if i == 25 then env.newFieldFix(BCD, 2, [0x33, 0x31])
    else if i == 41 then env.newFieldFix(ASCII, 8, q.terminalID)
    else if i == 42 then env.newFieldFix(ASCII, 15, q.merchantID)
    else if i == 49 then env.newFieldFix(ASCII, 3, [0x31, 0x35, 0x36])
    else if i == 57 && |q.extOrder| > 0 then Field57(env, q.extOrder)
    else if i == 60 then env.newFields(env.lllvar, BCD, Field60Parts(env, q.batchNum))
    else if i == 62 then env.newFieldVar(env.lllvar, BCD, q.scanCodeId)
    else ZeroField
  }

  /** The slots the request may set. */
  predicate Listed(i: int) {
    i == 3 || i == 4 || i == 11 || i == 22 || i == 23 || i == 25 || i == 41 || i == 42 ||
    i == 49 || i == 57 || i == 60 || i == 62
  }

  /** The 65 slots of the request before field 64. */
  function ScanCodeSlots(env: Env, q: Request): (s: seq<Field>)
    ensures |s| == 65
  {
    seq(65, i => RequestSlot(env, q, i))
  }

  /** The request leaves every slot it does not list as Go's zero field. */
  lemma ScanCodeSlotsUnlisted(env: Env, q: Request, i: int)
    requires 0 <= i < 65 && !Listed(i)
    ensures ScanCodeSlots(env, q)[i] == ZeroField
  {
  }

  /** Field 57 is set exactly when there is an order number, and then holds
      `buildField64`'s tagged order number. */
  lemma ScanCodeSlot57(env: Env, q: Request)
    ensures ScanCodeSlots(env, q)[57] == ZeroField <==> |q.extOrder| == 0
    ensures |q.extOrder| > 0 ==> ScanCodeSlots(env, q)[57] == Field57(env, q.extOrder)
  {
  }

  /** `buildSCanCodeMessage`: sets the TPDU and MTI, replaces the slots by
      the request's 65 and then runs `buildField64` on the result, whose
      error is dropped. */
  method BuildSCanCodeMessage(env: Env, m: Message, tpdu: GoString, amount: GoString, serialNum: GoString,
                              batchNum: GoString, terminalID: GoString, merchantID: GoString,
                              scanCodeId: GoString, extOrder: GoString, mac: GoString)
    requires CipherKeepsBlock(env.encrypt)
    modifies m
    ensures m.tpdu == tpdu && m.mti == Mti0200
    ensures m.header == old(m.header) && m.bitmap == old(m.bitmap) && m.secondBitmap == old(m.secondBitmap)
    ensures var s := ScanCodeSlots(env, Request(amount, serialNum, batchNum, terminalID, merchantID, scanCodeId, extOrder));
            var f := Field64Value(env, Mti0200, s, old(m.secondBitmap), mac);
            m.fields == if f.Ok? then s[64 := f.value] else s
  {
    m.tpdu := tpdu;
    m.mti := Mti0200;
    var slots := FillSlots(env, amount, serialNum, batchNum, terminalID, merchantID, scanCodeId, extOrder);
    m.fields := slots;
    var _ := BuildField64(env, m, mac);
  }

  /** The assignments of `buildSCanCodeMessage` to `m.Fields`, in order. */
  method FillSlots(env: Env, amount: GoString, serialNum: GoString, batchNum: GoString,
                   terminalID: GoString, merchantID: GoString, scanCodeId: GoString,
                   extOrder: GoString) returns (slots: seq<Field>)
    ensures slots == ScanCodeSlots(env, Request(amount, serialNum, batchNum, terminalID, merchantID, scanCodeId, extOrder))
  {
    ghost var q := Request(amount, serialNum, batchNum, terminalID, merchantID, scanCodeId, extOrder);
    slots := FillFixed(env, q, amount, serialNum, terminalID, merchantID);
    ghost var fixed := slots;
    if |extOrder| > 0 {
      slots := slots[57 := Field57(env, extOrder)];
    }
    var subField60 := Field60Parts(env, batchNum);
    slots := slots[60 := env.newFields(env.lllvar, BCD, subField60)];
    slots := slots[62 := env.newFieldVar(env.lllvar, BCD, scanCodeId)];
    forall i | 0 <= i < 65
      ensures slots[i] == RequestSlot(env, q, i)
    {
      if i < 50 {
        assert slots[i] == fixed[i];
      }
    }
  }

  /** The zeroed slots and the nine fixed-length fields below 50. */
  method FillFixed(env: Env, ghost q: Request, amount: GoString, serialNum: GoString,
                   terminalID: GoString, merchantID: GoString) returns (slots: seq<Field>)
    requires q.amount == amount && q.serialNum == serialNum
    requires q.terminalID == terminalID && q.merchantID == merchantID
    ensures |slots| == 65
    ensures forall i :: 0 <= i < 65 ==> slots[i] == if i < 50 then RequestSlot(env, q, i) else ZeroField
  {
    slots := seq(65, _ => ZeroField);
    slots := slots[3 := env.newFieldFix(BCD, 6, ZeroChars(6))];
    slots := slots[4 := env.newFieldFix(BCD, 12, amount)];
    slots := slots[11 := env.newFieldFix(BCD, 6, serialNum)];
    slots := slots[22 := env.newFieldFix(BCD, 3, [0x30, 0x34, 0x30])];
    slots := slots[23 := env.newFieldFix(BCD, 3, [0x30, 0x30, 0x31])];
    slots := slots[25 := env.newFieldFix(BCD, 2, [0x33, 0x31])];
    slots := slots[41 := env.newFieldFix(ASCII, 8, terminalID)];
    slots := slots[42 := env.newFieldFix(ASCII, 15, merchantID)];
    slots := slots[49 := env.newFieldFix(ASCII, 3, [0x31, 0x35, 0x36])];
  }
}
