/** Four places where the code does not do what the surrounding code and
    the message layout evidently expect. Each section states a consequence
    of the code as written (about the functions of `Framing` and `Mac`,
    which follow the code) and then defines the evidently intended
    behaviour and proves the property it was meant to have. */
module Intended {
  import opened Base
  import opened Utils
  import opened GoStd
  import opened IsoField
  import opened Collaborators
  import opened Bitmap
  import opened Framing
  import opened Mac

  // ---------------------------------------------------------------------
  // 1. BytesFields: the slot loop shadows the bit position `i`

  /** As written: with only slot 3 populated, the bitmap still names
      field 2, whose slot is empty. */
  lemma ShadowedIndexNamesEmptySlot()
    ensures var fields := [ZeroField, ZeroField, ZeroField, Field(0, Some(Text([])), 0, 0)];
            Populated(fields, 3) && !Populated(fields, 2) &&
            2 in SetIndices(BitmapAsWritten(fields, false))
  {
    var fields := [ZeroField, ZeroField, ZeroField, Field(0, Some(Text([])), 0, 0)];
    assert Populated(fields, 3);
    assert AnyPopulated(fields);
    var bm := BitmapAsWritten(fields, false);
    SetIndicesSpec(bm);
    assert bm[0] == 0xFF;
    assert BitAt(bm, 1);
  }

  /** Bit position pos is meant to be set: for field 1 when there is a
      secondary bitmap, and for field pos + 1 when its slot is populated. */
  predicate Wanted(fields: seq<Field>, secondBitmap: bool, pos: nat) {
    if pos == 0 then secondBitmap else Populated(fields, pos + 1)
  }

  /** Setting one bit leaves the others as they were. */
  lemma SetBitOther(b: byte, m: nat, j: nat)
    requires m < 8 && j < 8
    ensures BitSet(SetBit(b, m), j) <==> (j == m || BitSet(b, j))
  {
  }

  lemma SetBitKeeps(b: byte, m: nat)
    requires m < 8
    ensures forall j :: 0 <= j < 8 ==> (BitSet(SetBit(b, m), j) <==> (j == m || BitSet(b, j)))
  {
    forall j | 0 <= j < 8
      ensures BitSet(SetBit(b, m), j) <==> (j == m || BitSet(b, j))
    {
      SetBitOther(b, m, j);
    }
  }

  /** Byte `byteIndex` of the intended bitmap after its first b bit positions. */
  function BitsUpTo(fields: seq<Field>, secondBitmap: bool, byteIndex: nat, b: nat): (r: byte)
    requires b <= 8
    ensures forall j :: 0 <= j < 8 ==> (BitSet(r, j) <==> (j < b && Wanted(fields, secondBitmap, 8 * byteIndex + j)))
  {
    if b == 0 then
      assert forall j :: 0 <= j < 8 ==> !BitSet(0, j) by {
        forall j | 0 <= j < 8 { NoBitInZero(j); }
      }
      0
    else
      var prev := BitsUpTo(fields, secondBitmap, byteIndex, b - 1);
      if Wanted(fields, secondBitmap, 8 * byteIndex + b - 1) then
        SetBitKeeps(prev, b - 1);
        SetBit(prev, b - 1)
      else prev
  }

  /** The bitmap the loop was meant to build: one bit per populated slot. */
  function IntendedBitmap(fields: seq<Field>, secondBitmap: bool): (bm: seq<byte>)
    ensures |bm| == ByteNum(secondBitmap)
  {
    seq(ByteNum(secondBitmap), (k: int) requires 0 <= k => BitsUpTo(fields, secondBitmap, k, 8))
  }

  /** Every bit position of the intended bitmap is set exactly when it is wanted. */
  lemma IntendedBitmapBits(fields: seq<Field>, secondBitmap: bool)
    ensures var bm := IntendedBitmap(fields, secondBitmap);
            forall pos :: 0 <= pos < 8 * |bm| ==> (BitAt(bm, pos) <==> Wanted(fields, secondBitmap, pos))
  {
    var bm := IntendedBitmap(fields, secondBitmap);
    forall pos | 0 <= pos < 8 * |bm|
      ensures BitAt(bm, pos) <==> Wanted(fields, secondBitmap, pos)
    {
      var k, j := pos / 8, pos % 8;
      assert pos == 8 * k + j;
      assert bm[k] == BitsUpTo(fields, secondBitmap, k, 8);
    }
  }

  /** The intended bitmap names exactly the populated slots it has room for. */
  lemma IntendedBitmapNamesPopulated(fields: seq<Field>, secondBitmap: bool)
    ensures forall i :: i in SetIndices(IntendedBitmap(fields, secondBitmap)) <==>
              (2 <= i <= 8 * ByteNum(secondBitmap) && Populated(fields, i))
  {
    SetIndicesSpec(IntendedBitmap(fields, secondBitmap));
    IntendedBitmapBits(fields, secondBitmap);
  }

  /** The slots the bitmap has room for: 2 up to 64 (or 128). */
  function Covered(fields: seq<Field>, secondBitmap: bool): (k: nat)
    ensures k <= |fields| && k <= 8 * ByteNum(secondBitmap) + 1
  {
    if |fields| <= 8 * ByteNum(secondBitmap) + 1 then |fields| else 8 * ByteNum(secondBitmap) + 1
  }

  /** The intended `BytesFields`: the MTI, the intended bitmap and the bytes
      of each populated slot it names, once each and in ascending order. */
  function IntendedBytesFields(env: Env, mti: GoString, fields: seq<Field>, secondBitmap: bool): Result<seq<byte>> {
    match PayloadUpTo(env, fields, Covered(fields, secondBitmap))
    case Err(e) => Err(e)
    case Ok(d) => Ok(env.lbcd(mti) + IntendedBitmap(fields, secondBitmap) + d)
  }

  /** Where the slots fit in the bitmap, the intended field data is the
      payload once, where the code writes it 64 or 128 times. */
  lemma IntendedDataOnce(env: Env, mti: GoString, fields: seq<Field>, secondBitmap: bool)
    requires |fields| <= 8 * ByteNum(secondBitmap) + 1
    requires Payload(env, fields).Ok?
    ensures IntendedBytesFields(env, mti, fields, secondBitmap) ==
              Ok(env.lbcd(mti) + IntendedBitmap(fields, secondBitmap) + Payload(env, fields).value)
    ensures BytesFieldsSpec(env, mti, fields, secondBitmap) ==
              Ok(env.lbcd(mti) + BitmapAsWritten(fields, secondBitmap) +
                 Repeat(Payload(env, fields).value, 8 * ByteNum(secondBitmap)))
  {
  }

  // ---------------------------------------------------------------------
  // 2. Decode: the walked bitmap starts at 21, the `Bitmap` string at 13

  /** As written: a message whose bitmap at 13 names field 3 decodes
      without loading any field, because the zero bytes at 21 are walked. */
  lemma DecodeWalksWrongBitmap(env: Env)
    ensures var raw := Zeros(13) + [0x20] + Zeros(15);
            |raw| == 29 && 3 in SetIndices(raw[13..21]) &&
            WalkedIndices(raw, []) == [] && DecodeSpec(env, raw, []).Ok?
  {
    var raw := Zeros(13) + [0x20] + Zeros(15);
    assert raw[13] == 0x20;
    SetIndicesSpec(raw[13..21]);
    assert BitAt(raw[13..21], 2);
    var walked := (raw + [])[21..29];
    assert forall k :: 0 <= k < 8 ==> walked[k] == 0;
    NoneInZeros(walked, 64);
  }

  /** The secondary-bitmap flag in the first bitmap byte. */
  lemma FlagIsFirstBit(b: byte)
    ensures (b & 0x80 == 0x80) <==> BitSet(b, 0)
  {
  }

  /** The fields the intended `Decode` walks: those of the bitmap at 13. */
  function IntendedWalked(raw: seq<byte>): seq<int>
    requires |raw| >= 13 + ByteNum(|raw| > 13 && raw[13] & 0x80 == 0x80)
  {
    SetIndices(raw[13..13 + ByteNum(raw[13] & 0x80 == 0x80)])
  }

  /** The intended `Decode`: the bitmap that names the fields is the one at
      13 that the `Bitmap` string shows, and the fields follow it. */
  function IntendedDecodeSpec(env: Env, raw: seq<byte>): Result<Decoded> {
    if |raw| < 21 then Err(Critical)
    else
      var second := raw[13] & 0x80 == 0x80;
      var byteNum := ByteNum(second);
      if |raw| < 13 + byteNum then Err(Critical)
      else
        match LoadAll(env, ParseFields(env), raw, SetIndices(raw[13..13 + byteNum]), 13 + byteNum)
        case Err(e) => Err(e)
        case Ok(_) =>
          Ok(Decoded(env.bcd2Ascii(raw[..5]), env.bcd2Ascii(raw[5..11]), env.bcd2Ascii(raw[11..13]),
                     EncodeToString(raw[13..21]), second))
  }

  /** The two intended halves fit: behind 11 header bytes and a 2-byte MTI,
      the intended `Decode` reads the secondary flag the encoder wrote and
      walks exactly the populated slots the encoder named, and its `Bitmap`
      string shows the first 8 bitmap bytes. */
  lemma IntendedRoundTrip(env: Env, prefix: seq<byte>, mti: GoString, fields: seq<Field>, secondBitmap: bool)
    requires |prefix| == 11 && |env.lbcd(mti)| == 2
    requires IntendedBytesFields(env, mti, fields, secondBitmap).Ok?
    ensures var raw := prefix + IntendedBytesFields(env, mti, fields, secondBitmap).value;
            |raw| >= 13 + ByteNum(secondBitmap) &&
            (raw[13] & 0x80 == 0x80 <==> secondBitmap) &&
            raw[13..13 + ByteNum(secondBitmap)] == IntendedBitmap(fields, secondBitmap) &&
            DecodeString(IntendedDecodeBitmap(raw)) == Ok(IntendedBitmap(fields, secondBitmap)[..8]) &&
            forall i :: i in IntendedWalked(raw) <==> (2 <= i <= 8 * ByteNum(secondBitmap) && Populated(fields, i))
  {
    var bm := IntendedBitmap(fields, secondBitmap);
    var d := PayloadUpTo(env, fields, Covered(fields, secondBitmap)).value;
    var raw := prefix + IntendedBytesFields(env, mti, fields, secondBitmap).value;
    assert raw == (prefix + env.lbcd(mti)) + bm + d;
    assert raw[13..13 + |bm|] == bm;
    IntendedBitmapBits(fields, secondBitmap);
    assert BitAt(bm, 0) <==> secondBitmap;
    FlagIsFirstBit(raw[13]);
    IntendedBitmapNamesPopulated(fields, secondBitmap);
    assert raw[13..21] == bm[..8];
    DecodeEncode(bm[..8]);
  }

  /** The `Bitmap` string `Decode` records: the first 8 bitmap bytes as hex. */
  function IntendedDecodeBitmap(raw: seq<byte>): (s: GoString)
    requires |raw| >= 21
    ensures |s| == 16
  {
    EncodeToString(raw[13..21])
  }

  // ---------------------------------------------------------------------
  // 3. Bytes: the envelope writes field 42 twice

  /** As written: with an 11-byte prefix, a 15-character field 42 and field
      bytes shorter than 10000, the cipher text starts at 58, while
      `DecodeDes` decrypts from 51: it takes seven '0' characters first. */
  lemma EnvelopeMisplacesCipher(env: Env, prefix: seq<byte>, fields: seq<Field>, fieldsByte: seq<byte>, tdk: GoString)
    requires |prefix| == 11 && |fields| > 42 && |TextOf(fields[42])| == 15 && |fieldsByte| < 10000
    requires SecureEnvelope(env, prefix, fields, fieldsByte, tdk).Ok?
    ensures var c := env.encrypt(fieldsByte, DecodeString(tdk).value).value;
            var r := SecureEnvelope(env, prefix, fields, fieldsByte, tdk).value;
            |r| == 58 + |c| && r[58..] == c && r[MinSize..] == ZeroChars(7) + c
  {
    var key := DecodeString(tdk).value;
    var c := env.encrypt(fieldsByte, key).value;
    var f42 := TextOf(fields[42]);
    var r := SecureEnvelope(env, prefix, fields, fieldsByte, tdk).value;
    var head := prefix + [0xE6] + f42 + f42 + Fmt04(|fieldsByte|);
    assert |head| == 46;
    assert r == head + ZeroChars(12) + c;
    assert r[MinSize..] == ZeroChars(12)[5..] + c;
    assert ZeroChars(12)[5..] == ZeroChars(7);
  }

  /** The intended envelope: field 42 (the 15-character merchant code) and
      then field 41 (the 8-character terminal code), which with the marker,
      the 4-digit length and the twelve '0' characters makes the 40 bytes
      `DecodeDes` skips after the 11 header bytes. */
  function IntendedSecureEnvelope(env: Env, prefix: seq<byte>, fields: seq<Field>, fieldsByte: seq<byte>, tdk: GoString)
    : Result<seq<byte>>
  {
    if |fields| <= 42 then Err(Critical)
    else
      match DecodeString(tdk)
      case Err(e) => Err(e)
      case Ok(key) =>
        match env.encrypt(fieldsByte, key)
        case Err(e) => Err(e)
        case Ok(c) =>
          Ok(prefix + [0xE6] + TextOf(fields[42]) + TextOf(fields[41]) + Fmt04(|fieldsByte|) + ZeroChars(12) + c)
  }

  /** With codes of the lengths the layout expects, the intended envelope
      puts the cipher text exactly where `DecodeDes` reads it. */
  lemma IntendedEnvelopeLayout(env: Env, prefix: seq<byte>, fields: seq<Field>, fieldsByte: seq<byte>, tdk: GoString)
    requires |prefix| == 11 && |fields| > 42 && |fieldsByte| < 10000
    requires |TextOf(fields[42])| == 15 && |TextOf(fields[41])| == 8
    requires IntendedSecureEnvelope(env, prefix, fields, fieldsByte, tdk).Ok?
    ensures var c := env.encrypt(fieldsByte, DecodeString(tdk).value).value;
            var r := IntendedSecureEnvelope(env, prefix, fields, fieldsByte, tdk).value;
            |r| == MinSize + |c| && r[..11] == prefix && r[MinSize..] == c
  {
    var key := DecodeString(tdk).value;
    var c := env.encrypt(fieldsByte, key).value;
    var r := IntendedSecureEnvelope(env, prefix, fields, fieldsByte, tdk).value;
    var head := prefix + [0xE6] + TextOf(fields[42]) + TextOf(fields[41]) + Fmt04(|fieldsByte|) + ZeroChars(12);
    assert |head| == MinSize;
    assert r == head + c;
    assert head[..11] == prefix;
  }

  /** ... and `DecodeDes` hands `Decode` the header bytes followed by the
      cipher routine's output on that text. */
  lemma IntendedEnvelopeDecodes(env: Env, prefix: seq<byte>, fields: seq<Field>, fieldsByte: seq<byte>, tdk: GoString,
                                spare: seq<byte>)
    requires |prefix| == 11 && |fields| > 42 && |fieldsByte| < 10000
    requires |TextOf(fields[42])| == 15 && |TextOf(fields[41])| == 8
    requires |tdk| > 0
    requires IntendedSecureEnvelope(env, prefix, fields, fieldsByte, tdk).Ok?
    ensures var key := DecodeString(tdk).value;
            var c := env.encrypt(fieldsByte, key).value;
            var r := IntendedSecureEnvelope(env, prefix, fields, fieldsByte, tdk).value;
            |r| >= MinSize &&
            DecodeDesSpec(env, r, spare, tdk) ==
              match env.encrypt(c, key)
              case Err(e) => Err(e)
              case Ok(p) => DecodeSpec(env, prefix + p, AppendedSpare(r, spare, 11, |p|))
  {
    var key := DecodeString(tdk).value;
    var c := env.encrypt(fieldsByte, key).value;
    var r := IntendedSecureEnvelope(env, prefix, fields, fieldsByte, tdk).value;
    IntendedEnvelopeLayout(env, prefix, fields, fieldsByte, tdk);
    assert MinSize - 1 - 39 == 11;
    assert r[..MinSize - 1 - 39] == prefix;
    assert DecodeString(tdk) == Ok(key);
    assert DecodeDesSpec(env, r, spare, tdk) ==
             match env.encrypt(r[MinSize..], key)
             case Err(e) => Err(e)
             case Ok(p) => DecodeSpec(env, r[..MinSize - 1 - 39] + p, AppendedSpare(r, spare, MinSize - 1 - 39, |p|));
  }

  // ---------------------------------------------------------------------
  // 4. getMac: the padding is `len % 8` bytes instead of up to the block

  lemma FoldFirstBlock(s: seq<byte>, t: seq<byte>)
    requires |s| >= 8 && |t| >= 8 && s[..8] == t[..8]
    ensures Fold(s, 1) == Fold(t, 1)
  {
    assert forall j :: 0 <= j < 8 ==> Fold(s, 1)[j] == s[j] && Fold(t, 1)[j] == t[j];
  }

  /** As written: a 9-byte block is padded to 10 bytes and only its first
      8 are folded, so two blocks that differ in their last byte get the
      same MAC. */
  lemma MacIgnoresNinthByte(env: Env, mak: seq<byte>, a: seq<byte>, b: seq<byte>)
    requires CipherKeepsBlock(env.encrypt)
    requires |mak| == 8 && |a| == 9 && |b| == 9 && a[..8] == b[..8]
    ensures MacSpec(env, mak, a) == MacSpec(env, mak, b)
  {
    var pa, pb := Padded(a), Padded(b);
    assert |pa| / 8 == 1 && |pb| / 8 == 1;
    assert pa[..8] == a[..8] && pb[..8] == b[..8];
    FoldFirstBlock(pa, pb);
  }

  /** The intended padding: zero bytes up to the next multiple of 8. */
  function IntendedPadded(mab: seq<byte>): (p: seq<byte>)
    ensures |p| % 8 == 0 && |mab| <= |p| < |mab| + 8
    ensures p[..|mab|] == mab
  {
    mab + Zeros((8 - |mab| % 8) % 8)
  }

  /** The hex text of the folded, intendedly padded MAB: its first half is
      the input of the first cipher pass, its second half is XORed into that
      pass's output before the second. */
  function IntendedMacText(mab: seq<byte>): (h: GoString)
    requires |mab| > 0
    ensures |h| == 16
  {
    var p := IntendedPadded(mab);
    EncodeToString(Fold(p, |p| / 8))
  }

  /** `getMac` with the intended padding; no block length faults. */
  function IntendedMacSpec(env: Env, mak: seq<byte>, mab: seq<byte>): Result<GoString>
    requires CipherKeepsBlock(env.encrypt)
  {
    if |mak| != 8 then Err(KeyLength)
    else if |mab| == 0 then Err(EmptyMab)
    else
      var h := IntendedMacText(mab);
      match env.encrypt(h[..8], mak)
      case Err(e) => Err(e)
      case Ok(c1) =>
        match env.encrypt(XorPrefix(c1, h[8..]), mak)
        case Err(e) => Err(e)
        case Ok(c2) => Ok(EncodeToString(c2)[..8])
  }

  /** Columns of blocks on which two sequences agree fold to the same bytes. */
  lemma {:induction false} XorColAgree(s: seq<byte>, t: seq<byte>, n: nat, j: nat)
    requires 1 <= n && 8 * n <= |s| && 8 * n <= |t| && j < 8
    requires s[..8 * n] == t[..8 * n]
    ensures XorCol(s, n, j) == XorCol(t, n, j)
  {
    assert s[8 * (n - 1) + j] == s[..8 * n][8 * (n - 1) + j];
    assert t[8 * (n - 1) + j] == t[..8 * n][8 * (n - 1) + j];
    if n > 1 {
      assert s[..8 * (n - 1)] == s[..8 * n][..8 * (n - 1)];
      assert t[..8 * (n - 1)] == t[..8 * n][..8 * (n - 1)];
      XorColAgree(s, t, n - 1, j);
    }
  }

  /** Changing one byte of the first n blocks changes the folded column
      of that byte and no other. */
  lemma {:induction false} FoldSensitive(s: seq<byte>, t: seq<byte>, n: nat, k: nat, j: nat)
    requires |s| == |t| && 1 <= n && 8 * n <= |s| && k < 8 * n && j < 8
    requires s[k] != t[k]
    requires forall m :: 0 <= m < |s| && m != k ==> s[m] == t[m]
    ensures XorCol(s, n, j) == XorCol(t, n, j) <==> j != k % 8
  {
    var last := 8 * (n - 1) + j;
    if n == 1 {
    } else if k < 8 * (n - 1) {
      FoldSensitive(s, t, n - 1, k, j);
      assert s[last] == t[last];
    } else {
      assert s[..8 * (n - 1)] == t[..8 * (n - 1)];
      XorColAgree(s, t, n - 1, j);
      assert k % 8 == k - 8 * (n - 1);
      XorDistinct(XorCol(s, n - 1, j), s[last], t[last]);
    }
  }

  lemma XorDistinct(a: byte, x: byte, y: byte)
    ensures (a ^ x == a ^ y) <==> x == y
  {
  }

  /** With the intended padding every byte of the MAB is folded: two MABs
      of the same length that differ in one byte fold to accumulators that
      differ in exactly that byte's column. */
  lemma IntendedMacCoversAll(a: seq<byte>, b: seq<byte>, k: nat)
    requires |a| == |b| && k < |a| && a[k] != b[k]
    requires forall m :: 0 <= m < |a| && m != k ==> a[m] == b[m]
    ensures var pa, pb := IntendedPadded(a), IntendedPadded(b);
            |pa| == |pb| &&
            forall j :: 0 <= j < 8 ==> (Fold(pa, |pa| / 8)[j] == Fold(pb, |pb| / 8)[j] <==> j != k % 8)
  {
    var pa, pb := IntendedPadded(a), IntendedPadded(b);
    assert pa == a + Zeros((8 - |a| % 8) % 8) && pb == b + Zeros((8 - |b| % 8) % 8);
    assert pa[k] == a[k] && pb[k] == b[k];
    forall m | 0 <= m < |pa| && m != k
      ensures pa[m] == pb[m]
    {
      if m < |a| {
        assert pa[m] == a[m] && pb[m] == b[m];
      }
    }
    var n := |pa| / 8;
    forall j | 0 <= j < 8
      ensures Fold(pa, n)[j] == Fold(pb, n)[j] <==> j != k % 8
    {
      FoldSensitive(pa, pb, n, k, j);
    }
  }

  /** The hex text of 8 bytes is that of their two halves. */
  lemma HexHalves(x: seq<byte>)
    requires |x| == 8
    ensures EncodeToString(x)[..8] == EncodeToString(x[..4])
    ensures EncodeToString(x)[8..] == EncodeToString(x[4..])
  {
    assert x == x[..4] + x[4..];
    EncodeConcat(x[..4], x[4..]);
  }

  /** Different bytes have different hex texts. */
  lemma HexInjective(x: seq<byte>, y: seq<byte>)
    requires x != y
    ensures EncodeToString(x) != EncodeToString(y)
  {
    DecodeEncode(x);
    DecodeEncode(y);
  }

  /** ... so a change in any byte of the MAB reaches `IntendedMacSpec`'s
      cipher inputs: a byte in columns 0 to 3 changes the text encrypted
      by the first pass, and one in columns 4 to 7 the text XORed into its
      output before the second. */
  lemma IntendedMacInputsDiffer(a: seq<byte>, b: seq<byte>, k: nat)
    requires |a| == |b| && k < |a| && a[k] != b[k]
    requires forall m :: 0 <= m < |a| && m != k ==> a[m] == b[m]
    ensures k % 8 < 4 ==> IntendedMacText(a)[..8] != IntendedMacText(b)[..8]
    ensures k % 8 >= 4 ==> IntendedMacText(a)[8..] != IntendedMacText(b)[8..]
  {
    var pa, pb := IntendedPadded(a), IntendedPadded(b);
    IntendedMacCoversAll(a, b, k);
    var x, y := Fold(pa, |pa| / 8), Fold(pb, |pb| / 8);
    assert x[k % 8] != y[k % 8];
    HexHalves(x);
    HexHalves(y);
    if k % 8 < 4 {
      assert x[..4][k % 8] != y[..4][k % 8];
      HexInjective(x[..4], y[..4]);
    } else {
      assert x[4..][k % 8 - 4] != y[4..][k % 8 - 4];
      HexInjective(x[4..], y[4..]);
    }
  }
}
