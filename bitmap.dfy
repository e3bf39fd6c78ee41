/** The presence bitmap as both directions of the codec read it: byte
    `byteIndex`, bit `bitIndex` (tested with the mask `1 << (7 - bitIndex)`)
    stands for field `byteIndex * 8 + bitIndex + 1`. */
module Bitmap {
  import opened Base

  /** 8 bitmap bytes, or 16 with the secondary bitmap. */
  function ByteNum(secondBitmap: bool): nat {
    if secondBitmap then 16 else 8
  }

  /** `0x01 << (7 - bitIndex)`, written out per bit index. */
  function Mask(bitIndex: nat): byte
    requires bitIndex < 8
  {
    match bitIndex
    case 0 => 0x80
    case 1 => 0x40
    case 2 => 0x20
    case 3 => 0x10
    case 4 => 0x08
    case 5 => 0x04
    case 6 => 0x02
    case _ => 0x01
  }

  /** The table above is the shift of the code. */
  lemma MaskIsShift(bitIndex: nat)
    requires bitIndex < 8
    ensures Mask(bitIndex) == (1 as byte) << (7 - bitIndex)
  {
  }

  /** `b & (0x01 << (7 - bitIndex)) != 0`. */
  predicate BitSet(b: byte, bitIndex: nat)
    requires bitIndex < 8
  {
    b & Mask(bitIndex) != 0
  }

  /** `b | (0x01 << (7 - bitIndex))`. */
  function SetBit(b: byte, bitIndex: nat): (r: byte)
    requires bitIndex < 8
    ensures BitSet(r, bitIndex)
  {
    b | Mask(bitIndex)
  }

  /** Setting a bit twice is setting it once. */
  lemma SetBitTwice(b: byte, bitIndex: nat)
    requires bitIndex < 8
    ensures SetBit(SetBit(b, bitIndex), bitIndex) == SetBit(b, bitIndex)
  {
  }

  /** The bit at position pos of the bitmap (position p is field p + 1). */
  predicate BitAt(bm: seq<byte>, pos: nat)
    requires pos < 8 * |bm|
  {
    BitSet(bm[pos / 8], pos % 8)
  }

  lemma PositionSplit(byteIndex: nat, bitIndex: nat)
    requires bitIndex < 8
    ensures (8 * byteIndex + bitIndex) / 8 == byteIndex
    ensures (8 * byteIndex + bitIndex) % 8 == bitIndex
  {
  }

  /** The data fields a bitmap names among its first p positions, in
      ascending order; field 1, the secondary-bitmap flag, is never one. */
  function SetIndicesUpTo(bm: seq<byte>, p: nat): seq<int>
    requires p <= 8 * |bm|
  {
    if p == 0 then []
    else SetIndicesUpTo(bm, p - 1) + (if p - 1 != 0 && BitAt(bm, p - 1) then [p] else [])
  }

  /** The data fields a whole bitmap names. */
  function SetIndices(bm: seq<byte>): seq<int> {
    SetIndicesUpTo(bm, 8 * |bm|)
  }

  /** A field is named among the first p positions exactly when its bit is
      set, it is not field 1, and it lies within those positions. */
  lemma {:induction false} SetIndicesUpToMembers(bm: seq<byte>, p: nat)
    requires p <= 8 * |bm|
    ensures forall i :: i in SetIndicesUpTo(bm, p) <==> (2 <= i <= p && BitAt(bm, i - 1))
  {
    if p > 0 {
      SetIndicesUpToMembers(bm, p - 1);
    }
  }

  /** The named fields are strictly ascending and lie within the first p positions. */
  lemma {:induction false} SetIndicesUpToAscending(bm: seq<byte>, p: nat)
    requires p <= 8 * |bm|
    ensures forall a, b :: 0 <= a < b < |SetIndicesUpTo(bm, p)| ==>
              SetIndicesUpTo(bm, p)[a] < SetIndicesUpTo(bm, p)[b]
    ensures forall a :: 0 <= a < |SetIndicesUpTo(bm, p)| ==> 2 <= SetIndicesUpTo(bm, p)[a] <= p
  {
    if p > 0 {
      SetIndicesUpToAscending(bm, p - 1);
    }
  }

  /** Membership and order for the whole bitmap. */
  lemma SetIndicesSpec(bm: seq<byte>)
    ensures forall i :: i in SetIndices(bm) <==> (2 <= i <= 8 * |bm| && BitAt(bm, i - 1))
    ensures forall a, b :: 0 <= a < b < |SetIndices(bm)| ==> SetIndices(bm)[a] < SetIndices(bm)[b]
  {
    SetIndicesUpToMembers(bm, 8 * |bm|);
    SetIndicesUpToAscending(bm, 8 * |bm|);
  }

  lemma NoBitInZero(j: nat)
    requires j < 8
    ensures !BitSet(0, j)
  {
  }

  /** An all-zero bitmap names no field. */
  lemma {:induction false} NoneInZeros(bm: seq<byte>, p: nat)
    requires p <= 8 * |bm|
    requires forall k :: 0 <= k < |bm| ==> bm[k] == 0
    ensures SetIndicesUpTo(bm, p) == []
  {
    if p > 0 {
      NoneInZeros(bm, p - 1);
      NoBitInZero((p - 1) % 8);
    }
  }

  /** The top n bits of a byte, `0xFF << (8 - n)`. */
  function TopBits(n: nat): byte
    requires n <= 8
  {
    if n == 0 then 0 else SetBit(TopBits(n - 1), n - 1)
  }

  lemma TopBitsFull()
    ensures TopBits(8) == 0xFF
  {
  }
}
