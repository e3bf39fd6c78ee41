/** utils/typechange.go: `EncodeToString`, upper-case Base16 (section 8 of
    RFC 4648), together with the decoder `hex.DecodeString` that the code
    uses on keys; the decoder accepts both letter cases. */
module Utils {
  import opened Base

  /** '0'-'9' or 'A'-'F'. */
  predicate IsUpperHex(c: byte) {
    (0x30 <= c <= 0x39) || (0x41 <= c <= 0x46)
  }

  /** The upper-case hex digit of a nibble. */
  function HexDigit(n: bv8): (c: byte)
    requires n < 16
    ensures IsUpperHex(c)
    ensures n < 10 ==> c as int == '0' as int + n as int
    ensures 10 <= n ==> c as int == 'A' as int + n as int - 10
  {
    if n < 10 then 0x30 + n else 0x37 + n
  }

  /** `strings.ToUpper(hex.EncodeToString(src))`: two upper-case digits per
      byte, high nibble first. */
  function EncodeToString(src: seq<byte>): (r: GoString)
    ensures |r| == 2 * |src|
  {
    if src == [] then []
    else [HexDigit(src[0] >> 4), HexDigit(src[0] & 0xF)] + EncodeToString(src[1..])
  }

  /** Characters 2k and 2k+1 are the digits of the high and low nibble of src[k]. */
  lemma {:induction false} EncodeToStringAt(src: seq<byte>, k: nat)
    requires k < |src|
    ensures EncodeToString(src)[2 * k] == HexDigit(src[k] >> 4)
    ensures EncodeToString(src)[2 * k + 1] == HexDigit(src[k] & 0xF)
  {
    if k > 0 {
      EncodeToStringAt(src[1..], k - 1);
    }
  }

  /** Every output character is an upper-case hex digit. */
  lemma EncodeToStringUpperHex(src: seq<byte>)
    ensures forall k :: 0 <= k < |EncodeToString(src)| ==> IsUpperHex(EncodeToString(src)[k])
  {
    forall k | 0 <= k < |EncodeToString(src)|
      ensures IsUpperHex(EncodeToString(src)[k])
    {
      EncodeToStringAt(src, k / 2);
    }
  }

  /** Encoding distributes over concatenation. */
  lemma {:induction false} EncodeConcat(a: seq<byte>, b: seq<byte>)
    ensures EncodeToString(a + b) == EncodeToString(a) + EncodeToString(b)
  {
    if a == [] {
      assert a + b == b;
    } else {
      var h := [HexDigit(a[0] >> 4), HexDigit(a[0] & 0xF)];
      assert (a + b)[0] == a[0];
      assert (a + b)[1..] == a[1..] + b;
      EncodeConcat(a[1..], b);
      calc {
        EncodeToString(a + b);
        h + EncodeToString(a[1..] + b);
        h + (EncodeToString(a[1..]) + EncodeToString(b));
        (h + EncodeToString(a[1..])) + EncodeToString(b);
        EncodeToString(a) + EncodeToString(b);
      }
    }
  }

  /** The value of a hex digit in either case, as Go's reverse table has it. */
  function Nibble(c: byte): (r: Option<bv8>)
    ensures r.Some? ==> r.value < 16
    ensures r.Some? <==> (IsUpperHex(c) || (0x61 <= c <= 0x66))
  {
    if 0x30 <= c <= 0x39 then Some(c - 0x30)
    else if 0x41 <= c <= 0x46 then Some(c - 0x37)
    else if 0x61 <= c <= 0x66 then Some(c - 0x57)
    else None
  }

  /** `hex.DecodeString`: pairs of digits, left to right; the first byte that
      is not a digit fails, and a lone final digit fails with ErrLength. */
  function DecodeString(s: GoString): (r: Result<seq<byte>>)
    ensures r.Ok? ==> 2 * |r.value| == |s|
    decreases |s|
  {
    if |s| == 0 then Ok([])
    else if Nibble(s[0]).None? then Err(InvalidHexByte(s[0]))
    else if |s| == 1 then Err(OddHexLength)
    else if Nibble(s[1]).None? then Err(InvalidHexByte(s[1]))
    else
      match DecodeString(s[2..])
      case Err(e) => Err(e)
      case Ok(rest) => Ok([(Nibble(s[0]).value << 4) | Nibble(s[1]).value] + rest)
  }

  lemma NibbleOfDigit(n: bv8)
    requires n < 16
    ensures Nibble(HexDigit(n)) == Some(n)
  {
  }

  lemma SplitByte(b: byte)
    ensures ((b >> 4) << 4) | (b & 0xF) == b
    ensures b >> 4 < 16 && b & 0xF < 16
  {
  }

  /** The two digits of a byte decode to that byte. */
  lemma HexPair(b: byte)
    ensures Nibble(HexDigit(b >> 4)).Some? && Nibble(HexDigit(b & 0xF)).Some?
    ensures (Nibble(HexDigit(b >> 4)).value << 4) | Nibble(HexDigit(b & 0xF)).value == b
  {
    SplitByte(b);
    NibbleOfDigit(b >> 4);
    NibbleOfDigit(b & 0xF);
  }

  /** Decoding undoes encoding. */
  lemma {:induction false} DecodeEncode(b: seq<byte>)
    ensures DecodeString(EncodeToString(b)) == Ok(b)
  {
    if b != [] {
      DecodeEncodeHead(b);
      DecodeEncode(b[1..]);
      assert b == [b[0]] + b[1..];
    }
  }

  /** Decoding an encoding takes back its first byte from the first two digits. */
  lemma DecodeEncodeHead(b: seq<byte>)
    requires b != []
    ensures DecodeString(EncodeToString(b)) ==
              match DecodeString(EncodeToString(b[1..]))
              case Err(e) => Err(e)
              case Ok(rest) => Ok([b[0]] + rest)
  {
    var h := [HexDigit(b[0] >> 4), HexDigit(b[0] & 0xF)];
    var s := EncodeToString(b);
    assert s == h + EncodeToString(b[1..]);
    assert s[0] == h[0] && s[1] == h[1];
    HexPair(b[0]);
    assert s[2..] == EncodeToString(b[1..]);
  }

  /** A string decodes exactly when it has even length and only hex digits. */
  lemma {:induction false} DecodeStringOk(s: GoString)
    ensures DecodeString(s).Ok? <==>
              (|s| % 2 == 0 && forall k :: 0 <= k < |s| ==> Nibble(s[k]).Some?)
    decreases |s|
  {
    if |s| >= 2 {
      DecodeStringOk(s[2..]);
      assert forall k :: 2 <= k < |s| ==> s[k] == s[2..][k - 2];
    }
  }
}
