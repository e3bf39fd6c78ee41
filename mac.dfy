/** main.go: the message authentication code of `getMac` and `calcMac`.
    The MAC block is padded, folded by XOR into eight bytes, written as hex,
    and passed twice through the encryption routine under the 8-byte key. */
module Mac {
  import opened Base
  import opened Utils
  import opened Collaborators

  /** `mab` after the code's padding: `len(mab) % 8` zero bytes appended. */
  function Padded(mab: seq<byte>): (p: seq<byte>)
    ensures |p| == |mab| + |mab| % 8
    ensures p[..|mab|] == mab
    ensures forall k :: |mab| <= k < |p| ==> p[k] == 0
  {
    mab + Zeros(|mab| % 8)
  }

  /** Column j of the first n 8-byte blocks of s, folded by XOR. */
  function XorCol(s: seq<byte>, n: nat, j: nat): byte
    requires 1 <= n && 8 * n <= |s| && j < 8
  {
    if n == 1 then s[j] else XorCol(s, n - 1, j) ^ s[8 * (n - 1) + j]
  }

  /** The eight folded columns: what the nested loop leaves in `result`. */
  function Fold(s: seq<byte>, n: nat): (r: seq<byte>)
    requires 1 <= n && 8 * n <= |s|
    ensures |r| == 8
    ensures forall j :: 0 <= j < 8 ==> r[j] == XorCol(s, n, j)
  {
    seq(8, j requires 0 <= j < 8 => XorCol(s, n, j))
  }

  /** The first cipher output with its first eight bytes XORed with h. */
  function XorPrefix(c: seq<byte>, h: seq<byte>): (r: seq<byte>)
    requires |c| >= 8 && |h| >= 8
    ensures |r| == |c|
    ensures forall i :: 0 <= i < 8 ==> r[i] == c[i] ^ h[i]
    ensures r[8..] == c[8..]
  {
    seq(|c|, i requires 0 <= i < |c| => if i < 8 then c[i] ^ h[i] else c[i])
  }

  /** `getMac(mak, mab)`. For a MAB of 1 to 3 bytes the padded block is
      shorter than 8 and `mab[:8]` reaches past its length: Go faults or
      reads spare capacity depending on the allocation, so callers must not
      pass one. The cipher must keep at least one block of output. */
  function MacSpec(env: Env, mak: seq<byte>, mab: seq<byte>): Result<GoString>
    requires |mak| == 8 && |mab| > 0 ==> |mab| >= 4
    requires CipherKeepsBlock(env.encrypt)
  {
    if |mak| != 8 then Err(KeyLength)
    else if |mab| == 0 then Err(EmptyMab)
    else
      var p := Padded(mab);
      var h := EncodeToString(Fold(p, |p| / 8));
      match env.encrypt(h[..8], mak)
      case Err(e) => Err(e)
      case Ok(c1) =>
        match env.encrypt(XorPrefix(c1, h[8..]), mak)
        case Err(e) => Err(e)
        case Ok(c2) => Ok(EncodeToString(c2)[..8])
  }

  /** A MAC is eight upper-case hex characters. */
  lemma MacShape(env: Env, mak: seq<byte>, mab: seq<byte>)
    requires |mak| == 8 && |mab| > 0 ==> |mab| >= 4
    requires CipherKeepsBlock(env.encrypt)
    requires MacSpec(env, mak, mab).Ok?
    ensures |MacSpec(env, mak, mab).value| == 8
    ensures forall k :: 0 <= k < 8 ==> IsUpperHex(MacSpec(env, mak, mab).value[k])
  {
    var p := Padded(mab);
    var h := EncodeToString(Fold(p, |p| / 8));
    var c1 := env.encrypt(h[..8], mak).value;
    var c2 := env.encrypt(XorPrefix(c1, h[8..]), mak).value;
    EncodeToStringUpperHex(c2);
  }

  /** `getMac`: padding, the fold, the hex step, and the two cipher passes
      with the XOR between them. */
  method GetMac(env: Env, mak: seq<byte>, mab: seq<byte>) returns (r: Result<GoString>)
    requires |mak| == 8 && |mab| > 0 ==> |mab| >= 4
    requires CipherKeepsBlock(env.encrypt)
    ensures r == MacSpec(env, mak, mab)
  {
    if |mak| != 8 {
      return Err(KeyLength);
    }
    if |mab| <= 0 {
      return Err(EmptyMab);
    }
    var buf := mab;
    var res := |buf| % 8;
    if res != 0 {
      buf := buf + Zeros(res);
    }
    assert buf == Padded(mab);
    var result := FoldBlocks(buf);
    var hexDecBytes := EncodeToString(result);
    var first := env.encrypt(hexDecBytes[..8], mak);
    if first.Err? {
      return Err(first.error);
    }
    var mixed := XorHead(first.value, hexDecBytes[8..]);
    var second := env.encrypt(mixed, mak);
    if second.Err? {
      return Err(second.error);
    }
    hexDecBytes := EncodeToString(second.value);
    return Ok(hexDecBytes[..8]);
  }

  /** The nested loop of `getMac`: `result` starts as the first block and
      every further whole block is XORed into it, byte by byte. */
  method FoldBlocks(buf: seq<byte>) returns (acc: seq<byte>)
    requires |buf| >= 8
    ensures acc == Fold(buf, |buf| / 8)
  {
    var n := |buf| / 8;
    assert 1 <= n && 8 * n <= |buf|;
    var result := new byte[8](k requires 0 <= k < 8 => buf[k]);
    var i := 1;
    while i < n
      invariant 1 <= i <= n
      invariant forall k :: 0 <= k < 8 ==> result[k] == XorCol(buf, i, k)
    {
      var j := 0;
      while j < 8
        invariant 0 <= j <= 8
        invariant forall k :: 0 <= k < j ==> result[k] == XorCol(buf, i + 1, k)
        invariant forall k :: j <= k < 8 ==> result[k] == XorCol(buf, i, k)
      {
        result[j] := result[j] ^ buf[i * 8 + j];
        j := j + 1;
      }
      i := i + 1;
    }
    acc := result[..];
  }

  /** The loop between the two cipher passes: the first eight bytes of the
      cipher output are XORed with the second half of the hex text. */
  method XorHead(c: seq<byte>, h: seq<byte>) returns (r: seq<byte>)
    requires |c| >= 8 && |h| >= 8
    ensures r == XorPrefix(c, h)
  {
    var result := new byte[|c|](k requires 0 <= k < |c| => c[k]);
    var i := 0;
    while i < 8
      invariant 0 <= i <= 8
      invariant forall k :: 0 <= k < i ==> result[k] == c[k] ^ h[k]
      invariant forall k :: i <= k < result.Length ==> result[k] == c[k]
    {
      result[i] := result[i] ^ h[i];
      i := i + 1;
    }
    r := result[..];
  }

  /** `calcMac(raw, key)`: the key is hex; a key that does not decode is
      reported, any other goes to `getMac`. */
  function CalcMacSpec(env: Env, raw: seq<byte>, key: GoString): (r: Result<GoString>)
    requires CipherKeepsBlock(env.encrypt)
    requires DecodeString(key).Ok? && |DecodeString(key).value| == 8 && |raw| > 0 ==> |raw| >= 4
    ensures DecodeString(key).Err? ==> r == Err(DecodeString(key).error)
    ensures r.Ok? ==> |key| == 16 && |r.value| == 8
  {
    match DecodeString(key)
    case Err(e) => Err(e)
    case Ok(mak) => MacSpec(env, mak, raw)
  }

  method CalcMac(env: Env, raw: seq<byte>, key: GoString) returns (r: Result<GoString>)
    requires CipherKeepsBlock(env.encrypt)
    requires DecodeString(key).Ok? && |DecodeString(key).value| == 8 && |raw| > 0 ==> |raw| >= 4
    ensures r == CalcMacSpec(env, raw, key)
    ensures r.Ok? ==> |key| == 16
  {
    var mak := DecodeString(key);
    if mak.Err? {
      return Err(mak.error);
    }
    r := GetMac(env, mak.value, raw);
  }
}
