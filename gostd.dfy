/** The decimal conversions of the Go standard library that the core relies
    on: what `strconv.Atoi` accepts, `strconv.Itoa` of a non-negative
    number and `fmt.Sprintf("%04d", n)`. */
module GoStd {
  import opened Base

  predicate IsDigit(c: byte) {
    0x30 <= c <= 0x39
  }

  predicate AllDigits(s: GoString) {
    forall i :: 0 <= i < |s| ==> IsDigit(s[i])
  }

  /** `strconv.Atoi(s)` returns no error. For fewer than 19 bytes Go takes its
      fast path: an optional '+' or '-' and then one or more ASCII digits. */
  predicate AtoiAccepts(s: GoString)
    requires |s| < 19
    ensures AtoiAccepts(s) ==> |s| > 0 && forall k :: 0 < k < |s| ==> IsDigit(s[k])
    ensures |s| > 0 && AllDigits(s) ==> AtoiAccepts(s)
  {
    if |s| > 0 && (s[0] == 0x2B || s[0] == 0x2D) then |s| > 1 && AllDigits(s[1..])
    else |s| > 0 && AllDigits(s)
  }

  /** The character of a decimal digit. */
  function DigitChar(d: nat): (c: byte)
    requires d < 10
    ensures IsDigit(c)
    ensures DigitValue(c) == d
  {
    [0x30, 0x31, 0x32, 0x33, 0x34, 0x35, 0x36, 0x37, 0x38, 0x39][d]
  }

  /** The value of a decimal digit character. */
  function DigitValue(c: byte): (d: nat)
    requires IsDigit(c)
    ensures d < 10
  {
    (c - 0x30) as int
  }

  /** The number a string of decimal digits denotes. */
  function ValueOf(s: GoString): nat
    requires AllDigits(s)
  {
    if s == [] then 0 else ValueOf(s[..|s| - 1]) * 10 + DigitValue(s[|s| - 1])
  }

  /** `strconv.Itoa(n)` for n >= 0: the shortest decimal numeral of n. */
  function Itoa(n: nat): (r: GoString)
    ensures 1 <= |r|
    ensures AllDigits(r)
    ensures ValueOf(r) == n
    ensures n >= 10 ==> r[0] != 0x30
  {
    if n < 10 then [DigitChar(n)]
    else
      var init := Itoa(n / 10);
      var r := init + [DigitChar(n % 10)];
      assert r[..|r| - 1] == init;
      assert ValueOf(r) == ValueOf(init) * 10 + n % 10;
      assert r[0] == init[0];
      r
  }

  /** A number below 10^k has at most k digits. */
  lemma {:induction false} ItoaShort(n: nat, k: nat)
    requires 1 <= k
    requires n < Pow10(k)
    ensures |Itoa(n)| <= k
  {
    if n >= 10 {
      ItoaShort(n / 10, k - 1);
    }
  }

  function Pow10(k: nat): (p: nat)
    ensures p >= 1
  {
    if k == 0 then 1 else 10 * Pow10(k - 1)
  }

  /** k copies of the character '0'. */
  function ZeroChars(k: nat): (r: GoString)
    ensures |r| == k
    ensures AllDigits(r)
  {
    seq(k, _ => 0x30)
  }

  /** Leading '0' characters do not change the value of a numeral. */
  lemma {:induction false} LeadingZeros(k: nat, s: GoString)
    requires AllDigits(s)
    ensures ValueOf(ZeroChars(k) + s) == ValueOf(s)
    decreases |s|, k
  {
    var t := ZeroChars(k) + s;
    if s == [] {
      assert t == ZeroChars(k);
      if k > 0 {
        assert t[..|t| - 1] == ZeroChars(k - 1);
        LeadingZeros(k - 1, []);
        assert ZeroChars(k - 1) + [] == ZeroChars(k - 1);
      }
    } else {
      assert t[..|t| - 1] == ZeroChars(k) + s[..|s| - 1];
      LeadingZeros(k, s[..|s| - 1]);
    }
  }

  /** `fmt.Sprintf("%04d", n)` for n >= 0: the numeral of n, left-padded with
      '0' to four characters; wider numbers are not cut. */
  function Fmt04(n: nat): (r: GoString)
    ensures |r| == if |Itoa(n)| < 4 then 4 else |Itoa(n)|
    ensures AllDigits(r)
    ensures ValueOf(r) == n
    ensures n < 10000 ==> |r| == 4
  {
    var digits := Itoa(n);
    var r := if |digits| < 4 then ZeroChars(4 - |digits|) + digits else digits;
    assert ValueOf(r) == n by {
      if |digits| < 4 {
        LeadingZeros(4 - |digits|, digits);
      }
    }
    assert n < 10000 ==> |digits| <= 4 by {
      if n < 10000 {
        assert Pow10(4) == 10000;
        ItoaShort(n, 4);
      }
    }
    r
  }
}
