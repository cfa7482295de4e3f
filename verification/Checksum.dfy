/** The rolling 32-bit hash over UTF-16 code units and its hexadecimal text. */
module Checksum {
  type CodeUnit = c: int | 0 <= c < 0x1_0000

  const TWO_31: int := 0x8000_0000
  const TWO_32: int := 0x1_0000_0000

  /** ToInt32 of ECMA-262, section 7.1.6. */
  function ToInt32(x: int): (r: int)
    ensures -TWO_31 <= r < TWO_31
  {
    var m := x % TWO_32;
    if m >= TWO_31 then m - TWO_32 else m
  }

  function Power(e: nat): nat {
    if e == 0 then 1 else 31 * Power(e - 1)
  }

  /** value[0] * 31^(n-1) + value[1] * 31^(n-2) + ... + value[n-1] */
  function Polynomial(value: seq<CodeUnit>): int {
    if value == [] then 0 else value[0] * Power(|value| - 1) + Polynomial(value[1..])
  }

  lemma {:induction false} PolynomialOfAppend(value: seq<CodeUnit>, c: CodeUnit)
    ensures Polynomial(value + [c]) == 31 * Polynomial(value) + c
  {
    if value == [] {
      assert value + [c] == [c];
      assert Power(0) == 1 && [c][1..] == [];
    } else {
      PolynomialOfAppend(value[1..], c);
      assert (value + [c])[1..] == value[1..] + [c];
      var n := |value|;
      assert Power(n) == 31 * Power(n - 1);
      TimesOut(value[0], Power(n - 1));
    }
  }

  lemma TimesOut(a: int, p: int)
    ensures a * (31 * p) == 31 * (a * p)
  {
  }

  /** Truncation takes away a multiple of 2^32. */
  lemma ToInt32Loses(x: int) returns (k: int)
    ensures ToInt32(x) == x + k * TWO_32
  {
    var m := x % TWO_32;
    k := -(x / TWO_32) - if m >= TWO_31 then 1 else 0;
  }

  /** And does not see multiples of 2^32. */
  lemma ToInt32Ignores(x: int, k: int)
    ensures ToInt32(x + k * TWO_32) == ToInt32(x)
  {
  }

  /** One round: the shift and the truncation both lose multiples of 2^32 only. */
  lemma RoundIsExact(hash: int, total: int, c: CodeUnit)
    requires hash == ToInt32(total)
    ensures ToInt32(ToInt32(hash * 32) - hash + c) == ToInt32(31 * total + c)
  {
    var j := ToInt32Loses(total);
    var k := ToInt32Loses(hash * 32);
    assert ToInt32(hash * 32) - hash + c == (31 * total + c) + (k + 31 * j) * TWO_32;
    ToInt32Ignores(31 * total + c, k + 31 * j);
  }

  function HexDigit(d: nat): char
    requires d < 16
  {
    if d < 10 then '0' + d as char else 'a' + (d - 10) as char
  }

  predicate IsHexDigit(c: char) {
    '0' <= c <= '9' || 'a' <= c <= 'f'
  }

  function HexDigitValue(c: char): (d: nat)
    requires IsHexDigit(c)
    ensures d < 16
  {
    if c <= '9' then c as int - '0' as int else c as int - 'a' as int + 10
  }

  /** `n.toString(16)` */
  function Hex(n: nat): (s: string)
    ensures forall i :: 0 <= i < |s| ==> IsHexDigit(s[i])
  {
    if n < 16 then [HexDigit(n)] else Hex(n / 16) + [HexDigit(n % 16)]
  }

  function HexValue(s: string): nat
    requires forall i :: 0 <= i < |s| ==> IsHexDigit(s[i])
  {
    if s == "" then 0 else 16 * HexValue(s[..|s| - 1]) + HexDigitValue(s[|s| - 1])
  }

  function Zeros(n: nat): string {
    seq(n, _ => '0')
  }

  /** `s.padStart(8, '0')` */
  function PadStart8(s: string): string {
    if |s| < 8 then Zeros(8 - |s|) + s else s
  }

  function Pow16(e: nat): nat {
    if e == 0 then 1 else 16 * Pow16(e - 1)
  }

  lemma {:induction false} HexLength(n: nat, e: nat)
    requires e > 0 && n < Pow16(e)
    ensures 1 <= |Hex(n)| <= e
  {
    if n >= 16 {
      assert e > 1 by {
        assert Pow16(0) == 1 && Pow16(1) == 16;
      }
      HexLength(n / 16, e - 1);
    }
  }

  lemma {:induction false} ValueOfHex(n: nat)
    ensures HexValue(Hex(n)) == n
  {
    if n >= 16 {
      ValueOfHex(n / 16);
      assert Hex(n)[..|Hex(n)| - 1] == Hex(n / 16);
    } else {
      assert Hex(n)[..0] == "";
    }
  }

  lemma {:induction false} LeadingZeros(k: nat, s: string)
    requires forall i :: 0 <= i < |s| ==> IsHexDigit(s[i])
    ensures HexValue(Zeros(k) + s) == HexValue(s)
    decreases |s| + k
  {
    var t := Zeros(k) + s;
    if s != "" {
      LeadingZeros(k, s[..|s| - 1]);
      assert t[..|t| - 1] == Zeros(k) + s[..|s| - 1];
    } else if k > 0 {
      LeadingZeros(k - 1, s);
      assert t == Zeros(k) && t[..k - 1] == Zeros(k - 1) + s;
    }
  }

  function Abs(x: int): nat {
    if x < 0 then -x else x
  }

  /** The text of a 32-bit hash. */
  function Text(hash: int): string {
    PadStart8(Hex(Abs(hash)))
  }

  /** Always eight hexadecimal digits, also at -2^31, that read back as the absolute value of the hash. */
  lemma TextIsExact(hash: int)
    requires -TWO_31 <= hash < TWO_31
    ensures var text := Text(hash);
            && |text| == 8
            && (forall i :: 0 <= i < 8 ==> IsHexDigit(text[i]))
            && HexValue(text) == Abs(hash)
  {
    var n := Abs(hash);
    EighthPower();
    HexLength(n, 8);
    ValueOfHex(n);
    LeadingZeros(8 - |Hex(n)|, Hex(n));
  }

  lemma EighthPower()
    ensures Pow16(8) == TWO_32
  {
    assert Pow16(2) == 256;
    assert Pow16(4) == 256 * 256;
    assert Pow16(6) == 256 * 256 * 256;
  }

  /** Hashes and texts say the same up to the sign of the hash. */
  lemma SameText(a: int, b: int)
    requires -TWO_31 <= a < TWO_31 && -TWO_31 <= b < TWO_31
    ensures Text(a) == Text(b) <==> a == b || a == -b
  {
    TextIsExact(a);
    TextIsExact(b);
  }

  method SimpleHash(value: seq<CodeUnit>) returns (text: string)
    ensures text == Text(ToInt32(Polynomial(value)))
    ensures |text| == 8 && forall i :: 0 <= i < 8 ==> IsHexDigit(text[i])
  {
    var hash := 0;
    for i := 0 to |value|
      invariant hash == ToInt32(Polynomial(value[..i]))
    {
      RoundIsExact(hash, Polynomial(value[..i]), value[i]);
      PolynomialOfAppend(value[..i], value[i]);
      assert value[..i + 1] == value[..i] + [value[i]];
      hash := ToInt32(hash * 32) - hash + value[i];
      hash := ToInt32(hash);
    }
    assert value[..|value|] == value;
    text := PadStart8(Hex(Abs(hash)));
    TextIsExact(hash);
  }
}
