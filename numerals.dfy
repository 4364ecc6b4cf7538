/**
 * Decimal and binary numerals as text: Python's `str.isdigit`, modelled on ASCII digits only,
 * `int(...)` on a digit string, `f'{n}'` and the `b` format with zero padding.
 */
module Numerals {

  predicate IsDigit(c: char) {
    '0' <= c <= '9'
  }

  /** `s.isdigit()`, on ASCII: non-empty and made of the digits `0` to `9` only. */
  predicate IsDecimal(s: string) {
    |s| > 0 && forall i :: 0 <= i < |s| ==> IsDigit(s[i])
  }

  function DigitChar(d: nat): (c: char)
    requires d < 10
    ensures IsDigit(c) && c as int - '0' as int == d
  {
    ('0' as int + d) as char
  }

  /** `int(s)` for a string of decimal digits (leading zeros allowed). */
  function DecimalValue(s: string): nat
    requires forall i :: 0 <= i < |s| ==> IsDigit(s[i])
  {
    if s == [] then 0
    else
      assert IsDigit(s[|s| - 1]);
      10 * DecimalValue(s[..|s| - 1]) + (s[|s| - 1] as int - '0' as int)
  }

  /** `f'{n}'`: the decimal numeral of `n`, without leading zeros. */
  function DecimalString(n: nat): (r: string)
    ensures IsDecimal(r)
    ensures DecimalValue(r) == n
    ensures |r| > 1 ==> r[0] != '0'
    decreases n
  {
    if n < 10 then [DigitChar(n)]
    else
      var p := DecimalString(n / 10);
      var r := p + [DigitChar(n % 10)];
      assert r[..|r| - 1] == p;
      r
  }

  function Pow2(k: nat): (r: nat)
    ensures r >= 1
  {
    if k == 0 then 1 else 2 * Pow2(k - 1)
  }

  lemma {:induction false} Pow2Monotonic(j: nat, k: nat)
    requires j <= k
    ensures Pow2(j) <= Pow2(k)
    decreases k
  {
    if j < k {
      Pow2Monotonic(j, k - 1);
    }
  }

  predicate IsBits(s: string) {
    forall i :: 0 <= i < |s| ==> s[i] == '0' || s[i] == '1'
  }

  /** The number a string of binary digits denotes, most significant digit first. */
  function BitsValue(s: string): nat
    requires IsBits(s)
  {
    if s == [] then 0
    else 2 * BitsValue(s[..|s| - 1]) + (if s[|s| - 1] == '1' then 1 else 0)
  }

  /** `format(n, 'b')`: the shortest binary numeral of `n`. */
  function Binary(n: nat): string
    decreases n
  {
    if n < 2 then [if n == 0 then '0' else '1']
    else Binary(n / 2) + [if n % 2 == 0 then '0' else '1']
  }

  /** The digits denote `n`, and there are just enough of them: no leading zero. */
  lemma {:induction false} BinarySpec(n: nat)
    ensures |Binary(n)| >= 1 && IsBits(Binary(n))
    ensures BitsValue(Binary(n)) == n
    ensures n < Pow2(|Binary(n)|)
    ensures |Binary(n)| > 1 ==> Pow2(|Binary(n)| - 1) <= n
    decreases n
  {
    if n >= 2 {
      BinarySpec(n / 2);
      var p := Binary(n / 2);
      var r := Binary(n);
      assert r[..|r| - 1] == p;
    }
  }

  function Zeros(k: nat): (r: string)
    ensures |r| == k && IsBits(r)
    ensures forall i :: 0 <= i < k ==> r[i] == '0'
  {
    if k == 0 then [] else Zeros(k - 1) + ['0']
  }

  /** The `0<width>` part of a format spec: pad on the left with zeros, never truncate. */
  function PadLeft(s: string, width: nat): string {
    if |s| < width then Zeros(width - |s|) + s else s
  }

  lemma {:induction false} LeadingZerosValue(k: nat, s: string)
    requires IsBits(s)
    ensures IsBits(Zeros(k) + s)
    ensures BitsValue(Zeros(k) + s) == BitsValue(s)
    decreases |s|
  {
    if s == [] {
      assert Zeros(k) + s == Zeros(k);
      ZerosValue(k);
    } else {
      var t := Zeros(k) + s;
      assert t[..|t| - 1] == Zeros(k) + s[..|s| - 1];
      LeadingZerosValue(k, s[..|s| - 1]);
    }
  }

  lemma {:induction false} ZerosValue(k: nat)
    ensures BitsValue(Zeros(k)) == 0
  {
    if k > 0 {
      assert Zeros(k)[..k - 1] == Zeros(k - 1);
      ZerosValue(k - 1);
    }
  }

  /** `f'{n:015b}'`: zero-padded to at least 15 binary digits. */
  function Binary15(n: nat): string {
    PadLeft(Binary(n), 15)
  }

  /** From `2^15` on the numeral is already wider than 15 digits, so nothing is padded. */
  lemma Binary15Unpadded(n: nat)
    ensures n >= Pow2(15) ==> |Binary(n)| > 15 && Binary15(n) == Binary(n)
  {
    BinarySpec(n);
    if |Binary(n)| <= 15 {
      Pow2Monotonic(|Binary(n)|, 15);
    }
  }

  /**
   * Fifteen digits exactly when `n` fits in 15 bits, and the digits denote `n`;
   * otherwise no padding at all, just the plain binary digits of `n` (Python widens
   * instead of failing).
   */
  lemma Binary15Spec(n: nat)
    ensures IsBits(Binary15(n)) && BitsValue(Binary15(n)) == n
    ensures n < Pow2(15) <==> |Binary15(n)| == 15
    ensures |Binary15(n)| >= 15
    ensures n >= Pow2(15) ==> Binary15(n) == Binary(n)
  {
    var b := Binary(n);
    BinarySpec(n);
    Binary15Unpadded(n);
    if |b| < 15 {
      assert Binary15(n) == Zeros(15 - |b|) + b;
      LeadingZerosValue(15 - |b|, b);
      Pow2Monotonic(|b|, 15);
    } else {
      assert Binary15(n) == b;
      if |b| > 15 {
        Pow2Monotonic(15, |b| - 1);
      }
    }
  }
}
