/** `Number.prototype.toString(radix)` on non-negative integers, with the
    inverse reading used to state its properties. Base 36 names the shard
    directories of an associative table; base 10 builds the hourly bucket keys. */
module Radix {

  const Digits: string := "0123456789abcdefghijklmnopqrstuvwxyz"

  /** The digit character for d, as `toString` writes it (lower case). */
  function DigitChar(d: nat): (c: char)
    requires d < 36
  {
    Digits[d]
  }

  /** The value of a digit character; characters outside the alphabet read as 0. */
  function DigitValue(c: char): nat
  {
    if '0' <= c <= '9' then c as int - '0' as int
    else if 'a' <= c <= 'z' then c as int - 'a' as int + 10
    else 0
  }

  /** Euclidean division by the radix, as the digit loop uses it. */
  lemma DivModRadix(n: nat, radix: nat)
    requires 2 <= radix
    ensures n == (n / radix) * radix + n % radix
    ensures 0 <= n % radix < radix
    ensures n >= radix ==> 1 <= n / radix < n
  {
  }

  /** Reading a digit character back gives its value. */
  lemma DigitValueOfChar(d: nat)
    requires d < 36
    ensures DigitValue(DigitChar(d)) == d
  {
  }

  /** `n.toString(radix)`: no leading zeros, "0" for zero. */
  function ToRadix(n: nat, radix: nat): (s: string)
    requires 2 <= radix <= 36
    ensures |s| >= 1
    ensures s[0] != '0' || n == 0
    decreases n
  {
    if n < radix then [DigitChar(n)]
    else
      DivModRadix(n, radix);
      ToRadix(n / radix, radix) + [DigitChar(n % radix)]
  }

  /** Every character of the rendering is one of the radix's digits. */
  lemma {:induction false} ToRadixDigits(n: nat, radix: nat)
    requires 2 <= radix <= 36
    ensures forall i | 0 <= i < |ToRadix(n, radix)| :: ToRadix(n, radix)[i] in Digits[..radix]
    decreases n
  {
    if n >= radix {
      DivModRadix(n, radix);
      ToRadixDigits(n / radix, radix);
      var p := ToRadix(n / radix, radix);
      assert ToRadix(n, radix) == p + [DigitChar(n % radix)];
      assert Digits[n % radix] in Digits[..radix];
    }
  }

  /** Reads a digit string back as a number (most significant digit first). */
  function FromRadix(s: string, radix: nat): nat
  {
    if s == [] then 0 else FromRadix(s[..|s| - 1], radix) * radix + DigitValue(s[|s| - 1])
  }

  lemma {:induction false} FromToRadix(n: nat, radix: nat)
    requires 2 <= radix <= 36
    ensures FromRadix(ToRadix(n, radix), radix) == n
    decreases n
  {
    if n < radix {
      DigitValueOfChar(n);
    } else {
      var q, r := n / radix, n % radix;
      DivModRadix(n, radix);
      FromToRadix(q, radix);
      DigitValueOfChar(r);
      FromRadixSnoc(ToRadix(q, radix), DigitChar(r), radix);
    }
  }

  /** Reading one more digit multiplies by the radix and adds its value. */
  lemma FromRadixSnoc(p: string, c: char, radix: nat)
    ensures FromRadix(p + [c], radix) == FromRadix(p, radix) * radix + DigitValue(c)
  {
    assert (p + [c])[..|p|] == p;
  }

  /** Distinct numbers render differently. */
  lemma ToRadixInjective(a: nat, b: nat, radix: nat)
    requires 2 <= radix <= 36
    requires ToRadix(a, radix) == ToRadix(b, radix)
    ensures a == b
  {
    FromToRadix(a, radix);
    FromToRadix(b, radix);
  }

  /** `String(n)` for an integer n: decimal digits, with a leading '-' when negative. */
  function Decimal(n: int): (s: string)
    ensures |s| >= 1
    ensures n >= 0 <==> s[0] != '-'
  {
    if n < 0 then "-" + ToRadix(-n, 10)
    else
      ToRadixDigits(n, 10);
      assert ToRadix(n, 10)[0] in Digits[..10];
      ToRadix(n, 10)
  }

  lemma DecimalInjective(a: int, b: int)
    requires Decimal(a) == Decimal(b)
    ensures a == b
  {
    if a < 0 {
      assert Decimal(a)[1..] == ToRadix(-a, 10);
      assert Decimal(b)[1..] == ToRadix(-b, 10);
      ToRadixInjective(-a, -b, 10);
    } else {
      ToRadixInjective(a, b, 10);
    }
  }
}
