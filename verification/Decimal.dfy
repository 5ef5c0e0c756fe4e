/** Decimal numerals: `%d`, `{}` and `{:0width$}` on the way out, digit runs on the way in. */
module Decimal {
  predicate IsDigit(c: char) { '0' <= c <= '9' }

  predicate AllDigits(s: string) { forall i :: 0 <= i < |s| ==> IsDigit(s[i]) }

  function DigitOf(c: char): nat
    requires IsDigit(c)
  {
    c as int - '0' as int
  }

  function CharOf(d: nat): char
    requires d < 10
  {
    ('0' as int + d) as char
  }

  function Print(n: nat): (s: string)
    ensures s != [] && AllDigits(s)
  {
    (if n < 10 then [] else Print(n / 10)) + [CharOf(n % 10)]
  }

  function Value(s: string): nat
    requires AllDigits(s)
  {
    if s == [] then 0 else 10 * Value(s[..|s| - 1]) + DigitOf(s[|s| - 1])
  }

  lemma {:induction false} PrintReadsBack(n: nat)
    ensures Value(Print(n)) == n
  {
    var s := Print(n);
    if n >= 10 {
      PrintReadsBack(n / 10);
      assert s[..|s| - 1] == Print(n / 10);
    }
  }

  function Pow10(k: nat): nat { if k == 0 then 1 else 10 * Pow10(k - 1) }

  /** A numeral has as many digits as its magnitude asks for. */
  lemma {:induction false} PrintLength(n: nat, k: nat)
    requires 1 <= k
    ensures |Print(n)| <= k <==> n < Pow10(k)
  {
    if k == 1 {
      assert Pow10(1) == 10;
    } else if n >= 10 {
      PrintLength(n / 10, k - 1);
    } else {
      PowGrows(k);
    }
  }

  lemma {:induction false} PowGrows(k: nat)
    requires 1 <= k
    ensures Pow10(k) >= 10
  {
    if k > 1 { PowGrows(k - 1); }
  }

  function Zeros(k: nat): (s: string)
    ensures |s| == k && AllDigits(s)
  {
    if k == 0 then "" else "0" + Zeros(k - 1)
  }

  /** `{:0width$}` */
  function PrintPadded(n: nat, width: nat): (s: string)
    ensures AllDigits(s) && s != [] && |s| >= width
  {
    var s := Print(n);
    Zeros(if |s| < width then width - |s| else 0) + s
  }

  lemma {:induction false} LeadingZeros(k: nat, s: string)
    requires AllDigits(s)
    ensures Value(Zeros(k) + s) == Value(s)
    decreases |s|, k
  {
    var t := Zeros(k) + s;
    if s != [] {
      LeadingZeros(k, s[..|s| - 1]);
      assert t[..|t| - 1] == Zeros(k) + s[..|s| - 1];
    } else if k > 0 {
      ZerosSnoc(k - 1);
      LeadingZeros(k - 1, []);
      assert t[..|t| - 1] == Zeros(k - 1) + [];
    }
  }

  lemma {:induction false} ZerosSnoc(k: nat)
    ensures Zeros(k + 1) == Zeros(k) + "0"
  {
    if k > 0 { ZerosSnoc(k - 1); }
  }

  /** Padding never changes the number read back, so padded numerals of one width are distinct. */
  lemma PaddedReadsBack(n: nat, width: nat)
    ensures Value(PrintPadded(n, width)) == n
  {
    PrintReadsBack(n);
    var s := Print(n);
    LeadingZeros(if |s| < width then width - |s| else 0, s);
  }

  lemma PaddedLength(n: nat, width: nat)
    requires |Print(n)| <= width
    ensures |PrintPadded(n, width)| == width
  {
    hide Print;
  }

  lemma LongerIsLarger(n: nat, m: nat)
    requires n <= m
    ensures |Print(n)| <= |Print(m)|
  {
    hide Print, Pow10;
    PrintLength(m, |Print(m)|);
    PrintLength(n, |Print(m)|);
  }
}
