/** Decimal rendering of non-negative integers, as JavaScript's
    `Number.prototype.toString()` and `String.prototype.padStart(n, "0")`
    produce it, and the reading that inverts it. */
module Decimal {

  predicate IsDigit(c: char) {
    '0' <= c <= '9'
  }

  predicate AllDigits(s: string) {
    forall i :: 0 <= i < |s| ==> IsDigit(s[i])
  }

  function DigitChar(d: nat): (c: char)
    requires d < 10
    ensures IsDigit(c)
  {
    ['0', '1', '2', '3', '4', '5', '6', '7', '8', '9'][d]
  }

  function DigitValue(c: char): nat
    requires IsDigit(c)
  {
    (c as int - '0' as int) as nat
  }

  /** `n.toString()`: the digits of `n`, most significant first, no leading zero. */
  function Show(n: nat): (s: string)
    ensures 1 <= |s|
    ensures AllDigits(s)
    ensures n < 10 <==> |s| == 1
    ensures n < 100 ==> |s| <= 2
  {
    if n < 10 then [DigitChar(n)] else Show(n / 10) + [DigitChar(n % 10)]
  }

  /** The number a string of digits denotes. */
  function Read(s: string): nat
    requires AllDigits(s)
  {
    if s == [] then 0 else Read(s[..|s| - 1]) * 10 + DigitValue(s[|s| - 1])
  }

  /** `s.padStart(2, "0")`. */
  function PadStart2(s: string): (r: string)
    ensures |r| == if |s| >= 2 then |s| else 2
    ensures r[|r| - |s|..] == s
    ensures forall i :: 0 <= i < |r| - |s| ==> r[i] == '0'
  {
    if |s| >= 2 then s else seq(2 - |s|, _ => '0') + s
  }

  /** Reading back what `Show` wrote gives the number. */
  lemma {:induction false} ReadShow(n: nat)
    ensures Read(Show(n)) == n
  {
    if n >= 10 {
      ReadShow(n / 10);
      var s := Show(n);
      assert s[..|s| - 1] == Show(n / 10);
    }
  }

  /** Leading zeros do not change the number read. */
  lemma {:induction false} ReadLeadingZeros(z: nat, s: string)
    requires AllDigits(s)
    ensures AllDigits(seq(z, _ => '0') + s)
    ensures Read(seq(z, _ => '0') + s) == Read(s)
  {
    if s == [] {
      ReadZeros(z);
      assert seq(z, _ => '0') + s == seq(z, _ => '0');
    } else {
      var t := seq(z, _ => '0') + s;
      assert t[..|t| - 1] == seq(z, _ => '0') + s[..|s| - 1];
      ReadLeadingZeros(z, s[..|s| - 1]);
    }
  }

  lemma {:induction false} ReadZeros(z: nat)
    ensures Read(seq(z, _ => '0')) == 0
  {
    if z > 0 {
      assert seq(z, _ => '0')[..z - 1] == seq(z - 1, _ => '0');
      ReadZeros(z - 1);
    }
  }

  /** Padding keeps the number: `Read(PadStart2(s)) == Read(s)`. */
  lemma ReadPadStart2(s: string)
    requires AllDigits(s)
    ensures AllDigits(PadStart2(s)) && Read(PadStart2(s)) == Read(s)
  {
    if |s| < 2 {
      ReadLeadingZeros(2 - |s|, s);
    }
  }
}
