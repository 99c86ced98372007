/** Go's 64-bit `int` and the decimal conversions of its `strconv` package:
    `strconv.Itoa` (shortest decimal, `-` for negatives) and `strconv.Atoi`
    (optional `+`/`-`, at least one decimal digit, no other characters, and a
    value that fits in 64 bits). */
module GoInt {
  import opened Optional

  const MinInt64: int := -0x8000_0000_0000_0000
  const MaxInt64: int := 0x7FFF_FFFF_FFFF_FFFF
  const Modulus: int := 0x1_0000_0000_0000_0000

  /** The values of a Go `int` on a 64-bit platform. */
  type Int64 = x: int | MinInt64 <= x <= MaxInt64

  /** Two's-complement wrap-around: what a Go `int` holds after an addition
      whose exact value is `x`. */
  function Wrap(x: int): (r: Int64)
    ensures (r - x) % Modulus == 0
    ensures MinInt64 <= x <= MaxInt64 ==> r == x
  {
    (x - MinInt64) % Modulus + MinInt64
  }

  /** Wrapping twice is wrapping once: reducing an intermediate sum does not
      change the final one. */
  lemma WrapAddLeft(a: int, b: int)
    ensures Wrap(Wrap(a) + b) == Wrap(a + b)
  {
    var q := (a - MinInt64) / Modulus;
    assert Wrap(a) + b == a + b - q * Modulus;
    ModuloShift(a + b - MinInt64, q);
  }

  lemma ModuloShift(x: int, q: int)
    ensures (x - q * Modulus) % Modulus == x % Modulus
  {
    var y := x - q * Modulus;
    assert x == (x / Modulus) * Modulus + x % Modulus;
    assert y == (y / Modulus) * Modulus + y % Modulus;
    assert (x % Modulus - y % Modulus) == (y / Modulus + q - x / Modulus) * Modulus;
  }

  // ---------------------------------------------------------------------
  // Decimal digits

  predicate IsDigit(c: char) {
    '0' <= c <= '9'
  }

  predicate AllDigits(s: string) {
    forall i :: 0 <= i < |s| ==> IsDigit(s[i])
  }

  function DigitChar(d: nat): (c: char)
    requires d < 10
    ensures IsDigit(c)
  {
    ('0' as int + d) as char
  }

  /** The value of a string of decimal digits, most significant first;
      leading zeros are allowed and the empty string is worth 0. */
  function DigitsValue(s: string): nat
    requires AllDigits(s)
  {
    if s == [] then 0
    else 10 * DigitsValue(s[..|s| - 1]) + (s[|s| - 1] as int - '0' as int)
  }

  /** The shortest decimal spelling of `n` (no leading zeros; "0" for zero). */
  function NatToDigits(n: nat): (s: string)
    ensures |s| > 0 && AllDigits(s)
    ensures n >= 10 ==> s[0] != '0'
  {
    if n < 10 then [DigitChar(n)]
    else NatToDigits(n / 10) + [DigitChar(n % 10)]
  }

  lemma {:induction false} NatToDigitsValue(n: nat)
    ensures DigitsValue(NatToDigits(n)) == n
  {
    if n >= 10 {
      NatToDigitsValue(n / 10);
      var s := NatToDigits(n);
      assert s[..|s| - 1] == NatToDigits(n / 10);
    }
  }

  function Pow10(k: nat): nat {
    if k == 0 then 1 else 10 * Pow10(k - 1)
  }

  function Zeros(n: nat): (s: string)
    ensures |s| == n && AllDigits(s)
  {
    seq(n, _ => '0')
  }

  /** `s` left-padded with '0' to at least `width` characters. */
  function ZeroPad(s: string, width: nat): (r: string)
    ensures |r| == if |s| >= width then |s| else width
    ensures AllDigits(s) ==> AllDigits(r)
  {
    if |s| >= width then s else Zeros(width - |s|) + s
  }

  /** A string of `k` digits is worth less than 10^k. */
  lemma {:induction false} DigitsValueBound(s: string)
    requires AllDigits(s)
    ensures DigitsValue(s) < Pow10(|s|)
  {
    if s != [] {
      DigitsValueBound(s[..|s| - 1]);
    }
  }

  /** A number below 10^k is spelled with at most k digits. */
  lemma {:induction false} NatToDigitsLength(n: nat, k: nat)
    requires 1 <= k && n < Pow10(k)
    ensures |NatToDigits(n)| <= k
  {
    if n >= 10 {
      NatToDigitsLength(n / 10, k - 1);
    }
  }

  /** Leading zeros do not change the value of a numeral. */
  lemma {:induction false} LeadingZerosValue(z: nat, s: string)
    requires AllDigits(s)
    ensures AllDigits(Zeros(z) + s) && DigitsValue(Zeros(z) + s) == DigitsValue(s)
  {
    if s == [] {
      assert Zeros(z) + s == Zeros(z);
      ZerosValue(z);
    } else {
      var t := Zeros(z) + s;
      assert t[..|t| - 1] == Zeros(z) + s[..|s| - 1];
      LeadingZerosValue(z, s[..|s| - 1]);
    }
  }

  lemma {:induction false} ZerosValue(z: nat)
    ensures DigitsValue(Zeros(z)) == 0
  {
    if z > 0 {
      assert Zeros(z)[..z - 1] == Zeros(z - 1);
      ZerosValue(z - 1);
    }
  }

  /** A numeral worth zero is all zeros. */
  lemma {:induction false} ZeroValueIsZeros(s: string)
    requires AllDigits(s) && DigitsValue(s) == 0
    ensures s == Zeros(|s|)
  {
    if s != [] {
      var p := s[..|s| - 1];
      ZeroValueIsZeros(p);
      assert s == p + [s[|s| - 1]];
    }
  }

  /** A non-empty numeral is the zero-padded shortest spelling of its value:
      re-printing what was read with the same width gives back the text. */
  lemma {:induction false} PaddedSpelling(t: string)
    requires |t| >= 1 && AllDigits(t)
    ensures ZeroPad(NatToDigits(DigitsValue(t)), |t|) == t
  {
    var p := t[..|t| - 1];
    var c := t[|t| - 1];
    var d := c as int - '0' as int;
    assert t == p + [c];
    assert DigitChar(d) == c;
    if DigitsValue(p) == 0 {
      ZeroValueIsZeros(p);
      assert NatToDigits(DigitsValue(t)) == [c];
    } else {
      PaddedSpelling(p);
      var x := NatToDigits(DigitsValue(p));
      assert DigitsValue(t) / 10 == DigitsValue(p);
      assert NatToDigits(DigitsValue(t)) == x + [c];
      assert ZeroPad(x + [c], |t|) == ZeroPad(x, |p|) + [c];
    }
  }

  /** Padding the shortest spelling of `n` and reading it back gives `n`. */
  lemma PaddedValue(n: nat, width: nat)
    ensures AllDigits(ZeroPad(NatToDigits(n), width))
    ensures DigitsValue(ZeroPad(NatToDigits(n), width)) == n
  {
    var s := NatToDigits(n);
    NatToDigitsValue(n);
    if |s| < width {
      LeadingZerosValue(width - |s|, s);
    }
  }

  // ---------------------------------------------------------------------
  // strconv.Itoa and strconv.Atoi

  function Itoa(n: Int64): string {
    if n < 0 then "-" + NatToDigits(-(n as int)) else NatToDigits(n)
  }

  /** The part of `s` after an optional leading sign. */
  function Unsigned(s: string): string {
    if |s| > 0 && (s[0] == '+' || s[0] == '-') then s[1..] else s
  }

  /** `strconv.Atoi`: fails on an empty string, a lone sign, any character
      other than a leading sign and decimal digits, and a value outside the
      64-bit range. */
  function Atoi(s: string): Option<Int64> {
    var digits := Unsigned(s);
    if |digits| == 0 || !AllDigits(digits) then None
    else
      var magnitude: int := DigitsValue(digits);
      var v: int := if s[0] == '-' then -magnitude else magnitude;
      if MinInt64 <= v <= MaxInt64 then Some(v) else None
  }

  /** Atoi reads back every number Itoa writes. */
  lemma AtoiItoa(n: Int64)
    ensures Atoi(Itoa(n)) == Some(n)
  {
    var m: nat := if n < 0 then -(n as int) else n;
    var digits := NatToDigits(m);
    NatToDigitsValue(m);
    var s := Itoa(n);
    if n < 0 {
      assert s == "-" + digits;
      assert s[1..] == digits;
      assert Unsigned(s) == digits;
    } else {
      assert s == digits;
      assert IsDigit(s[0]);
      assert Unsigned(s) == digits;
    }
  }

}
