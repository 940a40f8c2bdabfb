/** Positional numerals: the digits of a number, their characters, and reading them back. */
module Numerals {

  // The digits of v, most significant first; the digit of zero is 0.
  function Digits(v: nat, base: nat): (ds: seq<nat>)
    requires 2 <= base
    ensures ds != []
  {
    if v < base then [v] else DivPositive(v, base); Digits(v / base, base) + [v % base]
  }

  // What a sequence of digits is worth.
  function Value(ds: seq<nat>, base: nat): nat {
    if ds == [] then 0 else Value(ds[..|ds| - 1], base) * base + ds[|ds| - 1]
  }

  lemma ValueSnoc(ds: seq<nat>, d: nat, base: nat)
    ensures Value(ds + [d], base) == Value(ds, base) * base + d
  {
    assert (ds + [d])[..|ds|] == ds;
  }

  lemma {:induction false} DigitsValue(v: nat, base: nat)
    requires 2 <= base
    ensures Value(Digits(v, base), base) == v
  {
    if v < base {
      ValueSnoc([], v, base);
      assert [] + [v] == [v];
    } else {
      hide Value;
      DivPositive(v, base);
      DigitsValue(v / base, base);
      ValueSnoc(Digits(v / base, base), v % base, base);
      assert v == v / base * base + v % base;
    }
  }

  lemma {:induction false} DigitsForm(v: nat, base: nat)
    requires 2 <= base
    ensures Below(Digits(v, base), base)
    ensures Digits(v, base)[0] == 0 ==> v == 0 && |Digits(v, base)| == 1
  {
    if v >= base {
      DivPositive(v, base);
      DigitsForm(v / base, base);
    }
  }

  /** The digits of v are digits, are worth v, and begin with 0 only if v is 0. */
  lemma DigitsAreCanonical(v: nat, base: nat)
    requires 2 <= base
    ensures Value(Digits(v, base), base) == v
    ensures Below(Digits(v, base), base)
    ensures Digits(v, base)[0] == 0 ==> v == 0 && |Digits(v, base)| == 1
  {
    hide Digits, Value;
    DigitsValue(v, base);
    DigitsForm(v, base);
  }

  lemma DivPositive(v: nat, base: nat)
    requires 2 <= base <= v
    ensures 1 <= v / base < v
  {
    var q := v / base;
    assert v == q * base + v % base;
    MulSigns(q, base);
    MulSigns(q, base - 2);
    assert q * base == q * 2 + q * (base - 2);
  }

  // ---------------------------------------------------------------- characters

  function DigitChar(d: nat, upper: bool): char
    requires d < 16
  {
    if d <= 9 then '0' + d as char else (if upper then 'A' else 'a') + (d - 10) as char
  }

  // The digit a character stands for, or 99.
  function CharDigit(c: char): nat {
    if '0' <= c <= '9' then c as nat - '0' as nat
    else if 'a' <= c <= 'f' then c as nat - 'a' as nat + 10
    else if 'A' <= c <= 'F' then c as nat - 'A' as nat + 10
    else 99
  }

  lemma DigitCharReadsBack(d: nat, upper: bool)
    requires d < 16
    ensures CharDigit(DigitChar(d, upper)) == d && DigitChar(d, upper) != ' ' && DigitChar(d, upper) != '-'
    ensures DigitChar(d, upper) == '0' <==> d == 0
  {
  }

  predicate Below(ds: seq<nat>, b: nat) { forall i :: 0 <= i < |ds| ==> ds[i] < b }

  function Text(ds: seq<nat>, upper: bool): (s: string)
    requires Below(ds, 16)
    ensures |s| == |ds|
  {
    if ds == [] then "" else Text(ds[..|ds| - 1], upper) + [DigitChar(ds[|ds| - 1], upper)]
  }

  lemma {:induction false} TextAt(ds: seq<nat>, upper: bool, i: nat)
    requires Below(ds, 16) && i < |ds|
    ensures Text(ds, upper)[i] == DigitChar(ds[i], upper)
  {
    if i < |ds| - 1 { TextAt(ds[..|ds| - 1], upper, i); }
  }

  // ---------------------------------------------------------------- reading back

  // A number in the given base, as strtol reads it: blanks, a sign, digits.
  function ReadDigits(s: string, base: nat): nat {
    if s == "" then 0 else ReadDigits(s[..|s| - 1], base) * base + CharDigit(s[|s| - 1])
  }

  function ReadSigned(s: string, base: nat): int {
    if s != "" && s[0] == '-' then var n: int := ReadDigits(s[1..], base); -n else ReadDigits(s, base)
  }

  function ReadBack(s: string, base: nat): int {
    if s != "" && s[0] == ' ' then ReadBack(s[1..], base) else ReadSigned(s, base)
  }

  lemma {:induction false} TextReadsBack(ds: seq<nat>, upper: bool, base: nat)
    requires Below(ds, 16)
    ensures ReadDigits(Text(ds, upper), base) == Value(ds, base)
  {
    if ds != [] {
      var front := ds[..|ds| - 1];
      TextReadsBack(front, upper, base);
      DigitCharReadsBack(ds[|ds| - 1], upper);
      assert Text(ds, upper)[..|ds| - 1] == Text(front, upper);
    }
  }

  function Repeat(c: char, n: int): (s: string)
    ensures |s| == if n > 0 then n else 0
  {
    if n <= 0 then "" else [c] + Repeat(c, n - 1)
  }

  lemma {:induction false} LeadingZeros(n: int, s: string, base: nat)
    ensures ReadDigits(Repeat('0', n) + s, base) == ReadDigits(s, base)
    decreases |s|, n
  {
    if s == "" {
      assert Repeat('0', n) + s == Repeat('0', n);
      ZerosAreZero(n, base);
    } else {
      LeadingZeros(n, s[..|s| - 1], base);
      var t := Repeat('0', n) + s;
      assert t[..|t| - 1] == Repeat('0', n) + s[..|s| - 1];
    }
  }

  lemma {:induction false} ZerosAreZero(n: int, base: nat)
    ensures ReadDigits(Repeat('0', n), base) == 0
    decreases n
  {
    if n > 0 {
      ZerosAreZero(n - 1, base);
      AllZero(n);
      assert Repeat('0', n)[..n - 1] == Repeat('0', n - 1) by { AllZero(n - 1); }
    }
  }

  lemma {:induction false} AllZero(n: int)
    ensures forall i :: 0 <= i < |Repeat('0', n)| ==> Repeat('0', n)[i] == '0'
    decreases n
  {
    if n > 0 { AllZero(n - 1); }
  }

  lemma {:induction false} BlanksAreSkipped(n: int, s: string, base: nat)
    ensures ReadBack(Repeat(' ', n) + s, base) == ReadBack(s, base)
    decreases n
  {
    if n > 0 {
      var t := Repeat(' ', n) + s;
      assert t[1..] == Repeat(' ', n - 1) + s;
      BlanksAreSkipped(n - 1, s, base);
    } else {
      assert Repeat(' ', n) + s == s;
    }
  }

  // ---------------------------------------------------------------- powers

  function Pow(base: nat, k: nat): nat { if k == 0 then 1 else base * Pow(base, k - 1) }

  lemma {:induction false} PowPositive(base: nat, k: nat)
    requires 1 <= base
    ensures 1 <= Pow(base, k)
  {
    if k > 0 { PowPositive(base, k - 1); assert 1 * 1 <= base * Pow(base, k - 1); }
  }

  lemma MulSigns(k: int, d: int)
    ensures d >= 0 && k >= 0 ==> k * d >= 0
    ensures d >= 0 && k >= 1 ==> k * d >= d
    ensures d >= 0 && k <= -1 ==> k * d <= -d
    ensures k == 0 ==> k * d == 0
  {
  }

  // Euclidean division is unique.
  lemma DivUnique(x: nat, d: nat, q: nat, r: nat)
    requires 0 < d && r < d && x == q * d + r
    ensures x / d == q && x % d == r
  {
    var q', r' := x / d, x % d;
    assert x == q' * d + r';
    Distribute(q, q', d);
    MulSigns(q - q', d);
  }

  lemma Distribute(a: int, b: int, d: int)
    ensures (a - b) * d == a * d - b * d && (a + b) * d == a * d + b * d
  {
  }

  lemma MulAssoc(a: nat, b: nat, c: nat)
    ensures (a * b) * c == a * (b * c) && a * b == b * a && b * c == c * b
  {
  }

  lemma Regroup(b: nat, p: nat, q: nat, r: nat, q2: nat, r2: nat)
    requires r < b && r2 < p && q == q2 * p + r2
    ensures q * b + r == q2 * (b * p) + (r2 * b + r)
    ensures 0 <= r2 * b && r2 * b + r < b * p
  {
    Distribute(q2 * p, r2, b);
    MulAssoc(q2, p, b);
    MulSigns(p - 1 - r2, b);
    MulSigns(r2, b);
    Distribute(p - 1, r2, b);
    Distribute(p, 1, b);
  }

  // Dividing twice is dividing by the product, and the remainders fit together.
  lemma DivDiv(v: nat, b: nat, p: nat)
    requires 0 < b && 0 < p
    ensures 0 < b * p
    ensures v / (b * p) == v / b / p
    ensures v % (b * p) == (v / b % p) * b + v % b
  {
    MulSigns(b, p);
    Regroup(b, p, v / b, v % b, v / b / p, v / b % p);
    DivUnique(v, b * p, v / b / p, (v / b % p) * b + v % b);
  }
}
