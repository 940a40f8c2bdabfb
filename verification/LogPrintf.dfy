/** The logging printf: integers printed by repeated division, with width, sign and base, and the format state machine
    around it. Characters sent to the UART are collected in a string. */
module LogPrintf {
  import opened Words
  import opened Numerals

  // ---------------------------------------------------------------- what an integer field is

  predicate Negative(w: nat, signed: bool) { signed && w >= SIGN_BIT }

  // The number a 32-bit word stands for.
  function NumberOf(w: nat, signed: bool): int { if Negative(w, signed) then w - WRAP else w }

  function Magnitude(w: nat, signed: bool): nat
    requires w < WRAP
  {
    if Negative(w, signed) then WRAP - w else w
  }

  function Numeral(v: nat, base: nat, upper: bool): (s: string)
    requires 2 <= base <= 16
    ensures |s| == |Digits(v, base)|
  {
    DigitsAreCanonical(v, base);
    Text(Digits(v, base), upper)
  }

  // The sign, the digits, and what fills the field: zeros after the sign, or blanks before it.
  function Field(w: nat, signed: bool, base: nat, upper: bool, zero: bool, width: int): string
    requires w < WRAP && 2 <= base <= 16
  {
    var sign := if Negative(w, signed) then "-" else "";
    var text := Numeral(Magnitude(w, signed), base, upper);
    var pad := width - |text| - |sign|;
    if zero then sign + Repeat('0', pad) + text else Repeat(' ', pad) + sign + text
  }

  /** Round trip: reading a field back gives the number printed, for every 32-bit word, signed or not, in every base, at
      every width. */
  lemma FieldReadsBack(w: nat, signed: bool, base: nat, upper: bool, zero: bool, width: int)
    requires w < WRAP && 2 <= base <= 16
    ensures ReadBack(Field(w, signed, base, upper, zero, width), base) == NumberOf(w, signed)
  {
    hide Digits, Text, ReadDigits, Repeat;
    var v := Magnitude(w, signed);
    var ds, text := Digits(v, base), Numeral(v, base, upper);
    var sign := if Negative(w, signed) then "-" else "";
    var pad := width - |text| - |sign|;
    DigitsAreCanonical(v, base);
    TextReadsBack(ds, upper, base);
    FirstIsDigit(ds, upper);
    if zero {
      ZeroFilled(sign, pad, text, base);
    } else {
      assert Repeat(' ', pad) + sign + text == Repeat(' ', pad) + (sign + text);
      BlanksAreSkipped(pad, sign + text, base);
      if sign == "-" { assert (sign + text)[1..] == text; } else { assert sign + text == text; }
    }
  }

  // Zeros after the sign do not matter.
  lemma ZeroFilled(sign: string, pad: int, text: string, base: nat)
    requires sign == "" || sign == "-"
    requires text != "" && text[0] != ' ' && text[0] != '-'
    ensures ReadBack(sign + Repeat('0', pad) + text, base)
         == if sign == "" then ReadDigits(text, base) as int else -(ReadDigits(text, base) as int)
  {
    hide ReadDigits, Repeat;
    var body := Repeat('0', pad) + text;
    LeadingZeros(pad, text, base);
    ZerosFirst(pad, text);
    assert sign + Repeat('0', pad) + text == sign + body;
    if sign == "-" { assert (sign + body)[1..] == body; } else { assert sign + body == body; }
  }

  lemma FirstIsDigit(ds: seq<nat>, upper: bool)
    requires ds != [] && Below(ds, 16)
    ensures Text(ds, upper)[0] != ' ' && Text(ds, upper)[0] != '-'
    ensures Text(ds, upper)[0] == '0' <==> ds[0] == 0
  {
    TextAt(ds, upper, 0);
    DigitCharReadsBack(ds[0], upper);
  }

  lemma ZerosFirst(n: int, text: string)
    requires text != "" && text[0] != ' ' && text[0] != '-'
    ensures (Repeat('0', n) + text)[0] != ' ' && (Repeat('0', n) + text)[0] != '-'
  {
    AllZero(n);
  }

  /** The field is exactly as long as the longer of the width and the printed number, and the number has no superfluous
      leading digit. */
  lemma FieldLength(w: nat, signed: bool, base: nat, upper: bool, zero: bool, width: int)
    requires w < WRAP && 2 <= base <= 16
    ensures var f := Field(w, signed, base, upper, zero, width);
            var text := Numeral(Magnitude(w, signed), base, upper);
            var full := |text| + if Negative(w, signed) then 1 else 0;
      && |f| == (if width > full then width else full)
      && f[|f| - |text|..] == text
      && (text[0] == '0' ==> w == 0 && text == "0")
  {
    hide Digits, Text;
    var v := Magnitude(w, signed);
    DigitsAreCanonical(v, base);
    FirstIsDigit(Digits(v, base), upper);
    var text := Numeral(v, base, upper);
    assert text[0] == '0' ==> text == [text[0]];
  }

  // A number laid out in a field: so many zeros after the sign, or blanks before it, and no superfluous leading digit.
  ghost predicate Laid(out: string, base: nat, v: int, zero: bool, width: int, fill: nat) {
    var sign := if v < 0 then 1 else 0;
    var at := if zero then sign else 0;
    && ReadBack(out, base) == v
    && sign + fill < |out| && (fill == 0 || |out| == width) && width <= |out|
    && (forall i :: at <= i < at + fill ==> out[i] == if zero then '0' else ' ')
    && (v < 0 ==> out[if zero then 0 else fill] == '-')
    && (out[sign + fill] == '0' ==> v == 0 && |out| == 1 + fill)
  }

  /** The field of a word lays out the number the word stands for. */
  lemma FieldIsLaid(w: nat, signed: bool, base: nat, upper: bool, zero: bool, width: int)
    requires w < WRAP && 2 <= base <= 16
    ensures exists fill: nat :: Laid(Field(w, signed, base, upper, zero, width), base, NumberOf(w, signed), zero, width, fill)
  {
    var sign := if Negative(w, signed) then "-" else "";
    var text := Numeral(Magnitude(w, signed), base, upper);
    var pad := width - |text| - |sign|;
    var fill: nat := if pad > 0 then pad else 0;
    assert sign == if NumberOf(w, signed) < 0 then "-" else "";
    FieldReadsBack(w, signed, base, upper, zero, width);
    FieldLength(w, signed, base, upper, zero, width);
    hide Numeral, Repeat, ReadBack, Laid, NumberOf, Magnitude, Negative;
    if zero {
      ZerosAreLaid(sign, pad, text, base, NumberOf(w, signed), width);
    } else {
      BlanksAreLaid(sign, pad, text, base, NumberOf(w, signed), width);
    }
    assert Laid(Field(w, signed, base, upper, zero, width), base, NumberOf(w, signed), zero, width, fill);
  }

  lemma ZerosAreLaid(sign: string, pad: int, text: string, base: nat, v: int, width: int)
    requires sign == (if v < 0 then "-" else "") && pad == width - |text| - |sign|
    requires text != "" && (text[0] == '0' ==> v == 0 && text == "0")
    requires ReadBack(sign + Repeat('0', pad) + text, base) == v
    ensures Laid(sign + Repeat('0', pad) + text, base, v, true, width, if pad > 0 then pad else 0)
  {
    Filled('0', pad);
    hide Repeat, ReadBack;
  }

  lemma BlanksAreLaid(sign: string, pad: int, text: string, base: nat, v: int, width: int)
    requires sign == (if v < 0 then "-" else "") && pad == width - |text| - |sign|
    requires text != "" && (text[0] == '0' ==> v == 0 && text == "0")
    requires ReadBack(Repeat(' ', pad) + sign + text, base) == v
    ensures Laid(Repeat(' ', pad) + sign + text, base, v, false, width, if pad > 0 then pad else 0)
  {
    Filled(' ', pad);
    hide Repeat, ReadBack;
  }

  lemma {:induction false} Filled(c: char, n: int)
    ensures forall i :: 0 <= i < |Repeat(c, n)| ==> Repeat(c, n)[i] == c
    decreases n
  {
    if n > 0 { Filled(c, n - 1); }
  }

  /** Its letters are capitals only if they are asked for, and then all of them are. */
  lemma FieldCase(w: nat, signed: bool, base: nat, upper: bool, zero: bool, width: int, i: nat)
    requires w < WRAP && 2 <= base <= 16 && i < |Field(w, signed, base, upper, zero, width)|
    ensures NoneOfTheOtherCase(Field(w, signed, base, upper, zero, width)[i], upper)
  {
    var sign := if Negative(w, signed) then "-" else "";
    var v := Magnitude(w, signed);
    var text := Numeral(v, base, upper);
    var pad := width - |text| - |sign|;
    var out := Field(w, signed, base, upper, zero, width);
    var at := |out| - |text|;
    Filled('0', pad);
    Filled(' ', pad);
    hide Repeat, Numeral, Negative, Magnitude;
    if i >= at {
      assert out[i] == text[i - at];
      NumeralCase(v, base, upper, i - at);
    } else if zero {
      assert out[i] == (sign + Repeat('0', pad))[i];
    } else {
      assert out[i] == (Repeat(' ', pad) + sign)[i];
    }
  }

  ghost predicate NoneOfTheOtherCase(c: char, upper: bool) { !(if upper then 'a' <= c <= 'z' else 'A' <= c <= 'Z') }

  lemma NumeralCase(v: nat, base: nat, upper: bool, i: nat)
    requires 2 <= base <= 16 && i < |Numeral(v, base, upper)|
    ensures NoneOfTheOtherCase(Numeral(v, base, upper)[i], upper)
  {
    DigitsAreCanonical(v, base);
    TextAt(Digits(v, base), upper, i);
    DigitCase(Digits(v, base)[i], upper);
  }

  lemma DigitCase(d: nat, upper: bool)
    requires d < 16
    ensures NoneOfTheOtherCase(DigitChar(d, upper), upper)
  {
  }

  // ---------------------------------------------------------------- printing by division

  // Unsigned division and remainder, named so that what follows can be checked without their arithmetic.
  function Quot(v: nat, p: nat): nat
    requires 0 < p
  {
    v / p
  }

  function Rem(v: nat, p: nat): (r: nat)
    requires 0 < p
    ensures r < p
  {
    v % p
  }

  // The k-digit form of v, by dividing by the powers of the base from the top.
  function Padded(v: nat, base: nat, k: nat): (ds: seq<nat>)
    requires 2 <= base
    ensures |ds| == k
    decreases k
  {
    if k == 0 then []
    else
      PowPositive(base, k - 1);
      [Quot(v, Pow(base, k - 1))] + Padded(Rem(v, Pow(base, k - 1)), base, k - 1)
  }

  // The first of k digits, and the last of them, by dividing by the base first.
  lemma TopAndRest(v: nat, base: nat, q: nat)
    requires 2 <= base && 1 <= q
    ensures 0 < base * q
    ensures Quot(v, base * q) == Quot(Quot(v, base), q)
    ensures Quot(Rem(v, base * q), base) == Rem(Quot(v, base), q) && Rem(Rem(v, base * q), base) == Rem(v, base)
  {
    DivDiv(v, base, q);
    DivUnique(v % (base * q), base, v / base % q, v % base);
  }

  lemma OneDigit(v: nat, base: nat)
    requires 2 <= base && v < base
    ensures Quot(v, base) == 0 && Rem(v, base) == v && Padded(v, base, 1) == [v] && Padded(v, base, 0) == []
    ensures Pow(base, 1) == base && Pow(base, 0) == 1
  {
    DivUnique(v, base, 0, v);
    DivUnique(v, 1, v, 0);
    assert Pow(base, 0) == 1;
    assert Padded(Rem(v, 1), base, 0) == [];
  }

  // The last digit, taken off first.
  lemma {:induction false} PaddedSnoc(v: nat, base: nat, k: nat)
    requires 2 <= base && 1 <= k && v < Pow(base, k)
    ensures Quot(v, base) < Pow(base, k - 1)
    ensures Padded(v, base, k) == Padded(Quot(v, base), base, k - 1) + [Rem(v, base)]
    decreases k
  {
    hide Quot, Rem;
    DivBelow(v, base, Pow(base, k - 1));
    if k == 1 {
      assert Pow(base, 1) == base * Pow(base, 0) == base;
      OneDigit(v, base);
      assert Padded(0, base, 0) == [];
    } else {
      var q := Pow(base, k - 2);
      var p := Pow(base, k - 1);
      assert p == base * q;
      PowPositive(base, k - 2);
      TopAndRest(v, base, q);
      PaddedSnoc(Rem(v, p), base, k - 1);
      var top, low := Quot(v, p), Padded(Rem(Quot(v, base), q), base, k - 2);
      assert Padded(v, base, k) == [top] + (low + [Rem(v, base)]);
      assert Padded(Quot(v, base), base, k - 1) == [top] + low;
    }
  }

  lemma DivBelow(v: nat, b: nat, p: nat)
    requires 0 < b && v < b * p
    ensures Quot(v, b) < p
  {
    assert v == v / b * b + v % b;
    Distribute(v / b, p, b);
    MulSigns(v / b - p, b);
    MulAssoc(1, p, b);
  }

  lemma DigitsUnfold(v: nat, base: nat)
    requires 2 <= base
    ensures v < base ==> Digits(v, base) == [v]
    ensures base <= v ==> Quot(v, base) < v && Digits(v, base) == Digits(Quot(v, base), base) + [Rem(v, base)]
  {
    if base <= v { DivPositive(v, base); }
  }

  // The division loop finds the digits, and p is the place value of the first of them.
  lemma {:induction false} DigitsArePadded(v: nat, base: nat)
    requires 2 <= base
    ensures v < Pow(base, |Digits(v, base)|) && Digits(v, base) == Padded(v, base, |Digits(v, base)|)
  {
    DigitsUnfold(v, base);
    hide Digits, Quot, Rem, Padded;
    if v < base {
      OneDigit(v, base);
    } else {
      var n := |Digits(v, base)|;
      DigitsArePadded(Quot(v, base), base);
      assert Pow(base, n) == base * Pow(base, n - 1);
      AboveDiv(v, base, Pow(base, n - 1));
      hide Pow;
      PaddedSnoc(v, base, n);
    }
  }

  lemma AboveDiv(v: nat, b: nat, p: nat)
    requires 0 < b && Quot(v, b) < p
    ensures v < b * p
  {
    assert v == v / b * b + v % b;
    Distribute(p - 1, v / b, b);
    MulSigns(p - 1 - v / b, b);
    Distribute(p, 1, b);
    MulAssoc(1, p, b);
  }

  // alt_log_repchar
  method RepChar(c: char, r0: int) returns (out: string)
    ensures out == Repeat(c, r0)
  {
    out := "";
    var r := r0;
    while r > 0
      invariant out + Repeat(c, r) == Repeat(c, r0)
    {
      assert Repeat(c, r) == [c] + Repeat(c, r - 1);
      out := out + [c];
      r := r - 1;
    }
  }

  // digitCount - 1 digits are counted, p is the place value they are above, and vShrink is what is left above one more.
  ghost predicate Counting(v: nat, base: nat, digitCount: nat, p: nat, vShrink: nat) {
    && 2 <= base && 1 <= digitCount && p == Pow(base, digitCount - 1) && 1 <= p && (p == 1 || p <= v)
    && vShrink == v / p / base
    && digitCount + |Digits(v / p, base)| - 1 == |Digits(v, base)|
  }

  lemma CountingStarts(v: nat, base: nat)
    requires 2 <= base
    ensures Counting(v, base, 1, 1, Quot(v, base))
  {
    assert Pow(base, 0) == 1 && v / 1 == v;
  }

  lemma CountingStep(v: nat, base: nat, digitCount: nat, p: nat, vShrink: nat)
    requires Counting(v, base, digitCount, p, vShrink) && 0 < vShrink
    ensures Counting(v, base, digitCount + 1, p * base, Quot(vShrink, base)) && Quot(vShrink, base) < vShrink
  {
    hide Digits;
    CountStep(v, base, p, v / p);
    MulAssoc(p, base, 1);
    assert Pow(base, digitCount) == base * Pow(base, digitCount - 1);
    DivSmaller(vShrink, base);
  }

  lemma CountingEnds(v: nat, base: nat, digitCount: nat, p: nat)
    requires Counting(v, base, digitCount, p, 0)
    ensures digitCount == |Digits(v, base)| && p == Pow(base, digitCount - 1) && (p == 1 || p <= v)
  {
    ShortOne(v / p, base);
  }

  // Counts the digits of v and finds the largest place value, which never leaves 32 bits.
  method CountDigits(v: nat, base: nat) returns (digitCount: nat, p: nat)
    requires v < WRAP && 2 <= base <= 16
    ensures digitCount == |Digits(v, base)| && p == Pow(base, digitCount - 1) && p < WRAP
  {
    p, digitCount := 1, 1;
    var vShrink: nat := Quot(v, base);
    CountingStarts(v, base);
    hide Counting, Digits, Pow, Quot;
    while vShrink > 0
      invariant Counting(v, base, digitCount, p, vShrink)
      decreases vShrink
    {
      CountingStep(v, base, digitCount, p, vShrink);
      digitCount := digitCount + 1;
      p := p * base;
      vShrink := Quot(vShrink, base);
    }
    CountingEnds(v, base, digitCount, p);
  }

  lemma ShortOne(cur: nat, base: nat)
    requires 2 <= base
    ensures cur / base == 0 ==> |Digits(cur, base)| == 1
  {
    DivUniqueSmall(cur, base);
  }

  lemma DivUniqueSmall(v: nat, b: nat)
    requires 0 < b
    ensures v / b == 0 <==> v < b
  {
    assert v == v / b * b + v % b;
    MulSigns(v / b, b);
  }

  lemma CountStep(v: nat, base: nat, p: nat, cur: nat)
    requires 2 <= base && 0 < p && cur == v / p && cur / base > 0
    ensures 0 < p * base && cur / base == v / (p * base) && p * base <= v
    ensures |Digits(cur, base)| == 1 + |Digits(cur / base, base)|
  {
    DivDiv(v, p, base);
    QuotientFits(v, p * base);
    DivUniqueSmall(cur, base);
  }

  lemma DivSmaller(v: nat, b: nat)
    requires 2 <= b && 0 < v
    ensures v / b < v
  {
    assert v == v / b * b + v % b;
    MulSigns(v / b, b - 2);
    assert v / b * b == v / b * 2 + v / b * (b - 2);
  }

  lemma QuotientFits(v: nat, p: nat)
    requires 0 < p && v / p > 0
    ensures p <= v
  {
    assert v == v / p * p + v % p;
    MulSigns(v / p, p);
  }

  lemma PowDown(base: nat, k: nat)
    requires 2 <= base && 1 <= k
    ensures Pow(base, k - 1) / base == if k == 1 then 0 else Pow(base, k - 2)
  {
    if k > 1 {
      MulAssoc(base, Pow(base, k - 2), 1);
      DivUnique(Pow(base, k - 1), base, Pow(base, k - 2), 0);
    }
  }

  lemma TextCons(d: nat, ds: seq<nat>, upper: bool)
    requires d < 16 && Below(ds, 16)
    ensures Below([d] + ds, 16)
    ensures Text([d] + ds, upper) == [DigitChar(d, upper)] + Text(ds, upper)
  {
    var all := [d] + ds;
    forall i | 0 <= i < |all| ensures Text(all, upper)[i] == ([DigitChar(d, upper)] + Text(ds, upper))[i] {
      TextAt(all, upper, i);
      if i > 0 { TextAt(ds, upper, i - 1); }
    }
  }

  lemma {:induction false} PaddedSmall(v: nat, base: nat, k: nat)
    requires 2 <= base && v < Pow(base, k)
    ensures Below(Padded(v, base, k), base)
    decreases k
  {
    hide Padded, Pow, Quot, Rem;
    if k > 0 {
      PaddedSnoc(v, base, k);
      PaddedSmall(Quot(v, base), base, k - 1);
    }
  }

  // The first digit and what is left, by dividing by the place value.
  lemma PaddedCons(v: nat, base: nat, k: nat, upper: bool)
    requires 2 <= base <= 16 && 1 <= k && v < Pow(base, k)
    ensures var p := Pow(base, k - 1);
      && 0 < p && Quot(v, p) < base && Rem(v, p) < p
      && Below(Padded(v, base, k), 16) && Below(Padded(Rem(v, p), base, k - 1), 16)
      && Text(Padded(v, base, k), upper) == [DigitChar(Quot(v, p), upper)] + Text(Padded(Rem(v, p), base, k - 1), upper)
  {
    hide Pow, Text, Quot, Rem;
    var p := Pow(base, k - 1);
    PowPositive(base, k - 1);
    PaddedSmall(v, base, k);
    PaddedSmall(Rem(v, p), base, k - 1);
    assert Padded(v, base, k) == [Quot(v, p)] + Padded(Rem(v, p), base, k - 1);
    assert Padded(v, base, k)[0] == Quot(v, p);
    hide Padded;
    TextCons(Quot(v, p), Padded(Rem(v, p), base, k - 1), upper);
  }

  // One digit: an offset from '0', moved up to the letters beyond '9'.
  method PrintDigit(d: nat, upper: bool) returns (c: char)
    requires d < 16
    ensures c == DigitChar(d, upper)
  {
    c := '0' + d as char;
    if c > '9' {
      c := c - '0' - 10 as char + (if upper then 'A' else 'a');
    }
  }

  // One pass of the digit loop, on k digits to come.
  lemma DigitStep(v: nat, base: nat, k: nat, p: nat, upper: bool)
    requires 2 <= base <= 16 && 1 <= k && v < Pow(base, k) && p == Pow(base, k - 1)
    ensures 0 < p && Quot(v, p) < 16 && Rem(v, p) < Pow(base, k - 1)
    ensures Quot(p, base) == if k == 1 then 0 else Pow(base, k - 2)
    ensures k > 1 ==> 0 < Pow(base, k - 2)
    ensures Below(Padded(v, base, k), 16) && Below(Padded(Rem(v, p), base, k - 1), 16)
    ensures Text(Padded(v, base, k), upper)
         == [DigitChar(Quot(v, p), upper)] + Text(Padded(Rem(v, p), base, k - 1), upper)
  {
    PaddedCons(v, base, k, upper);
    PowDown(base, k);
    if k > 1 { PowPositive(base, k - 2); }
  }

  // k digits of the whole text are still to come, v is what they are worth, and p the place value of their first.
  ghost predicate Printing(out: string, v: nat, p: nat, k: nat, base: nat, upper: bool, whole: string) {
    && 2 <= base <= 16 && v < Pow(base, k) && p == (if k == 0 then 0 else Pow(base, k - 1)) && (p == 0 <==> k == 0)
    && Below(Padded(v, base, k), 16)
    && out + Text(Padded(v, base, k), upper) == whole
  }

  lemma PrintingStarts(v: nat, base: nat, upper: bool)
    requires 2 <= base <= 16
    ensures var k := |Digits(v, base)|; Printing("", v, Pow(base, k - 1), k, base, upper, Numeral(v, base, upper))
  {
    var k := |Digits(v, base)|;
    DigitsArePadded(v, base);
    PaddedSmall(v, base, k);
    PowPositive(base, k - 1);
    hide Pow, Text, Padded, Digits;
    assert "" + Numeral(v, base, upper) == Numeral(v, base, upper);
  }

  lemma PrintingStep(out: string, v: nat, p: nat, k: nat, base: nat, upper: bool, whole: string)
    requires Printing(out, v, p, k, base, upper, whole) && p != 0
    ensures 1 <= k && 2 <= base && Quot(v, p) < 16
    ensures Printing(out + [DigitChar(Quot(v, p), upper)], Rem(v, p), Quot(p, base), k - 1, base, upper, whole)
  {
    hide Pow, Text, Padded, Digits, Quot, Rem;
    DigitStep(v, base, k, p, upper);
    Append(out, DigitChar(Quot(v, p), upper), Text(Padded(Rem(v, p), base, k - 1), upper));
  }

  lemma PrintingEnds(out: string, v: nat, k: nat, base: nat, upper: bool, whole: string)
    requires Printing(out, v, 0, k, base, upper, whole)
    ensures out == whole
  {
    EmptyText(v, base, upper);
    assert out + "" == out;
  }

  // Prints the digits of v from the place value p down.
  method PrintDigits(v0: nat, base: nat, upper: bool, p0: nat) returns (out: string)
    requires 2 <= base <= 16 && p0 == Pow(base, |Digits(v0, base)| - 1)
    ensures out == Numeral(v0, base, upper)
  {
    out := "";
    var v: nat, p: nat := v0, p0;
    ghost var k: nat := |Digits(v0, base)|;
    PrintingStarts(v0, base, upper);
    hide *;
    while p != 0
      invariant Printing(out, v, p, k, base, upper, Numeral(v0, base, upper))
      decreases k
    {
      PrintingStep(out, v, p, k, base, upper, Numeral(v0, base, upper));
      var c := PrintDigit(Quot(v, p), upper);
      out := out + [c];
      v, p, k := Rem(v, p), Quot(p, base), k - 1;
    }
    PrintingEnds(out, v, k, base, upper, Numeral(v0, base, upper));
  }

  lemma Append(out: string, c: char, rest: string)
    ensures out + ([c] + rest) == out + [c] + rest
  {
  }

  lemma EmptyText(v: nat, base: nat, upper: bool)
    requires 2 <= base
    ensures Below(Padded(v, base, 0), 16) && Text(Padded(v, base, 0), upper) == ""
  {
  }

  // What comes before the digits: the sign, and zeros after it or blanks before it.
  method PrintLead(sign: bool, fmtLeadingZero: bool, room: int) returns (out: string)
    ensures out == if fmtLeadingZero then (if sign then "-" else "") + Repeat('0', if sign then room - 1 else room)
                   else Repeat(' ', if sign then room - 1 else room) + if sign then "-" else ""
  {
    out := "";
    var fmtBeforeDecimal := room;
    if fmtLeadingZero {
      if sign {
        out := out + "-";
        fmtBeforeDecimal := fmtBeforeDecimal - 1;
      }
      var zeros := RepChar('0', fmtBeforeDecimal);
      out := out + zeros;
    } else {
      if sign {
        fmtBeforeDecimal := fmtBeforeDecimal - 1;
      }
      out := RepChar(' ', fmtBeforeDecimal);
      if sign {
        out := out + "-";
      } else {
        assert out + "" == out;
      }
    }
  }

  /** The integer conversions: %d, %i, %u, %o, %x and %X on the word w. */
  method PrintInteger(w: nat, fmtSigned: bool, fmtBase: nat, fmtCase: bool, fmtLeadingZero: bool, width: int)
    returns (out: string)
    requires w < WRAP && 2 <= fmtBase <= 16
    ensures out == Field(w, fmtSigned, fmtBase, fmtCase, fmtLeadingZero, width)
  {
    hide Digits, Text, Repeat;
    var v, sign := w, false;
    if fmtSigned && v >= SIGN_BIT {
      v := (WRAP - 1 - v) + 1;
      sign := true;
    }
    var digitCount, p := CountDigits(v, fmtBase);
    var lead := PrintLead(sign, fmtLeadingZero, width - digitCount);
    var text := PrintDigits(v, fmtBase, fmtCase, p);
    out := lead + text;
  }
}
