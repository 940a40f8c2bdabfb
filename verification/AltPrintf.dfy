/** The small printf: its %x works on the bits of a word, by shift and mask. Wherever both printfs accept a format they
    print the same. */
module AltPrintf {
  import opened Words
  import opened Numerals
  import opened LogPrintf
  import opened LogFormat

  // ---------------------------------------------------------------- the bits of a word

  // 0xF << shift
  function Mask(shift: int): bv32 {
    match shift
    case 0 => 0xF
    case 4 => 0xF0
    case 8 => 0xF00
    case 12 => 0xF000
    case 16 => 0xF_0000
    case 20 => 0xF0_0000
    case 24 => 0xF00_0000
    case 28 => 0xF000_0000
    case _ => 0
  }

  // v >> shift
  function ShiftRight(v: bv32, shift: int): bv32 {
    match shift
    case 4 => v >> 4
    case 8 => v >> 8
    case 12 => v >> 12
    case 16 => v >> 16
    case 20 => v >> 20
    case 24 => v >> 24
    case 28 => v >> 28
    case _ => v
  }

  // v & (0xF << shift)
  function Masked(v: bv32, shift: int): bv32 { v & Mask(shift) }

  // The masked bits, shifted down.
  function Low(v: bv32, shift: int): (d: bv4)
    requires 0 <= shift <= 28 && shift % 4 == 0
  {
    LowFits(v, shift);
    ShiftRight(Masked(v, shift), shift) as bv4
  }

  lemma LowFits(v: bv32, shift: int)
    requires 0 <= shift <= 28 && shift % 4 == 0
    ensures ShiftRight(Masked(v, shift), shift) < 16
    ensures ShiftRight(Masked(v, shift), shift) == 0 <==> Masked(v, shift) == 0
  {
  }

  lemma LowZero(v: bv32, shift: int)
    requires 0 <= shift <= 28 && shift % 4 == 0
    ensures Low(v, shift) == 0 <==> Masked(v, shift) == 0
  {
    LowFits(v, shift);
    hide Masked, ShiftRight;
  }

  function Small(d: bv4): (n: nat)
    ensures n < 16 && (n == 0 <==> d == 0)
  {
    d as nat
  }

  // The hexadecimal digit number k of v, counted from the right.
  function Nibble(v: bv32, k: nat): (d: nat)
    ensures d < 16
  {
    if k < 8 then Small(Low(v, 4 * k)) else 0
  }

  lemma NibbleZero(v: bv32, k: nat)
    requires k < 8
    ensures Nibble(v, k) == 0 <==> Masked(v, 4 * k) == 0
  {
    hide Masked, Low, Small;
    LowZero(v, 4 * k);
  }

  lemma MaskedZero(v: bv32)
    requires Masked(v, 0) == 0 && Masked(v, 4) == 0 && Masked(v, 8) == 0 && Masked(v, 12) == 0
    requires Masked(v, 16) == 0 && Masked(v, 20) == 0 && Masked(v, 24) == 0 && Masked(v, 28) == 0
    ensures v == 0
  {
  }

  // A word whose digits are all zero is zero.
  lemma NibblesZero(v: bv32)
    ensures (forall k: nat :: k < 8 ==> Nibble(v, k) == 0) ==> v == 0
  {
    if forall k: nat :: k < 8 ==> Nibble(v, k) == 0 {
      hide Masked, Nibble;
      NibbleZero(v, 0);
      NibbleZero(v, 1);
      NibbleZero(v, 2);
      NibbleZero(v, 3);
      NibbleZero(v, 4);
      NibbleZero(v, 5);
      NibbleZero(v, 6);
      NibbleZero(v, 7);
      MaskedZero(v);
    }
  }

  // What n digits are worth, from digit j up.
  function Worth(v: bv32, j: nat, n: nat): nat
    decreases n
  {
    if n == 0 then 0 else Nibble(v, j) + 16 * Worth(v, j + 1, n - 1)
  }

  // The number a word of bits stands for.
  function Number(v: bv32): (w: Word) {
    WorthBelow(v, 0, 8);
    assert Pow(16, 8) == 0x1_0000_0000 by { Pow16(); }
    Worth(v, 0, 8)
  }

  lemma Pow16()
    ensures Pow(16, 8) == 0x1_0000_0000
  {
    assert Pow(16, 2) == 0x100;
    assert Pow(16, 4) == 0x1_0000;
    assert Pow(16, 6) == 0x100_0000;
  }

  lemma {:induction false} WorthBelow(v: bv32, j: nat, n: nat)
    ensures Worth(v, j, n) < Pow(16, n)
    decreases n
  {
    if n > 0 { WorthBelow(v, j + 1, n - 1); }
  }

  // ---------------------------------------------------------------- that Number is the unsigned value

  // The bits of v below the shift are all ones, so that adding 1 carries into the digit there.
  predicate Carries(v: bv32, shift: int) {
    match shift
    case 4 => v & 0xF == 0xF
    case 8 => v & 0xFF == 0xFF
    case 12 => v & 0xFFF == 0xFFF
    case 16 => v & 0xFFFF == 0xFFFF
    case 20 => v & 0xF_FFFF == 0xF_FFFF
    case 24 => v & 0xFF_FFFF == 0xFF_FFFF
    case 28 => v & 0xFFF_FFFF == 0xFFF_FFFF
    case 32 => v == 0xFFFF_FFFF
    case _ => true
  }

  // What adding 1 does to the digit at a shift, and to the carry out of it.
  predicate Counts(v: bv32, shift: int)
    requires 0 <= shift <= 28 && shift % 4 == 0
  {
    && Low(v + 1, shift) == (if Carries(v, shift) then Low(v, shift) + 1 else Low(v, shift))
    && (Carries(v, shift + 4) <==> Carries(v, shift) && Low(v, shift) == 15)
  }

  lemma LowSuccessor0(v: bv32)
    ensures Counts(v, 0)
  {
  }

  lemma LowSuccessor4(v: bv32)
    ensures Counts(v, 4)
  {
  }

  lemma LowSuccessor8(v: bv32)
    ensures Counts(v, 8)
  {
  }

  lemma LowSuccessor12(v: bv32)
    ensures Counts(v, 12)
  {
  }

  lemma LowSuccessor16(v: bv32)
    ensures Counts(v, 16)
  {
  }

  lemma LowSuccessor20(v: bv32)
    ensures Counts(v, 20)
  {
  }

  lemma LowSuccessor24(v: bv32)
    ensures Counts(v, 24)
  {
  }

  lemma LowSuccessor28(v: bv32)
    ensures Counts(v, 28)
  {
  }

  lemma LowSuccessor(v: bv32, shift: int)
    requires 0 <= shift <= 28 && shift % 4 == 0
    ensures Counts(v, shift)
  {
    hide Counts;
    match shift
    case 0 => LowSuccessor0(v);
    case 4 => LowSuccessor4(v);
    case 8 => LowSuccessor8(v);
    case 12 => LowSuccessor12(v);
    case 16 => LowSuccessor16(v);
    case 20 => LowSuccessor20(v);
    case 24 => LowSuccessor24(v);
    case 28 => LowSuccessor28(v);
    case _ =>
  }

  lemma SmallSuccessor(d: bv4)
    ensures Small(d + 1) == if d == 15 then 0 else Small(d) + 1
    ensures Small(d) == 15 <==> d == 15
  {
  }

  lemma NibbleSuccessor(v: bv32, k: nat)
    requires k < 8
    ensures Nibble(v + 1, k) + (if Carries(v, 4 * (k + 1)) then 16 else 0)
         == Nibble(v, k) + if Carries(v, 4 * k) then 1 else 0
  {
    hide Low, Small, Carries;
    LowSuccessor(v, 4 * k);
    SmallSuccessor(Low(v, 4 * k));
  }

  lemma {:induction false} WorthSuccessor(v: bv32, j: nat, n: nat)
    requires j + n <= 8
    ensures Worth(v + 1, j, n) + (if Carries(v, 4 * (j + n)) then Pow(16, n) else 0)
         == Worth(v, j, n) + if Carries(v, 4 * j) then 1 else 0
    decreases n
  {
    hide Nibble, Carries;
    if n > 0 {
      WorthSuccessor(v, j + 1, n - 1);
      NibbleSuccessor(v, j);
    }
  }

  lemma CarryEnds(v: bv32)
    ensures Carries(v, 0)
    ensures Carries(v, 32) <==> v == 0xFFFF_FFFF
  {
  }

  lemma NumberSuccessor(v: bv32)
    ensures Number(v + 1) + (if v == 0xFFFF_FFFF then WRAP else 0) == Number(v) + 1
  {
    hide Worth, Pow, Carries;
    WorthSuccessor(v, 0, 8);
    Pow16();
    CarryEnds(v);
  }

  /** Number is the unsigned value of the word: it is 0 of zero, and one more for every step up to the word of all ones. */
  lemma NumberCounts(v: bv32)
    ensures Number(0) == 0
    ensures Number(v + 1) == if v == 0xFFFF_FFFF then 0 else Number(v) + 1
    ensures Number(0xFFFF_FFFF) == WRAP - 1
  {
    hide Number;
    var ones: bv32 := 0xFFFF_FFFF;
    assert ones + 1 == 0;
    ZeroNumeral();
    NumberSuccessor(v);
    NumberSuccessor(ones);
  }

  /** Every 32-bit number is the number of a word. */
  lemma {:induction false} EveryNumber(w: Word) returns (v: bv32)
    ensures Number(v) == w
    decreases w
  {
    hide Number;
    NumberCounts(0);
    if w == 0 {
      v := 0;
    } else {
      var u := EveryNumber(w - 1);
      NumberCounts(u);
      v := u + 1;
    }
  }

  lemma {:induction false} SameWorth(u: bv32, v: bv32, j: nat, n: nat, k: nat)
    requires Worth(u, j, n) == Worth(v, j, n) && j <= k < j + n
    ensures Nibble(u, k) == Nibble(v, k)
    decreases n
  {
    hide Nibble;
    assert Nibble(u, j) == Worth(u, j, n) % 16 && Nibble(v, j) == Worth(v, j, n) % 16;
    if j < k { SameWorth(u, v, j + 1, n - 1, k); }
  }

  lemma SameSmall(d: bv4, e: bv4)
    requires Small(d) == Small(e)
    ensures d == e
  {
  }

  lemma SameLow(u: bv32, v: bv32)
    requires Low(u, 0) == Low(v, 0) && Low(u, 4) == Low(v, 4) && Low(u, 8) == Low(v, 8) && Low(u, 12) == Low(v, 12)
    requires Low(u, 16) == Low(v, 16) && Low(u, 20) == Low(v, 20) && Low(u, 24) == Low(v, 24) && Low(u, 28) == Low(v, 28)
    ensures u == v
  {
  }

  /** No two words have the same number. */
  lemma NumberIsInjective(u: bv32, v: bv32)
    requires Number(u) == Number(v)
    ensures u == v
  {
    hide Low, Small;
    forall k: nat | k < 8 ensures Low(u, 4 * k) == Low(v, 4 * k) {
      SameWorth(u, v, 0, 8, k);
      SameSmall(Low(u, 4 * k), Low(v, 4 * k));
    }
    assert Low(u, 4 * 0) == Low(v, 4 * 0) && Low(u, 4 * 1) == Low(v, 4 * 1);
    assert Low(u, 4 * 2) == Low(v, 4 * 2) && Low(u, 4 * 3) == Low(v, 4 * 3);
    assert Low(u, 4 * 4) == Low(v, 4 * 4) && Low(u, 4 * 5) == Low(v, 4 * 5);
    assert Low(u, 4 * 6) == Low(v, 4 * 6) && Low(u, 4 * 7) == Low(v, 4 * 7);
    SameLow(u, v);
  }

  // ---------------------------------------------------------------- its digits

  // n digits, the last of them digit j.
  function Nibbles(v: bv32, j: nat, n: nat): (ds: seq<nat>)
    ensures |ds| == n && Below(ds, 16)
    decreases n
  {
    if n == 0 then [] else Nibbles(v, j + 1, n - 1) + [Nibble(v, j)]
  }

  lemma DigitsStep(low: nat, rest: nat)
    requires low < 16 && 1 <= rest
    ensures Digits(low + 16 * rest, 16) == Digits(rest, 16) + [low]
  {
    assert (low + 16 * rest) / 16 == rest && (low + 16 * rest) % 16 == low;
  }

  // Without leading zero, the nibbles are the digits.
  lemma {:induction false} NibblesAreDigits(v: bv32, j: nat, n: nat)
    requires 1 <= n && Nibble(v, j + n - 1) != 0
    ensures 1 <= Worth(v, j, n) && Digits(Worth(v, j, n), 16) == Nibbles(v, j, n)
    decreases n
  {
    hide Nibble;
    if n == 1 {
      assert Worth(v, j + 1, 0) == 0;
      assert Nibbles(v, j + 1, 0) == [];
    } else {
      NibblesAreDigits(v, j + 1, n - 1);
      hide Digits;
      DigitsStep(Nibble(v, j), Worth(v, j + 1, n - 1));
    }
  }

  // Digits that are zero at the top are worth nothing.
  lemma {:induction false} LeadingNibbles(v: bv32, j: nat, n: nat, m: nat)
    requires n <= m && forall k: nat :: j + n <= k < j + m ==> Nibble(v, k) == 0
    ensures Worth(v, j, m) == Worth(v, j, n)
    decreases m
  {
    if n > 0 {
      LeadingNibbles(v, j + 1, n - 1, m - 1);
    } else if m > 0 {
      LeadingNibbles(v, j + 1, 0, m - 1);
    }
  }

  // ---------------------------------------------------------------- %x

  lemma TextSnoc(ds: seq<nat>, d: nat)
    requires Below(ds, 16) && d < 16
    ensures Below(ds + [d], 16) && Text(ds + [d], false) == Text(ds, false) + [DigitChar(d, false)]
  {
    assert (ds + [d])[..|ds|] == ds;
  }

  /** Finds the first digit that is not zero; there is one. */
  method FirstDigit(v: bv32) returns (digit_shift: int)
    requires v != 0
    ensures 0 <= digit_shift <= 28 && digit_shift % 4 == 0 && Nibble(v, digit_shift / 4) != 0
    ensures forall i: nat :: digit_shift / 4 < i < 8 ==> Nibble(v, i) == 0
  {
    NibblesZero(v);
    ghost var k := 7;
    digit_shift := 28;
    NibbleZero(v, 7);
    hide Masked, Nibble;
    while Masked(v, digit_shift) == 0
      invariant 0 <= k < 8 && digit_shift == 4 * k
      invariant forall i: nat :: k < i < 8 ==> Nibble(v, i) == 0
      invariant Nibble(v, k) == 0 <==> Masked(v, digit_shift) == 0
      decreases k
    {
      if k == 0 { assert false; }
      digit_shift, k := digit_shift - 4, k - 1;
      NibbleZero(v, k);
    }
    assert digit_shift / 4 == k;
  }

  // One digit of the word as a character.
  method HexDigit(v: bv32, digit_shift: int, ghost k: nat) returns (c: char)
    requires k < 8 && digit_shift == 4 * k
    ensures c == DigitChar(Nibble(v, k), false)
  {
    hide Low, Small;
    var digit := Small(Low(v, digit_shift));
    if digit <= 9 {
      c := '0' + digit as char;
    } else {
      c := 'a' + (digit - 10) as char;
    }
  }

  /** The %x of the small printf prints the hexadecimal numeral of the word. */
  method PrintHex(v: bv32) returns (out: string)
    ensures out == Numeral(Number(v), 16, false)
  {
    if v == 0 {
      ZeroNumeral();
      return "0";
    }
    var digit_shift := FirstDigit(v);
    ghost var first := digit_shift / 4;
    NumeralIsNibbles(v, first + 1);
    out := PrintFrom(v, digit_shift, first);
  }

  // The n low digits of v above digit k.
  ghost function TopDigits(v: bv32, k: int, n: nat): string
    requires -1 <= k < n
  {
    Text(Nibbles(v, k + 1, n - 1 - k), false)
  }

  // Prints the digits from the given one down.
  method PrintFrom(v: bv32, shift: int, ghost first: nat) returns (out: string)
    requires first < 8 && shift == 4 * first
    ensures out == TopDigits(v, -1, first + 1)
  {
    var digit_shift: int := shift;
    ghost var k: int := first;
    out := "";
    assert TopDigits(v, first, first + 1) == "";
    hide *;
    while digit_shift >= 0
      invariant -1 <= k <= first && digit_shift == 4 * k
      invariant out == TopDigits(v, k, first + 1)
      decreases k
    {
      NibblesSnoc(v, k, first + 1);
      var c := HexDigit(v, digit_shift, k);
      out := out + [c];
      digit_shift, k := digit_shift - 4, k - 1;
    }
  }

  lemma ZeroNumeral()
    ensures Number(0) == 0 && Numeral(0, 16, false) == "0"
  {
    assert Nibble(0, 0) == 0 && Nibble(0, 1) == 0 && Nibble(0, 2) == 0 && Nibble(0, 3) == 0;
    assert Nibble(0, 4) == 0 && Nibble(0, 5) == 0 && Nibble(0, 6) == 0 && Nibble(0, 7) == 0;
    LeadingNibbles(0, 0, 0, 8);
    assert Digits(0, 16) == [0];
    assert Text([0], false) == "0" by { assert [0][..0] == []; }
  }

  lemma NumeralIsNibbles(v: bv32, n: nat)
    requires 1 <= n <= 8 && Nibble(v, n - 1) != 0
    requires forall k: nat :: n <= k < 8 ==> Nibble(v, k) == 0
    ensures Numeral(Number(v), 16, false) == TopDigits(v, -1, n)
  {
    hide Nibble;
    LeadingNibbles(v, 0, n, 8);
    NibblesAreDigits(v, 0, n);
  }

  lemma NibblesSnoc(v: bv32, k: nat, n: nat)
    requires k < n
    ensures TopDigits(v, k - 1, n) == TopDigits(v, k, n) + [DigitChar(Nibble(v, k), false)]
  {
    TextSnoc(Nibbles(v, k + 1, n - 1 - k), Nibble(v, k));
  }

  // ---------------------------------------------------------------- the format loop

  datatype BitArguments = BitArguments(bits: nat -> bv32, memory: Word -> string)
  {
    function Numbers(): Arguments { Arguments(n => Number(bits(n)), memory) }
  }

  // What the letter after a per cent sign prints, and the number of arguments it takes.
  function Shown(letter: char, n: nat, args: BitArguments): string {
    var w := Number(args.bits(n));
    match letter
    case '%' => "%"
    case 'c' => [CharOf(w)]
    case 'x' => Numeral(w, 16, false)
    case 's' => args.memory(w)
    case _ => ""
  }

  function Taken(letter: char): nat { if letter in "cxs" then 1 else 0 }

  /** The meaning of a format string to the small printf: one letter after each per cent sign, and nothing else. */
  function Shows(fmt: string, n: nat, args: BitArguments): string {
    if fmt == "" then ""
    else if fmt[0] != '%' then [fmt[0]] + Shows(fmt[1..], n, args)
    else if |fmt| == 1 then ""
    else Shown(fmt[1], n, args) + Shows(fmt[2..], n + Taken(fmt[1]), args)
  }

  // No directive has modifiers or asks for a conversion that only the logging printf knows.
  predicate Plain(fmt: string) {
    if fmt == "" then true
    else if fmt[0] != '%' then Plain(fmt[1..])
    else |fmt| >= 2 ==> !IsModifier(fmt[1]) && fmt[1] !in "diuoX" && Plain(fmt[2..])
  }

  lemma PlainDirective(letter: char, rest: string, n: nat, args: BitArguments)
    requires !IsModifier(letter) && letter !in "diuoX"
    ensures AfterPercent([letter] + rest, n, args.Numbers())
         == Shown(letter, n, args) + Rendered(rest, n + Taken(letter), args.Numbers())
  {
    var all, logged := [letter] + rest, args.Numbers();
    assert all[0] == letter && all[1..] == rest;
    if letter != '%' {
      LetterRead(false, "", all, n, logged);
      hide Rendered, Number, Directive, IsModifier;
      assert Width("") == -1;
      assert AfterPercent(all, n, logged) == Directive(false, "", all, n, logged);
      PlainConversion(letter, n, args);
    }
  }

  lemma PlainConversion(letter: char, n: nat, args: BitArguments)
    requires letter != '%' && letter !in "diuoX"
    ensures Converted(letter, false, -1, args.Numbers().word(n), args.Numbers().Text(n)) == Shown(letter, n, args)
    ensures Taken(letter) == if TakesArgument(letter) then 1 else 0
  {
    hide Numeral, Number;
    var w := Number(args.bits(n));
    assert Repeat(' ', -1 - |args.memory(w)|) + args.memory(w) == args.memory(w);
    assert Repeat(' ', -2) + [CharOf(w)] == [CharOf(w)];
    var text := Numeral(w, 16, false);
    assert Field(w, false, 16, false, false, -1) == Repeat(' ', -1 - |text| - 0) + "" + text == text;
  }

  /** The two printfs agree on every format whose directives are plain letters that both know, or that neither knows:
      above all, %x by shift and mask prints what %x by division prints. */
  lemma {:induction false} PrintfsAgree(fmt: string, n: nat, args: BitArguments)
    requires Plain(fmt)
    ensures Shows(fmt, n, args) == Rendered(fmt, n, args.Numbers())
    decreases |fmt|
  {
    hide Shown, Directive, IsModifier;
    if fmt != "" && fmt[0] != '%' {
      PrintfsAgree(fmt[1..], n, args);
    } else if |fmt| >= 2 {
      PrintfsAgree(fmt[2..], n + Taken(fmt[1]), args);
      assert fmt[1..] == [fmt[1]] + fmt[2..];
      PlainDirective(fmt[1], fmt[2..], n, args);
    } else if |fmt| == 1 {
      assert fmt[1..] == "";
    }
  }

  /** What each letter prints, and that the rest goes on with the next argument after c, x and s, and with the same one after
      any other: x prints the number in base 16, in small letters without a leading zero; c its low byte; s the string; and a
      letter the small printf does not know, a modifier among them, nothing. */
  lemma LettersShow(letter: char, rest: string, n: nat, args: BitArguments)
    ensures exists out ::
      && Shows("%" + [letter] + rest, n, args) == out + Shows(rest, if letter in "cxs" then n + 1 else n, args)
      && ShownAs(letter, Number(args.bits(n)), args.memory(Number(args.bits(n))), out)
  {
    OneLetter(letter, rest, n, args);
    ShownMeans(letter, n, args);
    hide *;
  }

  lemma OneLetter(letter: char, rest: string, n: nat, args: BitArguments)
    ensures Shows("%" + [letter] + rest, n, args)
         == Shown(letter, n, args) + Shows(rest, if letter in "cxs" then n + 1 else n, args)
  {
    var all := "%" + [letter] + rest;
    assert all[0] == '%' && all[1] == letter && all[2..] == rest;
    hide Shown;
  }

  lemma ShownMeans(letter: char, n: nat, args: BitArguments)
    ensures var w := Number(args.bits(n)); ShownAs(letter, w, args.memory(w), Shown(letter, n, args))
  {
    HexReads(Number(args.bits(n)));
    hide Number, Numeral, ReadBack;
  }

  ghost predicate ShownAs(letter: char, w: Word, text: string, out: string) {
    match letter
    case '%' => out == "%"
    case 'c' => out == [(w % 256) as char]
    case 's' => out == text
    case 'x' =>
      && ReadBack(out, 16) == w && out != "" && out[0] != ' ' && (out[0] == '0' ==> w == 0 && out == "0")
      && forall i :: 0 <= i < |out| ==> !('A' <= out[i] <= 'Z')
    case _ => out == ""
  }

  lemma HexReads(w: Word)
    ensures ShownAs('x', w, "", Numeral(w, 16, false))
  {
    FieldReadsBack(w, false, 16, false, false, -1);
    FieldLength(w, false, 16, false, false, -1);
    HexAlone(w);
    DigitsAreCanonical(w, 16);
    FirstIsDigit(Digits(w, 16), false);
    assert Numeral(w, 16, false)[0] != ' ';
    hide Numeral, ReadBack, Field, Repeat;
    var out := Numeral(w, 16, false);
    forall i | 0 <= i < |out| ensures !('A' <= out[i] <= 'Z') { NumeralCase(w, 16, false, i); }
  }

  lemma HexAlone(w: Word)
    ensures Field(w, false, 16, false, false, -1) == Numeral(w, 16, false) != ""
  {
    var out := Numeral(w, 16, false);
    hide Numeral;
    assert Repeat(' ', -1 - |out|) + "" + out == out;
  }

  // The letter after a per cent sign.
  method ShowLetter(c: char, n: nat, args: BitArguments) returns (out: string, next: nat)
    ensures out == Shown(c, n, args) && next == n + Taken(c)
  {
    hide Number, Numeral, CharOf;
    out, next := "", n;
    if c == '%' {
      out := [c];
    } else if c == 'c' {
      out, next := [CharOf(Number(args.bits(n)))], n + 1;
    } else if c == 'x' {
      out := PrintHex(args.bits(n));
      next := n + 1;
    } else if c == 's' {
      out, next := args.memory(Number(args.bits(n))), n + 1;
    }
  }

  // The loop has printed out and is at position w.
  ghost predicate Showing(out: string, fmt: string, w: nat, n: nat, args: BitArguments) {
    w <= |fmt| && out + Shows(fmt[w..], n, args) == Shows(fmt, 0, args)
  }

  lemma ShowingStarts(fmt: string, args: BitArguments)
    ensures Showing("", fmt, 0, 0, args)
  {
    assert fmt[0..] == fmt && "" + Shows(fmt, 0, args) == Shows(fmt, 0, args);
  }

  lemma ShowingStep(out: string, fmt: string, w: nat, n: nat, args: BitArguments)
    requires Showing(out, fmt, w, n, args) && w < |fmt|
    ensures fmt[w] != '%' ==> Showing(out + [fmt[w]], fmt, w + 1, n, args)
    ensures fmt[w] == '%' && w + 1 < |fmt| ==>
              Showing(out + Shown(fmt[w + 1], n, args), fmt, w + 2, n + Taken(fmt[w + 1]), args)
    ensures fmt[w] == '%' && w + 1 == |fmt| ==> Showing(out, fmt, w + 1, n, args)
  {
    hide Shown;
    var rest := fmt[w..];
    assert rest[0] == fmt[w] && rest[1..] == fmt[w + 1..];
    Assoc(out, [fmt[w]], Shows(fmt[w + 1..], n, args));
    if fmt[w] == '%' && w + 1 < |fmt| {
      assert rest[1] == fmt[w + 1] && rest[2..] == fmt[w + 2..];
      Assoc(out, Shown(fmt[w + 1], n, args), Shows(fmt[w + 2..], n + Taken(fmt[w + 1]), args));
    }
  }

  /** alt_printf: prints exactly what the format string means to it. */
  method Printf(fmt: string, args: BitArguments) returns (out: string)
    ensures out == Shows(fmt, 0, args)
  {
    var w: nat, n: nat := 0, 0;
    out := "";
    ShowingStarts(fmt, args);
    hide Shows, Shown, Taken, Showing;
    while w < |fmt|
      invariant w <= |fmt| && Showing(out, fmt, w, n, args)
    {
      ShowingStep(out, fmt, w, n, args);
      var c := fmt[w];
      w := w + 1;
      if c != '%' {
        out := out + [c];
      } else if w < |fmt| {
        c := fmt[w];
        w := w + 1;
        var text, next := ShowLetter(c, n, args);
        out, n := out + text, next;
      } else {
        break;
      }
    }
    ShowingEnds(out, fmt, n, args);
  }

  lemma ShowingEnds(out: string, fmt: string, n: nat, args: BitArguments)
    ensures Showing(out, fmt, |fmt|, n, args) ==> out == Shows(fmt, 0, args)
  {
    assert fmt[|fmt|..] == "" && out + "" == out;
  }
}
