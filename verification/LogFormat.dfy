/** The format state machine of the logging printf, against a directive-by-directive meaning of format strings. */
module LogFormat {
  import opened Words
  import opened Numerals
  import opened LogPrintf

  // An argument is a 32-bit word; as a pointer it stands for the string found at that address.
  datatype Arguments = Arguments(word: nat -> Word, memory: Word -> string)
  {
    function Text(n: nat): string { memory(word(n)) }
  }

  // ---------------------------------------------------------------- what a format string means

  predicate IsModifier(c: char) { '0' <= c <= '9' || c == '.' || c == 'l' }

  // How many characters of s are modifiers before the first that is not.
  function Modifiers(s: string): (m: nat)
    ensures m <= |s|
    ensures m < |s| ==> !IsModifier(s[m])
  {
    if s != "" && IsModifier(s[0]) then 1 + Modifiers(s[1..]) else 0
  }

  // The digits before the first point; an l may stand anywhere.
  function WidthDigits(mods: string): string {
    if mods == "" || mods[0] == '.' then ""
    else if '0' <= mods[0] <= '9' then [mods[0]] + WidthDigits(mods[1..])
    else WidthDigits(mods[1..])
  }

  function Width(mods: string): int {
    if WidthDigits(mods) == "" then -1 else ReadDigits(WidthDigits(mods), 10)
  }

  predicate TakesArgument(letter: char) { letter in "diuoxXcs" }

  // What one directive prints. A letter that is no conversion prints nothing and takes no argument.
  function Converted(letter: char, zero: bool, width: int, w: Word, text: string): string {
    match letter
    case 'd' => Field(w, true, 10, false, zero, width)
    case 'i' => Field(w, true, 10, false, zero, width)
    case 'u' => Field(w, false, 10, false, zero, width)
    case 'o' => Field(w, false, 8, false, zero, width)
    case 'x' => Field(w, false, 16, false, zero, width)
    case 'X' => Field(w, false, 16, true, zero, width)
    case 'c' => Repeat(' ', width - 1) + [CharOf(w)]
    case 's' => Repeat(' ', width - |text|) + text
    case _ => ""
  }

  // The data register takes the low eight bits.
  function CharOf(w: Word): char { (w % 256) as char }

  /** The meaning of a format string whose first argument is number n: text stands for itself, %% for a per cent sign, and
      % with an optional 0, modifiers and a letter for the conversion of the next argument. A directive that the string
      ends in the middle of prints nothing. */
  function Rendered(fmt: string, n: nat, args: Arguments): string
    decreases |fmt|, 0
  {
    if fmt == "" then ""
    else if fmt[0] != '%' then [fmt[0]] + Rendered(fmt[1..], n, args)
    else AfterPercent(fmt[1..], n, args)
  }

  function AfterPercent(rest: string, n: nat, args: Arguments): string
    decreases |rest|, 2
  {
    if rest == "" then ""
    else if rest[0] == '%' then "%" + Rendered(rest[1..], n, args)
    else if rest[0] == '0' then Directive(true, "", rest[1..], n, args)
    else Directive(false, "", rest, n, args)
  }

  // A directive of which the modifiers seen have been read.
  function Directive(zero: bool, seen: string, rest: string, n: nat, args: Arguments): string
    decreases |rest|, 1
  {
    var m := Modifiers(rest);
    if m == |rest| then ""
    else
      Converted(rest[m], zero, Width(seen + rest[..m]), args.word(n), args.Text(n))
      + Rendered(rest[m + 1..], if TakesArgument(rest[m]) then n + 1 else n, args)
  }

  // ---------------------------------------------------------------- what each letter prints

  // What the caller of each letter is promised.
  ghost predicate Means(letter: char, zero: bool, width: int, w: Word, text: string, out: string) {
    match letter
    case 'd' => exists fill: nat :: Laid(out, 10, Signed32(w), zero, width, fill)
    case 'i' => exists fill: nat :: Laid(out, 10, Signed32(w), zero, width, fill)
    case 'u' => exists fill: nat :: Laid(out, 10, w, zero, width, fill)
    case 'o' => exists fill: nat :: Laid(out, 8, w, zero, width, fill)
    case 'x' =>
      && (exists fill: nat :: Laid(out, 16, w, zero, width, fill))
      && forall i :: 0 <= i < |out| ==> !('A' <= out[i] <= 'Z')
    case 'X' =>
      && (exists fill: nat :: Laid(out, 16, w, zero, width, fill))
      && forall i :: 0 <= i < |out| ==> !('a' <= out[i] <= 'z')
    case 'c' =>
      && |out| == (if width > 1 then width else 1)
      && (forall i :: 0 <= i < |out| - 1 ==> out[i] == ' ') && out[|out| - 1] == (w % 256) as char
    case 's' =>
      && |out| == (if width > |text| then width else |text|)
      && (forall i :: 0 <= i < |out| - |text| ==> out[i] == ' ') && out[|out| - |text|..] == text
    case _ => out == ""
  }

  lemma SignedIs(w: Word)
    ensures NumberOf(w, true) == Signed32(w) && NumberOf(w, false) == w
  {
  }

  /** Every letter keeps its promise: d and i print the signed value of the word, u, o, x and X the unsigned one, in their bases,
      laid out in the width; c the low byte and s the string, after blanks; any other letter nothing. */
  lemma LettersMean(letter: char, zero: bool, width: int, w: Word, text: string)
    ensures Means(letter, zero, width, w, text, Converted(letter, zero, width, w, text))
  {
    SignedIs(w);
    Filled(' ', width - 1);
    Filled(' ', width - |text|);
    hide Field, Laid, Repeat, NumberOf, Signed32;
    match letter
    case 'd' => FieldIsLaid(w, true, 10, false, zero, width);
    case 'i' => FieldIsLaid(w, true, 10, false, zero, width);
    case 'u' => FieldIsLaid(w, false, 10, false, zero, width);
    case 'o' => FieldIsLaid(w, false, 8, false, zero, width);
    case 'x' =>
      FieldIsLaid(w, false, 16, false, zero, width);
      var out := Field(w, false, 16, false, zero, width);
      forall i | 0 <= i < |out| ensures !('A' <= out[i] <= 'Z') { FieldCase(w, false, 16, false, zero, width, i); }
    case 'X' =>
      FieldIsLaid(w, false, 16, true, zero, width);
      var out := Field(w, false, 16, true, zero, width);
      forall i | 0 <= i < |out| ensures !('a' <= out[i] <= 'z') { FieldCase(w, false, 16, true, zero, width, i); }
    case 'c' =>
    case 's' =>
    case _ =>
  }

  // A directive: the per cent sign, a 0 or not, modifiers and a letter.
  function DirectiveText(zero: bool, mods: string, letter: char): string {
    (if zero then "%0" else "%") + mods + [letter]
  }

  ghost predicate IsDirective(zero: bool, mods: string, letter: char) {
    && (forall i :: 0 <= i < |mods| ==> IsModifier(mods[i])) && !IsModifier(letter)
    && (!zero ==> if mods == "" then letter != '%' else mods[0] != '0')
  }

  /** What a directive does to the rest of the output: it prints what its letter promises of the next argument, in the width its
      modifiers spell, and the rest goes on with the argument after that, or with the same one if the letter takes none. */
  lemma DirectivePrints(zero: bool, mods: string, letter: char, rest: string, n: nat, args: Arguments)
    ensures IsDirective(zero, mods, letter) ==>
      exists out ::
        && Means(letter, zero, Width(mods), args.word(n), args.Text(n), out)
        && Rendered(DirectiveText(zero, mods, letter) + rest, n, args)
           == out + Rendered(rest, if letter in "diuoxXcs" then n + 1 else n, args)
  {
    if IsDirective(zero, mods, letter) {
      var out := Converted(letter, zero, Width(mods), args.word(n), args.Text(n));
      LettersMean(letter, zero, Width(mods), args.word(n), args.Text(n));
      RenderedDirective(zero, mods, letter, rest, n, args);
    }
  }

  lemma RenderedDirective(zero: bool, mods: string, letter: char, rest: string, n: nat, args: Arguments)
    requires IsDirective(zero, mods, letter)
    ensures Rendered(DirectiveText(zero, mods, letter) + rest, n, args)
         == Converted(letter, zero, Width(mods), args.word(n), args.Text(n))
            + Rendered(rest, if TakesArgument(letter) then n + 1 else n, args)
  {
    DirectiveStarts(zero, mods, letter, rest, n, args);
    DirectiveEnds(zero, mods, letter, rest, n, args);
    hide *;
  }

  lemma DirectiveStarts(zero: bool, mods: string, letter: char, rest: string, n: nat, args: Arguments)
    requires IsDirective(zero, mods, letter)
    ensures Rendered(DirectiveText(zero, mods, letter) + rest, n, args)
         == Directive(zero, "", mods + [letter] + rest, n, args)
  {
    hide Directive;
    var tail := mods + [letter] + rest;
    var all := DirectiveText(zero, mods, letter) + rest;
    assert all[0] == '%' && all[1..] == if zero then "0" + tail else tail;
    assert tail[0] == if mods == "" then letter else mods[0];
    if zero { assert all[1..][1..] == tail; }
  }

  lemma DirectiveEnds(zero: bool, mods: string, letter: char, rest: string, n: nat, args: Arguments)
    requires IsDirective(zero, mods, letter)
    ensures Directive(zero, "", mods + [letter] + rest, n, args)
         == Converted(letter, zero, Width(mods), args.word(n), args.Text(n))
            + Rendered(rest, if TakesArgument(letter) then n + 1 else n, args)
  {
    var tail := mods + [letter] + rest;
    ModifiersAre(mods, [letter] + rest);
    assert tail == mods + ([letter] + rest);
    hide Converted, Width, Modifiers, Rendered;
    assert tail[..|mods|] == mods && tail[|mods|] == letter && tail[|mods| + 1..] == rest && "" + mods == mods;
  }

  lemma {:induction false} ModifiersAre(mods: string, rest: string)
    requires forall i :: 0 <= i < |mods| ==> IsModifier(mods[i])
    requires rest != "" && !IsModifier(rest[0])
    ensures Modifiers(mods + rest) == |mods|
    decreases |mods|
  {
    if mods == "" {
      assert mods + rest == rest;
    } else {
      assert (mods + rest)[1..] == mods[1..] + rest;
      ModifiersAre(mods[1..], rest);
    }
  }

  /** A directive that the string ends in the middle of prints nothing. */
  lemma UnfinishedPrintsNothing(zero: bool, mods: string, n: nat, args: Arguments)
    requires forall i :: 0 <= i < |mods| ==> IsModifier(mods[i])
    requires zero || mods == "" || mods[0] != '0'
    ensures Rendered((if zero then "%0" else "%") + mods, n, args) == ""
  {
    var all := (if zero then "%0" else "%") + mods;
    assert all[0] == '%' && all[1..] == if zero then "0" + mods else mods;
    ModifiersOnly(mods);
    assert Directive(zero, "", mods, n, args) == "";
    hide Directive;
    if zero {
      assert all[1..][1..] == mods;
      assert AfterPercent(all[1..], n, args) == "";
    } else {
      assert AfterPercent(mods, n, args) == "";
    }
  }

  lemma {:induction false} ModifiersOnly(mods: string)
    requires forall i :: 0 <= i < |mods| ==> IsModifier(mods[i])
    ensures Modifiers(mods) == |mods|
  {
    if mods != "" { ModifiersOnly(mods[1..]); }
  }

  /** A decimal numeral spells the width it is the numeral of; no digits spell no width. */
  lemma WidthOfNumeral(v: nat)
    ensures Width(Numeral(v, 10, false)) == v && Width("") == -1
  {
    var ds := Digits(v, 10);
    DigitsAreCanonical(v, 10);
    var text := Text(ds, false);
    forall i | 0 <= i < |text| ensures '0' <= text[i] <= '9' { TextAt(ds, false, i); }
    WidthDigitsAll(text);
    TextReadsBack(ds, false, 10);
    hide Digits, Text, ReadDigits;
  }

  lemma {:induction false} WidthDigitsAll(text: string)
    requires forall i :: 0 <= i < |text| ==> '0' <= text[i] <= '9'
    ensures WidthDigits(text) == text
  {
    if text != "" { WidthDigitsAll(text[1..]); }
  }

  // ---------------------------------------------------------------- quoting

  // The format that doubles every per cent sign.
  function Quoted(s: string): string {
    if s == "" then "" else (if s[0] == '%' then "%%" else [s[0]]) + Quoted(s[1..])
  }

  /** A quoted text followed by any format prints the text and then what the format prints, and takes no argument. */
  lemma {:induction false} QuotedPrintsItself(s: string, fmt: string, n: nat, args: Arguments)
    ensures Rendered(Quoted(s) + fmt, n, args) == s + Rendered(fmt, n, args)
  {
    hide Rendered;
    var rest := Rendered(fmt, n, args);
    if s == "" {
      assert Quoted(s) + fmt == fmt && s + rest == rest;
    } else {
      QuotedPrintsItself(s[1..], fmt, n, args);
      QuotedCharacter(s[0], Quoted(s[1..]) + fmt, n, args);
      assert Quoted(s) == Quoted([s[0]]) + Quoted(s[1..]) && s == [s[0]] + s[1..];
      Assoc(Quoted([s[0]]), Quoted(s[1..]), fmt);
      Assoc([s[0]], s[1..], rest);
    }
  }

  lemma QuotedCharacter(c: char, tail: string, n: nat, args: Arguments)
    ensures Quoted([c]) == if c == '%' then "%%" else [c]
    ensures Rendered(Quoted([c]) + tail, n, args) == [c] + Rendered(tail, n, args)
  {
    assert Quoted([c]) == if c == '%' then "%%" else [c];
    var all := Quoted([c]) + tail;
    if c == '%' {
      assert all[1..] == "%" + tail && all[1..][1..] == tail;
    } else {
      assert all[1..] == tail;
    }
  }

  // ---------------------------------------------------------------- the state machine

  datatype State = Chars | FirstFmtChar | OtherFmtChar

  // What is still to be printed, by the state the machine is in.
  function Remaining(state: State, zero: bool, seen: string, rest: string, n: nat, args: Arguments): string {
    match state
    case Chars => Rendered(rest, n, args)
    case FirstFmtChar => AfterPercent(rest, n, args)
    case OtherFmtChar => Directive(zero, seen, rest, n, args)
  }

  lemma {:induction false} WidthDigitsSnoc(mods: string, c: char)
    ensures WidthDigits(mods + [c])
         == if '.' in mods || !('0' <= c <= '9') then WidthDigits(mods) else WidthDigits(mods) + [c]
  {
    if mods == "" {
      assert mods + [c] == [c];
    } else {
      assert (mods + [c])[1..] == mods[1..] + [c];
      assert mods == [mods[0]] + mods[1..];
      WidthDigitsSnoc(mods[1..], c);
    }
  }

  // Reading one more modifier.
  lemma WidthSnoc(mods: string, c: char)
    ensures Width(mods + [c])
         == if '.' in mods || !('0' <= c <= '9') then Width(mods)
            else (if Width(mods) < 0 then 0 else Width(mods) * 10) + (c as int - '0' as int)
  {
    WidthDigitsSnoc(mods, c);
    var ds := WidthDigits(mods);
    if !('.' in mods) && '0' <= c <= '9' {
      var es := ds + [c];
      assert es[..|es| - 1] == ds && es[|es| - 1] == c;
      assert ReadDigits(es, 10) == ReadDigits(ds, 10) * 10 + CharDigit(c);
    }
  }

  lemma ModifierRead(zero: bool, seen: string, rest: string, n: nat, args: Arguments)
    requires rest != "" && IsModifier(rest[0])
    ensures Directive(zero, seen, rest, n, args) == Directive(zero, seen + [rest[0]], rest[1..], n, args)
  {
    var m := Modifiers(rest[1..]);
    hide Rendered, Converted, Width;
    assert Modifiers(rest) == 1 + m;
    assert seen + rest[..1 + m] == seen + [rest[0]] + rest[1..][..m];
    assert m < |rest[1..]| ==> rest[1 + m + 1..] == rest[1..][m + 1..];
  }

  lemma LetterRead(zero: bool, seen: string, rest: string, n: nat, args: Arguments)
    requires rest != "" && !IsModifier(rest[0])
    ensures Directive(zero, seen, rest, n, args)
         == Converted(rest[0], zero, Width(seen), args.word(n), args.Text(n))
            + Rendered(rest[1..], if TakesArgument(rest[0]) then n + 1 else n, args)
  {
    hide Rendered, Converted, Width;
    assert seen + rest[..0] == seen;
  }

  /** The conversion letters. */
  method Convert(letter: char, fmtLeadingZero: bool, fmtBeforeDecimal: int, n: nat, args: Arguments)
    returns (out: string, next: nat)
    ensures out == Converted(letter, fmtLeadingZero, fmtBeforeDecimal, args.word(n), args.Text(n))
    ensures Means(letter, fmtLeadingZero, fmtBeforeDecimal, args.word(n), args.Text(n), out)
    ensures next == if letter in "diuoxXcs" then n + 1 else n
  {
    LettersMean(letter, fmtLeadingZero, fmtBeforeDecimal, args.word(n), args.Text(n));
    hide Field, Means;
    var fmtSigned, fmtBase, fmtCase := true, 10, false;
    out, next := "", n;
    match letter {
      case 'd' =>
      case 'i' =>
      case 'u' => fmtSigned := false;
      case 'o' => fmtSigned, fmtBase := false, 8;
      case 'x' => fmtSigned, fmtBase := false, 16;
      case 'X' => fmtSigned, fmtBase, fmtCase := false, 16, true;
      case 'c' =>
        out := RepChar(' ', fmtBeforeDecimal - 1);
        out := out + [CharOf(args.word(n))];
        next := n + 1;
        return;
      case 's' =>
        var s := args.Text(n);
        out := RepChar(' ', fmtBeforeDecimal - |s|);
        out := out + s;
        next := n + 1;
        return;
      case _ => return;
    }
    out := PrintInteger(args.word(n), fmtSigned, fmtBase, fmtCase, fmtLeadingZero, fmtBeforeDecimal);
    next := n + 1;
  }

  // The machine has printed out and has read all but rest.
  ghost predicate Printing(out: string, state: State, zero: bool, before: int, after: int, seen: string, rest: string,
                           n: nat, args: Arguments, whole: string)
  {
    && out + Remaining(state, zero, seen, rest, n, args) == whole
    && (state != Chars ==> before == Width(seen) && (after >= 0 <==> '.' in seen))
    && (state == FirstFmtChar ==> seen == "" && !zero)
  }

  lemma Assoc(a: string, b: string, c: string)
    ensures a + (b + c) == a + b + c
  {
  }

  lemma PlainStep(out: string, zero: bool, before: int, after: int, seen: string, rest: string, n: nat,
                  args: Arguments, whole: string)
    requires rest != "" && Printing(out, Chars, zero, before, after, seen, rest, n, args, whole)
    ensures rest[0] != '%' ==> Printing(out + [rest[0]], Chars, zero, before, after, seen, rest[1..], n, args, whole)
    ensures rest[0] == '%' ==> Printing(out, FirstFmtChar, false, -1, -1, "", rest[1..], n, args, whole)
  {
    Assoc(out, [rest[0]], Rendered(rest[1..], n, args));
    hide AfterPercent;
  }

  lemma FirstStep(out: string, before: int, after: int, rest: string, n: nat, args: Arguments, whole: string)
    requires rest != "" && Printing(out, FirstFmtChar, false, before, after, "", rest, n, args, whole)
    ensures rest[0] == '0' ==> Printing(out, OtherFmtChar, true, before, after, "", rest[1..], n, args, whole)
    ensures rest[0] == '%' ==> Printing(out + "%", Chars, false, before, after, "", rest[1..], n, args, whole)
    ensures rest[0] != '0' && rest[0] != '%' ==>
              Printing(out, OtherFmtChar, false, before, after, "", rest, n, args, whole)
  {
    Assoc(out, "%", Rendered(rest[1..], n, args));
    hide Rendered, Directive;
  }

  lemma ModifierStep(out: string, zero: bool, before: int, after: int, seen: string, rest: string, n: nat,
                     args: Arguments, whole: string, before': int, after': int)
    requires rest != "" && IsModifier(rest[0])
    requires Printing(out, OtherFmtChar, zero, before, after, seen, rest, n, args, whole)
    requires '0' <= rest[0] <= '9' && after < 0 ==>
               before' == (if before < 0 then 0 else before * 10) + (rest[0] as int - '0' as int)
    requires !('0' <= rest[0] <= '9' && after < 0) ==> before' == before
    requires after' >= 0 <==> after >= 0 || rest[0] == '.'
    ensures Printing(out, OtherFmtChar, zero, before', after', seen + [rest[0]], rest[1..], n, args, whole)
  {
    ModifierRead(zero, seen, rest, n, args);
    WidthSnoc(seen, rest[0]);
  }

  lemma LetterStep(out: string, zero: bool, before: int, after: int, seen: string, rest: string, n: nat,
                   args: Arguments, whole: string)
    requires rest != "" && !IsModifier(rest[0])
    requires Printing(out, OtherFmtChar, zero, before, after, seen, rest, n, args, whole)
    ensures Printing(out + Converted(rest[0], zero, before, args.word(n), args.Text(n)), Chars, zero, before, after, seen,
                     rest[1..], if TakesArgument(rest[0]) then n + 1 else n, args, whole)
  {
    LetterRead(zero, seen, rest, n, args);
    var n' := if TakesArgument(rest[0]) then n + 1 else n;
    Assoc(out, Converted(rest[0], zero, before, args.word(n), args.Text(n)), Rendered(rest[1..], n', args));
  }

  lemma Finished(out: string, state: State, zero: bool, before: int, after: int, seen: string, n: nat, args: Arguments,
                 whole: string)
    requires Printing(out, state, zero, before, after, seen, "", n, args, whole)
    ensures out == whole
  {
    assert out + "" == out;
  }

  // One character inside a directive: a modifier, or the letter that ends it.
  method OtherChar(c: char, zero: bool, before: int, after: int, n: nat, args: Arguments, out: string,
                   ghost seen: string, ghost rest: string, ghost whole: string)
    returns (before': int, after': int, n': nat, out': string, state: State, ghost seen': string)
    requires rest != "" && rest[0] == c && Printing(out, OtherFmtChar, zero, before, after, seen, rest, n, args, whole)
    ensures state != FirstFmtChar
    ensures Printing(out', state, zero, before', after', seen', rest[1..], n', args, whole)
  {
    assert TakesArgument(c) <==> c in "diuoxXcs";
    hide *;
    before', after', n', out', seen' := before, after, n, out, seen;
    if IsModifier(c) {
      before', after' := ReadModifier(c, before, after);
      ModifierStep(out, zero, before, after, seen, rest, n, args, whole, before', after');
      seen' := seen + [c];
      state := OtherFmtChar;
    } else {
      LetterStep(out, zero, before, after, seen, rest, n, args, whole);
      var text, next := Convert(c, zero, before, n, args);
      out' := out + text;
      n', state := next, Chars;
    }
  }

  lemma Suffix(fmt: string, w: nat)
    requires w < |fmt|
    ensures fmt[w..] != "" && fmt[w..][0] == fmt[w] && fmt[w..][1..] == fmt[w + 1..]
  {
  }

  lemma PrintingStarts(fmt: string, args: Arguments)
    ensures Printing("", Chars, false, -1, -1, "", fmt[0..], 0, args, Rendered(fmt, 0, args))
    ensures fmt[|fmt|..] == ""
  {
    assert fmt[0..] == fmt && "" + Rendered(fmt, 0, args) == Rendered(fmt, 0, args);
  }

  /** alt_log_private_printf: prints exactly what the format string means. */
  method Printf(fmt: string, args: Arguments) returns (out: string)
    ensures out == Rendered(fmt, 0, args)
  {
    hide *;
    var w: nat, n: nat, state := 0, 0, Chars;
    var fmtLeadingZero, fmtBeforeDecimal, fmtAfterDecimal := false, -1, -1;
    ghost var seen := "";
    ghost var whole := Rendered(fmt, 0, args);
    out := "";
    PrintingStarts(fmt, args);
    while w < |fmt|
      invariant w <= |fmt|
      invariant state == FirstFmtChar ==> seen == "" && !fmtLeadingZero
      invariant Printing(out, state, fmtLeadingZero, fmtBeforeDecimal, fmtAfterDecimal, seen, fmt[w..], n, args, whole)
    {
      var c := fmt[w];
      ghost var rest := fmt[w..];
      Suffix(fmt, w);
      w := w + 1;
      if state == Chars {
        PlainStep(out, fmtLeadingZero, fmtBeforeDecimal, fmtAfterDecimal, seen, rest, n, args, whole);
        if c == '%' {
          fmtLeadingZero, fmtBeforeDecimal, fmtAfterDecimal := false, -1, -1;
          state, seen := FirstFmtChar, "";
        } else {
          out := out + [c];
        }
      } else {
        if state == FirstFmtChar {
          FirstStep(out, fmtBeforeDecimal, fmtAfterDecimal, rest, n, args, whole);
        }
        if state == FirstFmtChar && c == '0' {
          fmtLeadingZero, state := true, OtherFmtChar;
        } else if state == FirstFmtChar && c == '%' {
          out := out + [c];
          state := Chars;
        } else {
          fmtBeforeDecimal, fmtAfterDecimal, n, out, state, seen :=
            OtherChar(c, fmtLeadingZero, fmtBeforeDecimal, fmtAfterDecimal, n, args, out, seen, rest, whole);
        }
      }
    }
    Finished(out, state, fmtLeadingZero, fmtBeforeDecimal, fmtAfterDecimal, seen, n, args, whole);
  }

  // A point, a digit or an l inside a directive. fmtLong is not kept: long and int are both 32 bits.
  method ReadModifier(c: char, before: int, after: int) returns (before': int, after': int)
    requires IsModifier(c)
    ensures '0' <= c <= '9' && after < 0 ==>
              before' == (if before < 0 then 0 else before * 10) + (c as int - '0' as int)
    ensures !('0' <= c <= '9' && after < 0) ==> before' == before
    ensures after' >= 0 <==> after >= 0 || c == '.'
  {
    before', after' := before, after;
    if c == '.' {
      after' := 0;
    } else if '0' <= c <= '9' {
      var digit := c as int - '0' as int;
      if after' < 0 {
        if before' < 0 {
          before' := 0;
        } else {
          before' := before' * 10;
        }
        before' := before' + digit;
      } else {
        after' := after' * 10 + digit;
      }
    }
  }
}
