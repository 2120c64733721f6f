/** What kprintf prints for each conversion, whatever the flags, the width and the length
    modifier, and how the texts of a format join. */
module FormatTexts {
  import opened CStrings
  import opened Numerals
  import opened Notation
  import opened Kprintf
  import opened PrintParse

  /** Flags, a width and a length modifier: what may stand between '%' and the letter. */
  predicate IsFront(flags: string, width: string, modifier: string) {
    && (forall k :: 0 <= k < |flags| ==> flags[k] in "-+0 ")
    && (forall k :: 0 <= k < |width| ==> width[k] in "0123456789")
    && (modifier == "" || modifier == "l" || modifier == "ll" || modifier == "z")
  }

  function Conversion(flags: string, width: string, modifier: string, c: char): string {
    "%" + flags + width + modifier + [c]
  }

  /** Behind the flags and the width, and behind this modifier, c is read as the letter. */
  predicate IsLetter(modifier: string, c: char) {
    && (modifier == "" ==> c !in "-+0 " && c !in "0123456789" && c != 'l' && c != 'z')
    && (modifier == "l" ==> c != 'l')
  }

  function LengthOf(modifier: string): Length {
    if modifier == "" then Plain else if modifier == "l" then Long else if modifier == "ll" then LongLong else SizeT
  }

  // ---------------------------------------------------------------- where the letter is

  lemma {:induction false} FlagsPassed(f: string, i: nat, j: nat)
    requires i <= j <= |f| && forall k :: i <= k < j ==> f[k] in "-+0 "
    ensures SkipFlags(f, i) == SkipFlags(f, j)
    decreases j - i
  {
    if i < j {
      assert f[i] in "-+0 ";
      FlagsPassed(f, i + 1, j);
    }
  }

  /** The zeros of a width may be taken for flags; either way the digits are passed over. */
  lemma {:induction false} WidthPassed(f: string, i: nat, j: nat)
    requires i <= j <= |f| && forall k :: i <= k < j ==> f[k] in "0123456789"
    requires At(f, j) !in "-+0 " && At(f, j) !in "0123456789"
    ensures SkipWidth(f, i) == j && SkipWidth(f, SkipFlags(f, i)) == j
    decreases j - i
  {
    if i < j {
      assert f[i] in "0123456789";
      WidthPassed(f, i + 1, j);
    }
  }

  lemma LetterFound(flags: string, width: string, modifier: string, c: char)
    requires IsFront(flags, width, modifier) && IsLetter(modifier, c)
    ensures var f := Conversion(flags, width, modifier, c);
            DirectiveAt(f, 1) == Directive(LengthOf(modifier), c, |f| - 1)
  {
    var f := Conversion(flags, width, modifier, c);
    var i, j := 1 + |flags|, 1 + |flags| + |width|;
    assert f[1..i] == flags && f[i..j] == width && f[j..] == modifier + [c];
    forall k | 1 <= k < i ensures f[k] in "-+0 " {
      assert f[k] == flags[k - 1];
    }
    forall k | i <= k < j ensures f[k] in "0123456789" {
      assert f[k] == width[k - i];
    }
    assert At(f, j) == if modifier == "" then c else modifier[0];
    FlagsPassed(f, 1, i);
    WidthPassed(f, i, j);
    assert forall k :: 0 <= k < |f| - j ==> f[j + k] == f[j..][k];
    ModifierRead(f, j, modifier, c);
  }

  lemma ModifierRead(f: string, j: nat, modifier: string, c: char)
    requires modifier == "" || modifier == "l" || modifier == "ll" || modifier == "z"
    requires j + |modifier| + 1 == |f| && (forall k :: 0 <= k < |modifier| ==> f[j + k] == modifier[k])
    requires f[|f| - 1] == c && SkipWidth(f, SkipFlags(f, 1)) == j && IsLetter(modifier, c)
    ensures DirectiveAt(f, 1) == Directive(LengthOf(modifier), c, |f| - 1)
  {
    assert modifier != "" ==> f[j + 0] == modifier[0];
    assert modifier == "ll" ==> f[j + 1] == modifier[1];
  }

  lemma ArgumentText(flags: string, width: string, modifier: string, c: char, a: Arg)
    requires IsFront(flags, width, modifier) && IsLetter(modifier, c)
    requires var d := Directive(LengthOf(modifier), c, 1); TakesArg(d) && Fits(d, a)
    ensures var f := Conversion(flags, width, modifier, c);
            && WellFormed(f, 0, [a]) && !WellFormed(f, 0, [])
            && Expansion(f, 0, [a]) == Text(Directive(LengthOf(modifier), c, |f| - 1), a)
  {
    var f := Conversion(flags, width, modifier, c);
    LetterFound(flags, width, modifier, c);
    OnlyDirective(f, DirectiveAt(f, 1), a);
  }

  lemma FixedText(flags: string, width: string, modifier: string, c: char)
    requires IsFront(flags, width, modifier) && IsLetter(modifier, c) && c != '\0'
    requires !TakesArg(Directive(LengthOf(modifier), c, 1))
    ensures var f := Conversion(flags, width, modifier, c);
            WellFormed(f, 0, []) && Expansion(f, 0, []) == Fixed(Directive(LengthOf(modifier), c, |f| - 1))
  {
    var f := Conversion(flags, width, modifier, c);
    LetterFound(flags, width, modifier, c);
    assert WellFormed(f, |f|, []) && Expansion(f, |f|, []) == "";
    assert WellFormed(f, 0, []);
    assert Expansion(f, 0, []) == Fixed(DirectiveAt(f, 1)) + "";
  }

  // ---------------------------------------------------------------- each conversion

  lemma CharText(flags: string, width: string, modifier: string, c: char)
    requires IsFront(flags, width, modifier)
    ensures var f := Conversion(flags, width, modifier, 'c');
            WellFormed(f, 0, [CharArg(c)]) && Expansion(f, 0, [CharArg(c)]) == [c]
  {
    ArgumentText(flags, width, modifier, 'c', CharArg(c));
  }

  lemma StringText(flags: string, width: string, modifier: string, s: string)
    requires IsFront(flags, width, modifier) && '\0' !in s
    ensures var f := Conversion(flags, width, modifier, 's');
            WellFormed(f, 0, [StrArg(s)]) && Expansion(f, 0, [StrArg(s)]) == s
  {
    ArgumentText(flags, width, modifier, 's', StrArg(s));
  }

  lemma NullText(flags: string, width: string, modifier: string)
    requires IsFront(flags, width, modifier)
    ensures var f := Conversion(flags, width, modifier, 's');
            WellFormed(f, 0, [NullArg]) && Expansion(f, 0, [NullArg]) == "(null)"
  {
    ArgumentText(flags, width, modifier, 's', NullArg);
  }

  /** The range of an int, or of the 64-bit types without their smallest value. */
  predicate IsSigned(modifier: string, v: int) {
    if modifier == "" then -0x8000_0000 <= v <= 0x7FFF_FFFF
    else -0x7FFF_FFFF_FFFF_FFFF <= v <= 0x7FFF_FFFF_FFFF_FFFF
  }

  predicate IsUnsigned(modifier: string, v: int) {
    0 <= v <= if modifier == "" then 0xFFFF_FFFF else 0xFFFF_FFFF_FFFF_FFFF
  }

  /** The decimal numeral of the absolute value, behind a minus sign for a negative one. */
  ghost predicate IsSignedNumeral(t: string, v: int) {
    if v < 0 then t != "" && t[0] == '-' && IsNumeral(t[1..], -v, "0123456789")
    else IsNumeral(t, v, "0123456789")
  }

  lemma SignedIs(v: int)
    ensures IsSignedNumeral(SignedNumeral(v), v)
  {
    if v < 0 {
      DecimalIs(-v);
      assert SignedNumeral(v)[1..] == Numeral(-v, 10, false);
    } else {
      DecimalIs(v);
    }
  }

  lemma SignedText(flags: string, width: string, modifier: string, letter: char, v: int)
    requires IsFront(flags, width, modifier) && (letter == 'd' || letter == 'i') && IsSigned(modifier, v)
    ensures var f := Conversion(flags, width, modifier, letter);
            WellFormed(f, 0, [IntArg(v)]) && IsSignedNumeral(Expansion(f, 0, [IntArg(v)]), v)
  {
    ArgumentText(flags, width, modifier, letter, IntArg(v));
    SignedIs(v);
  }

  lemma UnsignedText(flags: string, width: string, modifier: string, v: int)
    requires IsFront(flags, width, modifier) && IsUnsigned(modifier, v)
    ensures var f := Conversion(flags, width, modifier, 'u');
            WellFormed(f, 0, [IntArg(v)]) && IsNumeral(Expansion(f, 0, [IntArg(v)]), v, "0123456789")
  {
    ArgumentText(flags, width, modifier, 'u', IntArg(v));
    DecimalIs(v);
  }

  /** %x prints with small letters and %X with capitals. */
  lemma LowerHexText(flags: string, width: string, modifier: string, v: int)
    requires IsFront(flags, width, modifier) && IsUnsigned(modifier, v)
    ensures var f := Conversion(flags, width, modifier, 'x');
            WellFormed(f, 0, [IntArg(v)]) && IsNumeral(Expansion(f, 0, [IntArg(v)]), v, "0123456789abcdef")
  {
    ArgumentText(flags, width, modifier, 'x', IntArg(v));
    HexIs(v, false);
  }

  lemma UpperHexText(flags: string, width: string, modifier: string, v: int)
    requires IsFront(flags, width, modifier) && IsUnsigned(modifier, v)
    ensures var f := Conversion(flags, width, modifier, 'X');
            WellFormed(f, 0, [IntArg(v)]) && IsNumeral(Expansion(f, 0, [IntArg(v)]), v, "0123456789ABCDEF")
  {
    ArgumentText(flags, width, modifier, 'X', IntArg(v));
    HexIs(v, true);
  }

  /** %p: "0x" and sixteen digits, whatever the modifier. */
  lemma PointerText(flags: string, width: string, modifier: string, v: int)
    requires IsFront(flags, width, modifier) && 0 <= v <= 0xFFFF_FFFF_FFFF_FFFF
    ensures var f := Conversion(flags, width, modifier, 'p');
            && WellFormed(f, 0, [IntArg(v)])
            && var text := Expansion(f, 0, [IntArg(v)]);
               |text| == 18 && text[..2] == "0x" && IsPadded(text[2..], v, 16, "0123456789abcdef")
  {
    ArgumentText(flags, width, modifier, 'p', IntArg(v));
    PointerIs(v);
    var text := "0x" + Padded(v, 16);
    assert text[..2] == "0x" && text[2..] == Padded(v, 16);
  }

  lemma PercentText(flags: string, width: string, modifier: string)
    requires IsFront(flags, width, modifier)
    ensures var f := Conversion(flags, width, modifier, '%');
            WellFormed(f, 0, []) && Expansion(f, 0, []) == "%"
  {
    FixedText(flags, width, modifier, '%');
  }

  /** Any other letter is copied behind a percent sign; flags, width and modifier are lost. */
  lemma UnsupportedText(flags: string, width: string, modifier: string, q: char)
    requires IsFront(flags, width, modifier) && IsLetter(modifier, q) && q !in "csdiuxXp%" && q != '\0'
    ensures var f := Conversion(flags, width, modifier, q);
            WellFormed(f, 0, []) && Expansion(f, 0, []) == ['%', q]
  {
    FixedText(flags, width, modifier, q);
  }

  // ---------------------------------------------------------------- whole formats

  /** Text without a percent sign is printed as it is. */
  lemma {:induction false} PlainFrom(f: string, i: nat)
    requires i <= |f| && '%' !in f && '\0' !in f
    ensures WellFormed(f, i, []) && Expansion(f, i, []) == f[i..]
    decreases |f| - i
  {
    if i < |f| {
      PlainFrom(f, i + 1);
      assert f[i..] == [f[i]] + f[i + 1..];
    }
  }

  lemma PlainText(f: string)
    requires '%' !in f && '\0' !in f
    ensures WellFormed(f, 0, []) && Expansion(f, 0, []) == f
  {
    PlainFrom(f, 0);
    assert f[0..] == f;
  }

  /** The format takes all of these arguments: the last is needed. */
  predicate TakesAll(f: string, i: nat, args: seq<Arg>)
    requires i <= |f|
  {
    WellFormed(f, i, args) && (args != [] ==> !WellFormed(f, i, args[..|args| - 1]))
  }

  lemma {:induction false} FlagsWithin(f: string, g: string, i: nat)
    requires i <= |f| && SkipFlags(f, i) < |f|
    ensures SkipFlags(f + g, i) == SkipFlags(f, i)
    decreases |f| - i
  {
    if i < |f| && f[i] in "-+0 " {
      FlagsWithin(f, g, i + 1);
    }
  }

  lemma {:induction false} WidthWithin(f: string, g: string, i: nat)
    requires i <= |f| && SkipWidth(f, i) < |f|
    ensures SkipWidth(f + g, i) == SkipWidth(f, i)
    decreases |f| - i
  {
    if i < |f| && f[i] in "0123456789" {
      WidthWithin(f, g, i + 1);
    }
  }

  /** A directive that ends inside f is the same with g behind f. */
  lemma DirectiveWithin(f: string, g: string, i: nat)
    requires i <= |f| && DirectiveAt(f, i).at < |f|
    ensures DirectiveAt(f + g, i) == DirectiveAt(f, i)
  {
    FlagsWithin(f, g, i);
    WidthWithin(f, g, SkipFlags(f, i));
  }

  lemma {:induction false} FlagsShifted(f: string, g: string, i: nat)
    requires i <= |g|
    ensures SkipFlags(f + g, |f| + i) == |f| + SkipFlags(g, i)
    decreases |g| - i
  {
    if i < |g| {
      FlagsShifted(f, g, i + 1);
    }
  }

  lemma {:induction false} WidthShifted(f: string, g: string, i: nat)
    requires i <= |g|
    ensures SkipWidth(f + g, |f| + i) == |f| + SkipWidth(g, i)
    decreases |g| - i
  {
    if i < |g| {
      WidthShifted(f, g, i + 1);
    }
  }

  lemma DirectiveShifted(f: string, g: string, i: nat)
    requires i <= |g|
    ensures var d := DirectiveAt(g, i); DirectiveAt(f + g, |f| + i) == d.(at := |f| + d.at)
  {
    FlagsShifted(f, g, i);
    WidthShifted(f, g, SkipFlags(g, i));
  }

  /** Text in front of a format changes nothing in what comes after. */
  lemma {:induction false} Shifted(f: string, g: string, i: nat, args: seq<Arg>)
    requires i <= |g| && WellFormed(g, i, args)
    ensures WellFormed(f + g, |f| + i, args) && Expansion(f + g, |f| + i, args) == Expansion(g, i, args)
    decreases |g| - i
  {
    if i < |g| {
      assert (f + g)[|f| + i] == g[i];
      if g[i] != '%' {
        Shifted(f, g, i + 1, args);
      } else {
        DirectiveShifted(f, g, i + 1);
        var d := DirectiveAt(g, i + 1);
        Shifted(f, g, d.at + 1, if TakesArg(d) then args[1..] else args);
      }
    }
  }

  /** The expansion of two formats in a row is that of the first on its arguments and then that
      of the second on the others. */
  lemma {:induction false} Joined(f: string, g: string, i: nat, args: seq<Arg>, more: seq<Arg>)
    requires i <= |f| && TakesAll(f, i, args) && WellFormed(g, 0, more)
    ensures WellFormed(f + g, i, args + more)
    ensures Expansion(f + g, i, args + more) == Expansion(f, i, args) + Expansion(g, 0, more)
    decreases |f| - i
  {
    if i == |f| {
      assert args == [] && args + more == more;
      Shifted(f, g, 0, more);
    } else if f[i] != '%' {
      Joined(f, g, i + 1, args, more);
      TextJoined(f, g, i, args, more);
    } else {
      var d := DirectiveAt(f, i + 1);
      var rest := if TakesArg(d) then args[1..] else args;
      RestTaken(f, i, args, d, rest);
      Joined(f, g, d.at + 1, rest, more);
      DirectiveJoined(f, g, i, args, d, if TakesArg(d) then Text(d, args[0]) else Fixed(d), rest, more);
    }
  }

  lemma TextJoined(f: string, g: string, i: nat, args: seq<Arg>, more: seq<Arg>)
    requires i < |f| && f[i] != '%' && WellFormed(f, i, args) && WellFormed(g, 0, more)
    requires WellFormed(f + g, i + 1, args + more)
    requires Expansion(f + g, i + 1, args + more) == Expansion(f, i + 1, args) + Expansion(g, 0, more)
    ensures WellFormed(f + g, i, args + more)
    ensures Expansion(f + g, i, args + more) == Expansion(f, i, args) + Expansion(g, 0, more)
  {
    assert (f + g)[i] == f[i];
  }

  /** d begins at i with arguments args, prints t, and leaves rest. */
  predicate Prints(f: string, i: nat, args: seq<Arg>, d: Directive, t: string, rest: seq<Arg>) {
    && i < |f| && f[i] == '%' && d == DirectiveAt(f, i + 1) && d.at < |f| && d.conv != '\0'
    && if TakesArg(d) then args != [] && Fits(d, args[0]) && t == Text(d, args[0]) && rest == args[1..]
       else t == Fixed(d) && rest == args
  }

  lemma Unfolded(f: string, i: nat, args: seq<Arg>, d: Directive, t: string, rest: seq<Arg>)
    requires Prints(f, i, args, d, t, rest) && WellFormed(f, d.at + 1, rest)
    ensures WellFormed(f, i, args) && Expansion(f, i, args) == t + Expansion(f, d.at + 1, rest)
  {
  }

  lemma PrintsStill(f: string, g: string, i: nat, args: seq<Arg>, d: Directive, t: string, rest: seq<Arg>,
                    more: seq<Arg>)
    requires Prints(f, i, args, d, t, rest)
    ensures Prints(f + g, i, args + more, d, t, rest + more)
  {
    DirectiveWithin(f, g, i + 1);
    assert (f + g)[i] == f[i];
    assert TakesArg(d) ==> (args + more)[0] == args[0] && (args + more)[1..] == rest + more;
  }

  lemma DirectiveJoined(f: string, g: string, i: nat, args: seq<Arg>, d: Directive, t: string, rest: seq<Arg>,
                        more: seq<Arg>)
    requires Prints(f, i, args, d, t, rest) && WellFormed(f, d.at + 1, rest) && WellFormed(g, 0, more)
    requires WellFormed(f + g, d.at + 1, rest + more)
    requires Expansion(f + g, d.at + 1, rest + more) == Expansion(f, d.at + 1, rest) + Expansion(g, 0, more)
    ensures WellFormed(f, i, args) && WellFormed(f + g, i, args + more)
    ensures Expansion(f + g, i, args + more) == Expansion(f, i, args) + Expansion(g, 0, more)
  {
    PrintsStill(f, g, i, args, d, t, rest, more);
    Unfolded(f, i, args, d, t, rest);
    Unfolded(f + g, i, args + more, d, t, rest + more);
    Associate(t, Expansion(f, d.at + 1, rest), Expansion(g, 0, more));
  }

  lemma Associate(a: string, b: string, c: string)
    ensures (a + b) + c == a + (b + c)
  {
  }

  lemma RestTaken(f: string, i: nat, args: seq<Arg>, d: Directive, rest: seq<Arg>)
    requires i < |f| && f[i] == '%' && d == DirectiveAt(f, i + 1) && TakesAll(f, i, args)
    requires args != [] || !TakesArg(d)
    requires rest == if TakesArg(d) then args[1..] else args
    ensures d.at < |f| && TakesAll(f, d.at + 1, rest)
  {
    if TakesArg(d) && 1 < |args| {
      var fewer := args[..|args| - 1];
      assert fewer[1..] == args[1..][..|args| - 2] && fewer[0] == args[0];
    }
  }

  // ---------------------------------------------------------------- at the end of the buffer

  lemma {:induction false} LiteralOutput(f: string, i: nat, j: nat, args: seq<Arg>, out: string)
    requires i <= j <= |f| && |out| + (j - i) <= ROOM && WellFormed(f, j, args)
    requires forall k :: i <= k < j ==> f[k] != '%' && f[k] != '\0'
    ensures WellFormed(f, i, args) && Output(f, i, args, out) == Output(f, j, args, out + f[i..j])
    decreases j - i
  {
    if i < j {
      LiteralOutput(f, i + 1, j, args, out + [f[i]]);
      assert out + [f[i]] + f[i + 1..j] == out + f[i..j];
    } else {
      assert out + f[i..j] == out;
    }
  }

  /** Behind 1021 or 1022 characters of text, %p prints the first digits of the pointer that fill
      the buffer, without a prefix. */
  lemma PointerCut(text: string, v: nat)
    requires 1021 <= |text| <= 1022 && '%' !in text && '\0' !in text && v <= 0xFFFF_FFFF_FFFF_FFFF
    ensures WellFormed(text + "%p", 0, [IntArg(v)])
    ensures exists p :: IsPadded(p, v, 16, "0123456789abcdef")
                        && Output(text + "%p", 0, [IntArg(v)], "") == text + p[..1023 - |text|]
  {
    PointerBehind(text, v);
    PointerIs(v);
    EndsWithPointer(text, v);
  }

  lemma PointerBehind(text: string, v: nat)
    requires |text| < ROOM && '%' !in text && '\0' !in text && v <= UINT64_MAX
    ensures WellFormed(text + "%p", 0, [IntArg(v)])
    ensures Output(text + "%p", 0, [IntArg(v)], "") == EmitPointer(text, v)
  {
    var f, a, n := text + "%p", [IntArg(v)], |text|;
    assert f[n] == '%' && f[n + 1] == 'p' && f[0..n] == text;
    PointerLast(f, n, v, text);
    assert forall k :: 0 <= k < n ==> f[k] != '%' && f[k] != '\0';
    LiteralOutput(f, 0, n, a, "");
    assert "" + text == text;
  }

  lemma PointerLast(f: string, n: nat, v: nat, out: string)
    requires n + 2 == |f| && f[n] == '%' && f[n + 1] == 'p' && v <= UINT64_MAX && |out| < ROOM
    ensures WellFormed(f, n, [IntArg(v)]) && Output(f, n, [IntArg(v)], out) == EmitPointer(out, v)
  {
    var a, d := [IntArg(v)], DirectiveAt(f, n + 1);
    assert d == Directive(Plain, 'p', n + 1);
    assert a[1..] == [] && WellFormed(f, |f|, a[1..]);
    OutputUnfolds(f, n, a, out, d, |f|, a[1..]);
  }

  lemma EndsWithPointer(text: string, v: nat)
    requires 1021 <= |text| <= 1022 && |Padded(v, 16)| == 16
    ensures EmitPointer(text, v) == text + Padded(v, 16)[..1023 - |text|]
  {
  }

  /** Behind 1022 characters of text an unsupported directive is copied in full, and takes the
      place of the terminator. */
  lemma UnsupportedCopied(text: string)
    requires |text| == 1022 && '%' !in text && '\0' !in text
    ensures WellFormed(text + "%q", 0, []) && Output(text + "%q", 0, [], "") == text + "%q"
  {
    var f := text + "%q";
    var d := DirectiveAt(f, 1023);
    assert f[1022] == '%' && At(f, 1023) == 'q' && d.at == 1023;
    assert WellFormed(f, |f|, []);
    assert WellFormed(f, 1022, []) && "" + f[0..1022] == text;
    LiteralOutput(f, 0, 1022, [], "");
    assert Output(f, 1022, [], text) == Output(f, |f|, [], text + "%q");
  }

  // ---------------------------------------------------------------- the formats of the shell

  lemma ByteText(v: int)
    requires 0 <= v < 256
    ensures WellFormed("%02x", 0, [IntArg(v)])
    ensures IsNumeral(Expansion("%02x", 0, [IntArg(v)]), v, "0123456789abcdef")
  {
    assert Conversion("0", "2", "", 'x') == "%02x";
    LowerHexText("0", "2", "", v);
  }

  lemma WordText(v: int)
    requires 0 <= v <= 0xFFFF_FFFF_FFFF_FFFF
    ensures WellFormed("%016llx", 0, [IntArg(v)])
    ensures IsNumeral(Expansion("%016llx", 0, [IntArg(v)]), v, "0123456789abcdef")
  {
    assert Conversion("0", "16", "ll", 'x') == "%016llx";
    LowerHexText("0", "16", "ll", v);
  }

  /** "Allocated", the size, the prefix in the text and the one of %p, and the pointer. */
  ghost predicate Announces(text: string, size: int, ptr: int) {
    exists n, p :: text == "Allocated " + n + " bytes at 0x" + "0x" + p + "\n"
                   && IsNumeral(n, size, "0123456789") && IsPadded(p, ptr, 16, "0123456789abcdef")
  }

  /** The shell announces an allocation in a format that holds the prefix of %p once more. */
  lemma AllocatedText(size: int, ptr: int)
    requires 0 <= size <= 0xFFFF_FFFF_FFFF_FFFF && 0 <= ptr <= 0xFFFF_FFFF_FFFF_FFFF
    ensures var f, args := "Allocated %zu bytes at 0x%p\n", [IntArg(size), IntArg(ptr)];
            WellFormed(f, 0, args) && Announces(Expansion(f, 0, args), size, ptr)
  {
    SizePiece(size);
    PointerPiece(ptr);
    AllocatedFormat();
    Sentence("Allocated ", "%zu", " bytes at 0x", "%p", "\n", IntArg(size), IntArg(ptr));
    Announced(Expansion("%zu", 0, [IntArg(size)]), Expansion("%p", 0, [IntArg(ptr)]), size, ptr);
  }

  lemma AllocatedFormat()
    ensures "Allocated %zu bytes at 0x%p\n" == "Allocated " + ("%zu" + (" bytes at 0x" + ("%p" + "\n")))
  {
  }

  lemma Announced(n: string, t: string, size: int, ptr: int)
    requires IsNumeral(n, size, "0123456789")
    requires 2 <= |t| && t[..2] == "0x" && IsPadded(t[2..], ptr, 16, "0123456789abcdef")
    ensures Announces("Allocated " + (n + (" bytes at 0x" + (t + "\n"))), size, ptr)
  {
    SentenceWithPointer("Allocated ", n, " bytes at 0x", t, "\n");
  }

  lemma SentenceWithPointer(t: string, n: string, u: string, p: string, w: string)
    requires 2 <= |p| && p[..2] == "0x"
    ensures t + (n + (u + (p + w))) == t + n + u + "0x" + p[2..] + w
  {
    assert p == "0x" + p[2..];
  }

  lemma SizePiece(v: int)
    requires 0 <= v <= 0xFFFF_FFFF_FFFF_FFFF
    ensures WellFormed("%zu", 0, [IntArg(v)]) && !WellFormed("%zu", 0, [])
    ensures IsNumeral(Expansion("%zu", 0, [IntArg(v)]), v, "0123456789")
  {
    assert Conversion("", "", "z", 'u') == "%zu";
    UnsignedText("", "", "z", v);
    ArgumentText("", "", "z", 'u', IntArg(v));
  }

  lemma PointerPiece(v: int)
    requires 0 <= v <= 0xFFFF_FFFF_FFFF_FFFF
    ensures WellFormed("%p", 0, [IntArg(v)]) && !WellFormed("%p", 0, [])
    ensures var t := Expansion("%p", 0, [IntArg(v)]);
            |t| == 18 && t[..2] == "0x" && IsPadded(t[2..], v, 16, "0123456789abcdef")
  {
    assert Conversion("", "", "", 'p') == "%p";
    PointerText("", "", "", v);
    ArgumentText("", "", "", 'p', IntArg(v));
  }

  /** Two directives with text before, between and behind them. */
  lemma Sentence(t: string, d: string, u: string, e: string, w: string, a: Arg, b: Arg)
    requires '%' !in t && '%' !in u && '%' !in w && '\0' !in t && '\0' !in u && '\0' !in w
    requires WellFormed(d, 0, [a]) && !WellFormed(d, 0, []) && WellFormed(e, 0, [b]) && !WellFormed(e, 0, [])
    ensures var f := t + (d + (u + (e + w)));
            && WellFormed(f, 0, [a, b])
            && Expansion(f, 0, [a, b]) == t + (Expansion(d, 0, [a]) + (u + (Expansion(e, 0, [b]) + w)))
  {
    PlainText(t);
    PlainText(u);
    PlainText(w);
    assert [b] + [] == [b] && [] + [b] == [b] && [a] + [b] == [a, b] && [] + [a, b] == [a, b];
    Followed(e, w, [b], []);
    Followed(u, e + w, [], [b]);
    Followed(d, u + (e + w), [a], [b]);
    Followed(t, d + (u + (e + w)), [], [a, b]);
  }

  /** One format behind another, where the first takes one argument or none. */
  lemma Followed(f: string, g: string, args: seq<Arg>, more: seq<Arg>)
    requires |args| <= 1 && WellFormed(f, 0, args) && (args != [] ==> !WellFormed(f, 0, [])) && WellFormed(g, 0, more)
    ensures WellFormed(f + g, 0, args + more)
    ensures Expansion(f + g, 0, args + more) == Expansion(f, 0, args) + Expansion(g, 0, more)
  {
    assert args != [] ==> args[..|args| - 1] == [];
    Joined(f, g, 0, args, more);
  }
}
