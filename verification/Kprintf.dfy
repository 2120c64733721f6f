/** kprintf of src/lib/stdio.c: the text that ends up in its 1024-byte buffer. */
module Kprintf {
  import opened CStrings
  import opened Numerals

  const BUFFER_SIZE := 1024

  /** The most characters the buffer takes; the last place is for the terminator. */
  const ROOM := 1023

  datatype Arg = CharArg(c: char) | StrArg(s: string) | NullArg | IntArg(v: int)

  datatype Length = Plain | Long | LongLong | SizeT

  /** A conversion: its length modifier, its letter and the letter's position. */
  datatype Directive = Directive(length: Length, conv: char, at: nat)

  // ---------------------------------------------------------------- reading a directive

  function SkipFlags(f: string, i: nat): (j: nat)
    requires i <= |f|
    ensures i <= j <= |f|
    decreases |f| - i
  {
    if At(f, i) == '-' || At(f, i) == '+' || At(f, i) == '0' || At(f, i) == ' ' then SkipFlags(f, i + 1) else i
  }

  function SkipWidth(f: string, i: nat): (j: nat)
    requires i <= |f|
    ensures i <= j <= |f|
    decreases |f| - i
  {
    if '0' <= At(f, i) <= '9' then SkipWidth(f, i + 1) else i
  }

  /** The directive after a '%' at i - 1: flags and width are passed over. */
  function DirectiveAt(f: string, i: nat): (d: Directive)
    requires i <= |f|
    ensures i <= d.at <= |f| && d.conv == At(f, d.at)
  {
    var j := SkipWidth(f, SkipFlags(f, i));
    if At(f, j) == 'l' then
      if At(f, j + 1) == 'l' then Directive(LongLong, At(f, j + 2), j + 2) else Directive(Long, At(f, j + 1), j + 1)
    else if At(f, j) == 'z' then Directive(SizeT, At(f, j + 1), j + 1)
    else Directive(Plain, At(f, j), j)
  }

  // ---------------------------------------------------------------- what it prints

  predicate TakesArg(d: Directive) {
    || d.conv == 'c' || d.conv == 's' || d.conv == 'd' || d.conv == 'i'
    || d.conv == 'u' || d.conv == 'x' || d.conv == 'X' || d.conv == 'p'
  }

  /** What a directive without argument prints: a percent sign, and for an unsupported letter
      that letter too. */
  function Fixed(d: Directive): string {
    if d.conv == '%' then "%" else ['%', d.conv]
  }

  /** The values the argument type of a directive can have; INT64_MIN is left out. */
  predicate Fits(d: Directive, a: Arg) {
    match d.conv
    case 'c' => a.CharArg?
    case 's' => a.NullArg? || (a.StrArg? && '\0' !in a.s)
    case 'd' => a.IntArg? && InSigned(d.length, a.v)
    case 'i' => a.IntArg? && InSigned(d.length, a.v)
    case 'u' => a.IntArg? && InUnsigned(d.length, a.v)
    case 'x' => a.IntArg? && InUnsigned(d.length, a.v)
    case 'X' => a.IntArg? && InUnsigned(d.length, a.v)
    case 'p' => a.IntArg? && 0 <= a.v <= UINT64_MAX
    case _ => false
  }

  predicate InSigned(length: Length, v: int) {
    if length == Plain then -0x8000_0000 <= v <= 0x7FFF_FFFF else -INT64_MAX <= v <= INT64_MAX
  }

  predicate InUnsigned(length: Length, v: int) {
    if length == Plain then 0 <= v <= 0xFFFF_FFFF else 0 <= v <= UINT64_MAX
  }

  /** The full text of a directive. */
  function Text(d: Directive, a: Arg): string
    requires Fits(d, a)
  {
    match d.conv
    case 'c' => [a.c]
    case 's' => if a.NullArg? then "(null)" else a.s
    case 'd' => SignedNumeral(a.v)
    case 'i' => SignedNumeral(a.v)
    case 'u' => Numeral(a.v, 10, false)
    case 'x' => Numeral(a.v, 16, false)
    case 'X' => Numeral(a.v, 16, true)
    case _ => "0x" + Padded(a.v, 16)
  }

  /** From i on the format is literal text and complete directives, and the arguments match
      those that take one. */
  predicate WellFormed(f: string, i: nat, args: seq<Arg>)
    requires i <= |f|
    decreases |f| - i
  {
    if i == |f| then true
    else if f[i] != '%' then f[i] != '\0' && WellFormed(f, i + 1, args)
    else
      var d := DirectiveAt(f, i + 1);
      && d.at < |f| && d.conv != '\0'
      && (TakesArg(d) ==> args != [] && Fits(d, args[0]))
      && WellFormed(f, d.at + 1, if TakesArg(d) then args[1..] else args)
  }

  /** The whole expansion, with no buffer in the way. */
  function Expansion(f: string, i: nat, args: seq<Arg>): string
    requires i <= |f| && WellFormed(f, i, args)
    decreases |f| - i
  {
    if i == |f| then ""
    else if f[i] != '%' then [f[i]] + Expansion(f, i + 1, args)
    else
      var d := DirectiveAt(f, i + 1);
      if TakesArg(d) then Text(d, args[0]) + Expansion(f, d.at + 1, args[1..])
      else Fixed(d) + Expansion(f, d.at + 1, args)
  }

  // ---------------------------------------------------------------- what the buffer gets

  function First(s: string, n: nat): string {
    if |s| <= n then s else s[..n]
  }

  /** Appending as much of t as there is room for. */
  function Clip(out: string, t: string): (r: string)
    requires |out| <= ROOM
    ensures |r| <= ROOM && r == First(out + t, ROOM)
  {
    out + First(t, ROOM - |out|)
  }

  /** The buffer after a %p: the prefix goes in only when more than two places are left. */
  function EmitPointer(out: string, v: nat): (r: string)
    requires |out| < ROOM
    ensures |r| <= ROOM
  {
    Clip(if |out| + 2 < ROOM then out + "0x" else out, Padded(v, 16))
  }

  function Emit(out: string, d: Directive, a: Arg): (r: string)
    requires |out| < ROOM && Fits(d, a)
    ensures |r| <= ROOM
  {
    if d.conv == 'p' then EmitPointer(out, a.v) else Clip(out, Text(d, a))
  }

  /** The loop of kprintf, from position i with `out` in the buffer. Directives without argument
      are not clipped: an unsupported one in the last place writes one character more. */
  function Output(f: string, i: nat, args: seq<Arg>, out: string): (r: string)
    requires i <= |f| && WellFormed(f, i, args) && |out| <= ROOM + 1
    ensures |out| <= |r| <= ROOM + 1
    decreases |f| - i
  {
    if i == |f| || ROOM <= |out| then out
    else if f[i] != '%' then Output(f, i + 1, args, out + [f[i]])
    else
      var d := DirectiveAt(f, i + 1);
      if TakesArg(d) then Output(f, d.at + 1, args[1..], Emit(out, d, args[0]))
      else Output(f, d.at + 1, args, out + Fixed(d))
  }

  /** The loop meets no unsupported directive at place 1022. */
  predicate InBounds(f: string, i: nat, args: seq<Arg>, out: string)
    requires i <= |f| && WellFormed(f, i, args) && |out| <= ROOM
    decreases |f| - i
  {
    if i == |f| || |out| == ROOM then true
    else if f[i] != '%' then InBounds(f, i + 1, args, out + [f[i]])
    else
      var d := DirectiveAt(f, i + 1);
      if TakesArg(d) then InBounds(f, d.at + 1, args[1..], Emit(out, d, args[0]))
      else |out + Fixed(d)| <= ROOM && InBounds(f, d.at + 1, args, out + Fixed(d))
  }

  /** The position at the end is at most 1023, so that the terminator is stored inside the
      buffer, exactly when no unsupported directive is met at place 1022. */
  lemma {:induction false} OutputFits(f: string, i: nat, args: seq<Arg>, out: string)
    requires i <= |f| && WellFormed(f, i, args) && |out| <= ROOM
    ensures |Output(f, i, args, out)| <= ROOM <==> InBounds(f, i, args, out)
    decreases |f| - i
  {
    if i < |f| && |out| < ROOM {
      if f[i] != '%' {
        OutputFits(f, i + 1, args, out + [f[i]]);
      } else {
        DirectiveFits(f, i, args, out);
      }
    }
  }

  lemma {:induction false} DirectiveFits(f: string, i: nat, args: seq<Arg>, out: string)
    requires i < |f| && f[i] == '%' && WellFormed(f, i, args) && |out| < ROOM
    ensures |Output(f, i, args, out)| <= ROOM <==> InBounds(f, i, args, out)
    decreases |f| - i, 0
  {
    var d := DirectiveAt(f, i + 1);
    if TakesArg(d) {
      OutputFits(f, d.at + 1, args[1..], Emit(out, d, args[0]));
    } else if |out + Fixed(d)| <= ROOM {
      OutputFits(f, d.at + 1, args, out + Fixed(d));
    }
  }

  /** Where %p prints as much of its text as fits: up to place 1020, and at place 1022 when the
      pointer's first digit is the 0 of the prefix. */
  predicate PointerFits(pos: nat, v: nat) {
    pos < ROOM - 2 || (pos == ROOM - 1 && Padded(v, 16) != "" && Padded(v, 16)[0] == '0')
  }

  /** Up to the place where the expansion fills the buffer, every %p fits, and no unsupported
      directive begins in the last place. */
  predicate Exact(f: string, i: nat, args: seq<Arg>, pos: nat)
    requires i <= |f| && WellFormed(f, i, args)
    decreases |f| - i
  {
    if i == |f| || ROOM <= pos then true
    else if f[i] != '%' then Exact(f, i + 1, args, pos + 1)
    else
      var d := DirectiveAt(f, i + 1);
      if TakesArg(d) then
        && (d.conv == 'p' ==> PointerFits(pos, args[0].v))
        && Exact(f, d.at + 1, args[1..], pos + |Text(d, args[0])|)
      else (d.conv != '%' ==> pos != ROOM - 1) && Exact(f, d.at + 1, args, pos + |Fixed(d)|)
  }

  /** Once the first places are taken, what follows does not change them. */
  lemma FirstAppend(s: string, t: string, n: nat)
    requires n <= |s|
    ensures First(s + t, n) == First(s, n)
  {
  }

  /** Clipping piece by piece is clipping once at the end. */
  lemma ClipTwice(out: string, t: string, rest: string)
    requires |out| <= ROOM
    ensures First(Clip(out, t) + rest, ROOM) == First(out + t + rest, ROOM)
  {
    if |out + t| <= ROOM {
      assert Clip(out, t) == out + t;
    } else {
    }
  }

  lemma PieceThenRest(out: string, t: string, rest: string)
    requires |out| <= ROOM
    ensures First(out + (t + rest), ROOM) == First(Clip(out, t) + rest, ROOM)
    ensures |Clip(out, t)| == ROOM ==> First(out + (t + rest), ROOM) == Clip(out, t)
    ensures |Clip(out, t)| < ROOM ==> Clip(out, t) == out + t
  {
    ClipTwice(out, t, rest);
    assert out + t + rest == out + (t + rest);
    if |Clip(out, t)| == ROOM {
    }
  }

  /** EmitPointer clips the full text exactly where it fits. */
  lemma PointerExact(out: string, v: nat)
    requires |out| < ROOM && v <= UINT64_MAX
    ensures EmitPointer(out, v) == Clip(out, "0x" + Padded(v, 16)) <==> PointerFits(|out|, v)
    ensures !PointerFits(|out|, v) ==> |EmitPointer(out, v)| == ROOM == |Clip(out, "0x" + Padded(v, 16))|
  {
    var p := Padded(v, 16);
    Widths();
    PaddedMeans(v, 16);
    if |out| < ROOM - 2 {
      assert out + "0x" + p == out + ("0x" + p);
    } else {
      var r, c := EmitPointer(out, v), Clip(out, "0x" + p);
      assert IsDigit(p[1], 16);
      assert r[|out|] == p[0] && c[|out|] == '0';
      if |out| == ROOM - 2 {
        assert r[|out| + 1] == p[1] && c[|out| + 1] == 'x';
      } else {
        assert r == out + [p[0]] && c == out + ['0'];
      }
    }
  }

  lemma EmitIsClip(out: string, d: Directive, a: Arg)
    requires |out| < ROOM && Fits(d, a)
    ensures Emit(out, d, a) == Clip(out, Text(d, a)) <==> (d.conv == 'p' ==> PointerFits(|out|, a.v))
    ensures Emit(out, d, a) != Clip(out, Text(d, a)) ==> |Emit(out, d, a)| == ROOM == |Clip(out, Text(d, a))|
  {
    if d.conv == 'p' {
      PointerExact(out, a.v);
    }
  }

  /** kprintf's law, for every format of literal text and complete directives: the buffer gets
      the first 1023 characters of the expansion, or all of it, exactly under that condition. */
  lemma {:induction false} OutputIsPrefix(f: string, i: nat, args: seq<Arg>, out: string)
    requires i <= |f| && WellFormed(f, i, args) && |out| <= ROOM
    ensures Output(f, i, args, out) == First(out + Expansion(f, i, args), ROOM) <==> Exact(f, i, args, |out|)
    decreases |f| - i, 1
  {
    if i == |f| {
      assert out + "" == out;
    } else if |out| == ROOM {
      FirstAppend(out, Expansion(f, i, args), ROOM);
    } else if f[i] != '%' {
      PiecePrefix(f, i + 1, args, out, [f[i]]);
    } else if TakesArg(DirectiveAt(f, i + 1)) {
      ArgumentPrefix(f, i, args, out);
    } else {
      FixedPrefix(f, i, args, out);
    }
  }

  /** The rest of a format behind a directive with argument. */
  predicate Behind(f: string, i: nat, args: seq<Arg>, d: Directive, j: nat, rest: seq<Arg>) {
    && i < |f| && f[i] == '%' && WellFormed(f, i, args)
    && d == DirectiveAt(f, i + 1) && TakesArg(d) && j == d.at + 1
    && args != [] && rest == args[1..] && Fits(d, args[0]) && j <= |f| && WellFormed(f, j, rest)
  }

  lemma OutputUnfolds(f: string, i: nat, args: seq<Arg>, out: string, d: Directive, j: nat, rest: seq<Arg>)
    requires Behind(f, i, args, d, j, rest) && |out| < ROOM
    ensures Output(f, i, args, out) == Output(f, j, rest, Emit(out, d, args[0]))
  {
  }

  lemma ExpansionUnfolds(f: string, i: nat, args: seq<Arg>, d: Directive, j: nat, rest: seq<Arg>)
    requires Behind(f, i, args, d, j, rest)
    ensures Expansion(f, i, args) == Text(d, args[0]) + Expansion(f, j, rest)
  {
  }

  lemma ExactUnfolds(f: string, i: nat, args: seq<Arg>, pos: nat, d: Directive, j: nat, rest: seq<Arg>)
    requires Behind(f, i, args, d, j, rest) && pos < ROOM
    ensures Exact(f, i, args, pos) <==>
              (d.conv == 'p' ==> PointerFits(pos, args[0].v)) && Exact(f, j, rest, pos + |Text(d, args[0])|)
  {
  }

  lemma {:induction false} ArgumentPrefix(f: string, i: nat, args: seq<Arg>, out: string)
    requires i < |f| && f[i] == '%' && WellFormed(f, i, args) && |out| < ROOM && TakesArg(DirectiveAt(f, i + 1))
    ensures Output(f, i, args, out) == First(out + Expansion(f, i, args), ROOM) <==> Exact(f, i, args, |out|)
    decreases |f| - i, 0
  {
    var d := DirectiveAt(f, i + 1);
    var j, rest := d.at + 1, args[1..];
    OutputUnfolds(f, i, args, out, d, j, rest);
    ExpansionUnfolds(f, i, args, d, j, rest);
    ExactUnfolds(f, i, args, |out|, d, j, rest);
    var e, t := Emit(out, d, args[0]), Text(d, args[0]);
    EmitIsClip(out, d, args[0]);
    if e == Clip(out, t) {
      PiecePrefix(f, j, rest, out, t);
    } else {
      Full(f, j, rest, e);
      FullDiffers(out, e, t, Expansion(f, j, rest));
    }
  }

  lemma FullDiffers(out: string, e: string, t: string, rest: string)
    requires |out| <= ROOM && |Clip(out, t)| == ROOM && e != Clip(out, t)
    ensures e != First(out + (t + rest), ROOM)
  {
    PieceThenRest(out, t, rest);
  }

  /** A full buffer stays as it is. */
  lemma Full(f: string, i: nat, args: seq<Arg>, out: string)
    requires i <= |f| && WellFormed(f, i, args) && |out| == ROOM
    ensures Output(f, i, args, out) == out
  {
  }

  /** The rest of a format behind a directive without argument. */
  predicate BehindFixed(f: string, i: nat, args: seq<Arg>, d: Directive, j: nat) {
    && i < |f| && f[i] == '%' && WellFormed(f, i, args)
    && d == DirectiveAt(f, i + 1) && !TakesArg(d) && j == d.at + 1 <= |f| && WellFormed(f, j, args)
  }

  lemma FixedUnfolds(f: string, i: nat, args: seq<Arg>, out: string, d: Directive, j: nat)
    requires BehindFixed(f, i, args, d, j) && |out| < ROOM
    ensures Output(f, i, args, out) == Output(f, j, args, out + Fixed(d))
  {
  }

  lemma FixedExpands(f: string, i: nat, args: seq<Arg>, d: Directive, j: nat)
    requires BehindFixed(f, i, args, d, j)
    ensures Expansion(f, i, args) == Fixed(d) + Expansion(f, j, args)
  {
  }

  lemma FixedExact(f: string, i: nat, args: seq<Arg>, pos: nat, d: Directive, j: nat)
    requires BehindFixed(f, i, args, d, j) && pos < ROOM
    ensures Exact(f, i, args, pos) <==> (d.conv != '%' ==> pos != ROOM - 1) && Exact(f, j, args, pos + |Fixed(d)|)
  {
  }

  lemma {:induction false} FixedPrefix(f: string, i: nat, args: seq<Arg>, out: string)
    requires i < |f| && f[i] == '%' && WellFormed(f, i, args) && |out| < ROOM && !TakesArg(DirectiveAt(f, i + 1))
    ensures Output(f, i, args, out) == First(out + Expansion(f, i, args), ROOM) <==> Exact(f, i, args, |out|)
    decreases |f| - i, 0
  {
    var d := DirectiveAt(f, i + 1);
    var j := d.at + 1;
    FixedUnfolds(f, i, args, out, d, j);
    FixedExpands(f, i, args, d, j);
    FixedExact(f, i, args, |out|, d, j);
    if |out + Fixed(d)| <= ROOM {
      PiecePrefix(f, j, args, out, Fixed(d));
    } else {
      assert |Output(f, j, args, out + Fixed(d))| == ROOM + 1;
    }
  }

  /** The same, after a piece that need not fit. */
  lemma {:induction false} PiecePrefix(f: string, i: nat, args: seq<Arg>, out: string, t: string)
    requires i <= |f| && WellFormed(f, i, args) && |out| < ROOM
    ensures Output(f, i, args, Clip(out, t)) == First(out + (t + Expansion(f, i, args)), ROOM)
       <==> Exact(f, i, args, |out| + |t|)
    decreases |f| - i, 2
  {
    PieceThenRest(out, t, Expansion(f, i, args));
    if |Clip(out, t)| < ROOM {
      OutputIsPrefix(f, i, args, Clip(out, t));
    }
  }

  /** Literal text is copied, so a directive behind it begins where the text ends. */
  lemma {:induction false} LiteralExact(f: string, i: nat, j: nat, args: seq<Arg>)
    requires i <= j <= |f| && j <= ROOM && (forall k :: i <= k < j ==> f[k] != '%' && f[k] != '\0')
    requires WellFormed(f, j, args)
    ensures WellFormed(f, i, args) && (Exact(f, i, args, i) <==> Exact(f, j, args, j))
    decreases j - i
  {
    if i < j {
      LiteralExact(f, i + 1, j, args);
    }
  }

  lemma {:induction false} LiteralInBounds(f: string, i: nat, j: nat, args: seq<Arg>, out: string)
    requires i <= j <= |f| && |out| + (j - i) < ROOM && WellFormed(f, j, args)
    requires forall k :: i <= k < j ==> f[k] != '%' && f[k] != '\0'
    ensures WellFormed(f, i, args) && (InBounds(f, i, args, out) <==> InBounds(f, j, args, out + f[i..j]))
    decreases j - i
  {
    if i < j {
      LiteralInBounds(f, i + 1, j, args, out + [f[i]]);
      assert out + [f[i]] + f[i + 1..j] == out + f[i..j];
    } else {
      assert out + f[i..j] == out;
    }
  }

  /** 1022 characters of text and an unsupported directive: the terminator has no place. */
  lemma UnsupportedAtTheEnd(text: string)
    requires |text| == ROOM - 1 && '%' !in text && '\0' !in text
    ensures WellFormed(text + "%q", 0, []) && !InBounds(text + "%q", 0, [], "")
  {
    var f := text + "%q";
    var d := DirectiveAt(f, ROOM);
    assert f[ROOM - 1] == '%' && At(f, ROOM) == 'q' && d.at == ROOM;
    assert WellFormed(f, |f|, []);
    assert WellFormed(f, ROOM - 1, []) && "" + f[0..ROOM - 1] == text;
    LiteralInBounds(f, 0, ROOM - 1, [], "");
  }

  /** 1021 characters of text and "%p": every pointer loses its prefix. */
  lemma PrefixDropped(text: string, v: nat)
    requires |text| == ROOM - 2 && '%' !in text && '\0' !in text && v <= UINT64_MAX
    ensures WellFormed(text + "%p", 0, [IntArg(v)])
    ensures Output(text + "%p", 0, [IntArg(v)], "") != First(Expansion(text + "%p", 0, [IntArg(v)]), ROOM)
  {
    var f, a := text + "%p", [IntArg(v)];
    var d := DirectiveAt(f, ROOM - 1);
    assert f[ROOM - 2] == '%' && At(f, ROOM - 1) == 'p' && d.at == ROOM - 1;
    assert a[1..] == [] && WellFormed(f, |f|, a[1..]);
    assert WellFormed(f, ROOM - 2, a) && !Exact(f, ROOM - 2, a, ROOM - 2);
    LiteralExact(f, 0, ROOM - 2, a);
    OutputIsPrefix(f, 0, a, "");
    assert "" + Expansion(f, 0, a) == Expansion(f, 0, a);
  }

  // ---------------------------------------------------------------- the function

  /** strlen, the clipping and memcpy: the text goes in as far as there is room. */
  method CopyClipped(buf: array<char>, pos: nat, text: string) returns (end: nat)
    requires buf.Length == BUFFER_SIZE && pos <= ROOM
    modifies buf
    ensures end <= ROOM && buf[..end] == Clip(old(buf[..pos]), text)
  {
    var len := |text|;
    if len > BUFFER_SIZE - pos - 1 {
      len := BUFFER_SIZE - pos - 1;
    }
    var k := 0;
    while k < len
      invariant 0 <= k <= len
      invariant buf[..pos] == old(buf[..pos]) && buf[pos..pos + k] == text[..k]
    {
      buf[pos + k] := text[k];
      k := k + 1;
    }
    end := pos + len;
    assert buf[..end] == buf[..pos] + buf[pos..end];
    assert text[..len] == First(text, ROOM - pos);
  }

  /** The digit loops, each into a scratch buffer of its own. */
  method NumberText(d: Directive, a: Arg) returns (text: string)
    requires Fits(d, a) && a.IntArg? && d.conv != 'p'
    ensures text == Text(d, a)
  {
    var scratch := new char[SCRATCH];
    var p;
    if d.conv == 'd' || d.conv == 'i' {
      p := WriteSigned(a.v, scratch);
    } else if d.conv == 'u' {
      p := WriteDecimal(a.v, scratch);
    } else {
      p := WriteHex(a.v, d.conv == 'X', scratch);
    }
    text := scratch[p..SCRATCH - 1];
  }

  /** The switch of kprintf on a directive that takes an argument. */
  method EmitDirective(buf: array<char>, pos: nat, d: Directive, a: Arg) returns (end: nat)
    requires buf.Length == BUFFER_SIZE && pos < ROOM && Fits(d, a)
    modifies buf
    ensures end <= ROOM && buf[..end] == Emit(old(buf[..pos]), d, a)
  {
    if d.conv == 'c' {
      buf[pos] := a.c;
      end := pos + 1;
      assert buf[..end] == old(buf[..pos]) + [a.c];
    } else if d.conv == 's' {
      end := CopyClipped(buf, pos, if a.NullArg? then "(null)" else a.s);
    } else if d.conv == 'p' {
      end := EmitPointerText(buf, pos, a.v);
    } else {
      var text := NumberText(d, a);
      end := CopyClipped(buf, pos, text);
    }
  }

  method EmitPointerText(buf: array<char>, pos: nat, v: nat) returns (end: nat)
    requires buf.Length == BUFFER_SIZE && pos < ROOM && v <= UINT64_MAX
    modifies buf
    ensures end <= ROOM && buf[..end] == EmitPointer(old(buf[..pos]), v)
  {
    var at := pos;
    if at + 2 < ROOM {
      buf[at], buf[at + 1] := '0', 'x';
      at := at + 2;
      assert buf[..at] == old(buf[..pos]) + "0x";
    }
    var scratch := new char[SCRATCH];
    var p := WritePointer(v, scratch);
    end := CopyClipped(buf, at, scratch[p..SCRATCH - 1]);
  }

  /** Lines 30-58: the loops over flags and width, and the length modifier. */
  method ReadDirective(f: string, i: nat) returns (d: Directive)
    requires i <= |f|
    ensures d == DirectiveAt(f, i)
  {
    var j := i;
    while At(f, j) == '-' || At(f, j) == '+' || At(f, j) == '0' || At(f, j) == ' '
      invariant i <= j <= |f| && SkipFlags(f, j) == SkipFlags(f, i)
      decreases |f| - j
    {
      j := j + 1;
    }
    ghost var w := j;
    while '0' <= At(f, j) <= '9'
      invariant w <= j <= |f| && SkipWidth(f, j) == SkipWidth(f, w)
      decreases |f| - j
    {
      j := j + 1;
    }
    var length := Plain;
    if At(f, j) == 'l' {
      length := Long;
      j := j + 1;
      if At(f, j) == 'l' {
        length := LongLong;
        j := j + 1;
      }
    } else if At(f, j) == 'z' {
      length := SizeT;
      j := j + 1;
    }
    d := Directive(length, At(f, j), j);
  }

  /** One directive: read it, print it, and go on after its letter. */
  method FormatDirective(f: string, i: nat, args: seq<Arg>, buf: array<char>, n: nat)
    returns (j: nat, rest: seq<Arg>, end: nat)
    requires i < |f| && f[i] == '%' && WellFormed(f, i, args) && buf.Length == BUFFER_SIZE && n < ROOM
    modifies buf
    ensures i < j <= |f| && end <= ROOM + 1 && WellFormed(f, j, rest)
    ensures Output(f, j, rest, buf[..end]) == Output(f, i, args, old(buf[..n]))
  {
    var d := ReadDirective(f, i + 1);
    j := d.at + 1;
    if TakesArg(d) {
      end := EmitDirective(buf, n, d, args[0]);
      rest := args[1..];
    } else {
      end := EmitFixed(buf, n, d);
      rest := args;
    }
  }

  /** Lines 194-201. */
  method EmitFixed(buf: array<char>, n: nat, d: Directive) returns (end: nat)
    requires buf.Length == BUFFER_SIZE && n < ROOM
    modifies buf
    ensures end <= ROOM + 1 && buf[..end] == old(buf[..n]) + Fixed(d)
  {
    buf[n] := '%';
    end := n + 1;
    if d.conv != '%' {
      buf[end] := d.conv;
      end := end + 1;
    }
    assert buf[..end] == old(buf[..n]) + Fixed(d);
  }

  /** One character of literal text. */
  method FormatLiteral(f: string, i: nat, ghost args: seq<Arg>, buf: array<char>, n: nat)
    requires i < |f| && f[i] != '%' && WellFormed(f, i, args) && buf.Length == BUFFER_SIZE && n < ROOM
    modifies buf
    ensures WellFormed(f, i + 1, args)
    ensures Output(f, i + 1, args, buf[..n + 1]) == Output(f, i, args, old(buf[..n]))
  {
    buf[n] := f[i];
    assert buf[..n + 1] == old(buf[..n]) + [f[i]];
  }

  /** kprintf up to the terminator; the characters then go to the UART one by one. The condition
      is exactly that the terminator has a place in the buffer. */
  method Format(f: string, args: seq<Arg>) returns (buf: array<char>, n: nat)
    requires WellFormed(f, 0, args) && InBounds(f, 0, args, "")
    ensures buf.Length == BUFFER_SIZE && n <= ROOM && buf[n] == '\0'
    ensures buf[..n] == Output(f, 0, args, "")
  {
    OutputFits(f, 0, args, "");
    buf := new char[BUFFER_SIZE];
    n := 0;
    var i, rest := 0, args;
    while i < |f| && n < ROOM
      invariant buf.Length == BUFFER_SIZE && fresh(buf) && i <= |f| && n <= ROOM + 1 && WellFormed(f, i, rest)
      invariant Output(f, i, rest, buf[..n]) == Output(f, 0, args, "")
      decreases |f| - i
    {
      if f[i] == '%' {
        i, rest, n := FormatDirective(f, i, rest, buf, n);
      } else {
        FormatLiteral(f, i, rest, buf, n);
        n := n + 1;
        i := i + 1;
      }
    }
    ghost var out := buf[..n];
    buf[n] := '\0';
    assert buf[..n] == out;
  }

  /** The theorem of the formatter: the buffer holds the first 1023 characters of the expansion,
      or all of it, with that count returned, exactly when every %p and every unsupported
      directive is well placed. */
  method Kprintf(f: string, args: seq<Arg>) returns (buf: array<char>, n: nat)
    requires WellFormed(f, 0, args) && InBounds(f, 0, args, "")
    ensures buf.Length == 1024 && n <= 1023 && buf[n] == '\0'
    ensures buf[..n] == First(Expansion(f, 0, args), 1023) <==> Exact(f, 0, args, 0)
    ensures |Expansion(f, 0, args)| <= 1023 ==> buf[..n] == Expansion(f, 0, args)
  {
    if |Expansion(f, 0, args)| <= ROOM {
      ShortExact(f, 0, args, 0);
    }
    buf, n := Format(f, args);
    OutputIsPrefix(f, 0, args, "");
    assert "" + Expansion(f, 0, args) == Expansion(f, 0, args);
  }

  /** An expansion that fits the buffer meets the condition. */
  lemma {:induction false} ShortExact(f: string, i: nat, args: seq<Arg>, pos: nat)
    requires i <= |f| && WellFormed(f, i, args) && pos + |Expansion(f, i, args)| <= ROOM
    ensures Exact(f, i, args, pos)
    decreases |f| - i
  {
    if i < |f| && pos < ROOM {
      if f[i] != '%' {
        ShortExact(f, i + 1, args, pos + 1);
      } else {
        var d := DirectiveAt(f, i + 1);
        if TakesArg(d) {
          ExpansionUnfolds(f, i, args, d, d.at + 1, args[1..]);
          PointerLength(d, args[0]);
          ShortExact(f, d.at + 1, args[1..], pos + |Text(d, args[0])|);
        } else {
          FixedExpands(f, i, args, d, d.at + 1);
          ShortExact(f, d.at + 1, args, pos + |Fixed(d)|);
        }
      }
    }
  }

  lemma PointerLength(d: Directive, a: Arg)
    requires Fits(d, a)
    ensures d.conv == 'p' ==> |Text(d, a)| == 18
  {
    if d.conv == 'p' {
      Widths();
      PaddedMeans(a.v, 16);
    }
  }

  /** A format that meets that condition also stays inside the buffer. */
  lemma ExactInBounds(f: string, args: seq<Arg>)
    requires WellFormed(f, 0, args) && Exact(f, 0, args, 0)
    ensures InBounds(f, 0, args, "")
  {
    OutputIsPrefix(f, 0, args, "");
    OutputFits(f, 0, args, "");
  }
}
