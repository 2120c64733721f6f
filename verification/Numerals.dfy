/** Numerals: the digit loops of kprintf (src/lib/stdio.c) and the value a digit string has
    for simple_strtoull (src/lib/stdlib_stubs.c). */
module Numerals {
  const UINT64_MAX := 0xFFFF_FFFF_FFFF_FFFF
  const INT64_MAX := 0x7FFF_FFFF_FFFF_FFFF

  // ---------------------------------------------------------------- digits

  function DigitChar(d: nat, upper: bool): char
    requires d < 16
  {
    if upper then "0123456789ABCDEF"[d] else "0123456789abcdef"[d]
  }

  /** The digit a character stands for, as both loops of simple_strtoull read it; -1 for none. */
  function DigitValue(c: char): int {
    if '0' <= c <= '9' then c as int - '0' as int
    else if 'a' <= c <= 'z' then c as int - 'a' as int + 10
    else if 'A' <= c <= 'Z' then c as int - 'A' as int + 10
    else -1
  }

  predicate IsDigit(c: char, base: int) {
    0 <= DigitValue(c) < base
  }

  lemma DigitOfChar(d: nat, upper: bool)
    requires d < 16
    ensures DigitValue(DigitChar(d, upper)) == d
    ensures DigitChar(d, upper) != '\0' && (DigitChar(d, upper) == '0' <==> d == 0)
  {
  }

  // ---------------------------------------------------------------- values and numerals

  /** The number a string of digits denotes. */
  function Value(s: string, base: nat): int {
    if s == "" then 0 else Value(s[..|s| - 1], base) * base + DigitValue(s[|s| - 1])
  }

  /** The digits of v, most significant first; nothing for 0. */
  function Digits(v: nat, base: nat, upper: bool): string
    requires 2 <= base <= 16
  {
    if v == 0 then "" else
    Shrinks(v, base);
    Digits(v / base, base, upper) + [DigitChar(v % base, upper)]
  }

  lemma Shrinks(v: nat, base: nat)
    requires 0 < v && 2 <= base
    ensures 0 <= v / base < v && 0 <= v % base < base && v == (v / base) * base + v % base
  {
  }

  function Numeral(v: nat, base: nat, upper: bool): string
    requires 2 <= base <= 16
  {
    if v == 0 then "0" else Digits(v, base, upper)
  }

  /** Exactly w hexadecimal digits. */
  function Padded(v: nat, w: nat): string {
    if w == 0 then "" else Padded(v / 16, w - 1) + [DigitChar(v % 16, false)]
  }

  function Power(base: nat, n: nat): nat {
    if n == 0 then 1 else base * Power(base, n - 1)
  }

  predicate AllDigits(s: string, base: nat) {
    forall i :: 0 <= i < |s| ==> IsDigit(s[i], base)
  }

  /** The shape of a numeral: digits only, and no leading zero but for "0" itself. */
  predicate Canonical(s: string, base: nat) {
    s != "" && AllDigits(s, base) && (DigitValue(s[0]) == 0 ==> |s| == 1)
  }

  lemma Snoc(s: string, c: char, base: nat)
    requires AllDigits(s, base) && IsDigit(c, base)
    ensures Value(s + [c], base) == Value(s, base) * base + DigitValue(c) && AllDigits(s + [c], base)
  {
    assert (s + [c])[..|s|] == s;
  }

  lemma Recompose(w: int, q: int, base: int, r: int)
    requires w == q
    ensures w * base + r == q * base + r
  {
  }

  lemma {:induction false} DigitsValue(v: nat, base: nat, upper: bool)
    requires 2 <= base <= 16
    ensures Value(Digits(v, base, upper), base) == v && AllDigits(Digits(v, base, upper), base)
    decreases v
  {
    if v != 0 {
      Shrinks(v, base);
      var q, r := v / base, v % base;
      DigitsValue(q, base, upper);
      DigitOfChar(r, upper);
      var s := Digits(q, base, upper);
      Snoc(s, DigitChar(r, upper), base);
      Recompose(Value(s, base), q, base, r);
    }
  }

  lemma {:induction false} DigitsLead(v: nat, base: nat, upper: bool)
    requires 2 <= base <= 16 && 0 < v
    ensures Digits(v, base, upper) != "" && DigitValue(Digits(v, base, upper)[0]) != 0
    decreases v
  {
    Shrinks(v, base);
    DigitOfChar(v % base, upper);
    if v / base != 0 {
      DigitsLead(v / base, base, upper);
    } else {
      Recompose(v / base, 0, base, v % base);
    }
  }

  lemma DigitsMean(v: nat, base: nat, upper: bool)
    requires 2 <= base <= 16
    ensures Value(Digits(v, base, upper), base) == v && AllDigits(Digits(v, base, upper), base)
    ensures 0 < v ==> Digits(v, base, upper) != "" && DigitValue(Digits(v, base, upper)[0]) != 0
  {
    DigitsValue(v, base, upper);
    if 0 < v {
      DigitsLead(v, base, upper);
    }
  }

  /** What the digit loops print is the canonical numeral of the value. */
  lemma NumeralMeans(v: nat, base: nat, upper: bool)
    requires 2 <= base <= 16
    ensures Canonical(Numeral(v, base, upper), base) && Value(Numeral(v, base, upper), base) == v
  {
    DigitsMean(v, base, upper);
    if v == 0 {
      assert "0"[..0] == "";
    }
  }

  /** v needs at most n digits exactly when it is below base to the n. */
  lemma {:induction false} DigitsLength(v: nat, base: nat, upper: bool, n: nat)
    requires 2 <= base <= 16
    ensures |Digits(v, base, upper)| <= n <==> v < Power(base, n)
    decreases v
  {
    if v != 0 {
      Shrinks(v, base);
      if n != 0 {
        DigitsLength(v / base, base, upper, n - 1);
        Carry(v / base, v % base, base, Power(base, n - 1));
      }
    } else {
      PowerPositive(base, n);
    }
  }

  lemma Carry(q: nat, r: nat, base: nat, p: nat)
    requires r < base
    ensures q < p <==> q * base + r < base * p
  {
    if q < p {
      assert (q + 1) * base <= p * base;
    } else {
      assert q * base >= p * base;
    }
  }

  lemma {:induction false} PowerPositive(base: nat, n: nat)
    requires 2 <= base
    ensures 1 <= Power(base, n)
  {
    if n != 0 {
      PowerPositive(base, n - 1);
    }
  }

  lemma {:induction false} PaddedMeans(v: nat, w: nat)
    requires v < Power(16, w)
    ensures |Padded(v, w)| == w && AllDigits(Padded(v, w), 16) && Value(Padded(v, w), 16) == v
    decreases w
  {
    if w != 0 {
      assert v / 16 < Power(16, w - 1);
      PaddedMeans(v / 16, w - 1);
      DigitOfChar(v % 16, false);
      var s := Padded(v, w);
      assert s[..w - 1] == Padded(v / 16, w - 1);
    }
  }

  /** A canonical numeral is determined by its value. */
  lemma {:induction false} CanonicalUnique(s: string, t: string, base: nat)
    requires 2 <= base <= 16 && Canonical(s, base) && Canonical(t, base) && Value(s, base) == Value(t, base)
    ensures |s| == |t| && forall i :: 0 <= i < |s| ==> DigitValue(s[i]) == DigitValue(t[i])
    decreases |s|
  {
    var m, n := |s| - 1, |t| - 1;
    LastDigit(s, base);
    LastDigit(t, base);
    if m == 0 && n == 0 {
    } else if m == 0 {
      LeadingDigit(t[..n], base);
    } else if n == 0 {
      LeadingDigit(s[..m], base);
    } else {
      CanonicalUnique(s[..m], t[..n], base);
      assert forall i :: 0 <= i < m ==> s[..m][i] == s[i] && t[..n][i] == t[i];
    }
  }

  lemma LastDigit(s: string, base: nat)
    requires 2 <= base && s != "" && AllDigits(s, base)
    ensures var d := DigitValue(s[|s| - 1]);
            Value(s, base) % base == d && Value(s, base) / base == Value(s[..|s| - 1], base)
    ensures AllDigits(s[..|s| - 1], base)
  {
    var q, d := Value(s[..|s| - 1], base), DigitValue(s[|s| - 1]);
    assert IsDigit(s[|s| - 1], base);
    DivMod(q, base, d);
  }

  lemma SmallMultiple(x: int, base: int)
    requires -base < x * base < base
    ensures x == 0
  {
    assert 1 <= x ==> base <= x * base;
    assert x <= -1 ==> x * base <= -base;
  }

  lemma DivMod(q: int, base: int, d: int)
    requires 0 < base && 0 <= d < base
    ensures (q * base + d) / base == q && (q * base + d) % base == d
  {
    var n := q * base + d;
    assert n == (n / base) * base + n % base;
    assert (n / base - q) * base == d - n % base;
    SmallMultiple(n / base - q, base);
  }

  lemma {:induction false} LeadingDigit(s: string, base: nat)
    requires 2 <= base && s != "" && AllDigits(s, base) && DigitValue(s[0]) != 0
    ensures 0 < Value(s, base)
    decreases |s|
  {
    var n := |s| - 1;
    assert IsDigit(s[n], base);
    if 0 < n {
      LeadingDigit(s[..n], base);
      assert Value(s[..n], base) * base >= 1;
    } else {
      assert s[..0] == "";
    }
  }

  // ---------------------------------------------------------------- the digit loops

  const SCRATCH := 21

  /** The loop behind %d and %u: from the end of the scratch buffer towards its start. The
      buffer has room for the 20 digits of the largest value and the terminator. */
  method WriteDecimal(value: nat, buf: array<char>) returns (p: nat)
    requires value <= UINT64_MAX && buf.Length == SCRATCH
    modifies buf
    ensures p < SCRATCH - 1 && buf[p..SCRATCH - 1] == Numeral(value, 10, false) && buf[SCRATCH - 1] == '\0'
  {
    Widths();
    NumeralFits(value, 10, 20, false);
    p := SCRATCH - 1;
    buf[p] := '\0';
    var v := value;
    ghost var text := Numeral(value, 10, false);
    while true
      invariant p <= SCRATCH - 1 && buf[SCRATCH - 1] == '\0' && v <= value
      invariant p == SCRATCH - 1 ==> v == value
      invariant p < SCRATCH - 1 ==> 0 < v
      invariant text == Numeral(v, 10, false) + buf[p..SCRATCH - 1]
      decreases v, p
    {
      ghost var done := buf[p..SCRATCH - 1];
      assert |Numeral(v, 10, false)| + |done| <= 20;
      p := p - 1;
      buf[p] := ('0' as int + v % 10) as char;
      assert buf[p] == DigitChar(v % 10, false) && buf[p..SCRATCH - 1] == [buf[p]] + done;
      LastOfNumeral(v, 10, false);
      v := v / 10;
      if v == 0 { break; }
    }
  }

  /** %d and %i: the decimal loop on the absolute value, then the sign. INT64_MIN, whose
      negation overflows, is excluded. */
  method WriteSigned(value: int, buf: array<char>) returns (p: nat)
    requires -INT64_MAX <= value <= INT64_MAX && buf.Length == SCRATCH
    modifies buf
    ensures p < SCRATCH - 1 && buf[p..SCRATCH - 1] == SignedNumeral(value) && buf[SCRATCH - 1] == '\0'
  {
    var isNegative := value < 0;
    var absValue := if isNegative then -value else value;
    Widths();
    NumeralFits(absValue, 10, 19, false);
    p := WriteDecimal(absValue, buf);
    if isNegative {
      ghost var digits := buf[p..SCRATCH - 1];
      p := p - 1;
      buf[p] := '-';
      assert buf[p..SCRATCH - 1] == "-" + digits;
    }
  }

  function SignedNumeral(value: int): string {
    if value < 0 then "-" + Numeral(-value, 10, false) else Numeral(value, 10, false)
  }

  /** The loop behind %x and %X; & 0xF and >> 4 are % 16 and / 16 on unsigned values. */
  method WriteHex(value: nat, upper: bool, buf: array<char>) returns (p: nat)
    requires value <= UINT64_MAX && buf.Length == SCRATCH
    modifies buf
    ensures p < SCRATCH - 1 && buf[p..SCRATCH - 1] == Numeral(value, 16, upper) && buf[SCRATCH - 1] == '\0'
  {
    Widths();
    NumeralFits(value, 16, 16, upper);
    var hexChars := if upper then "0123456789ABCDEF" else "0123456789abcdef";
    p := SCRATCH - 1;
    buf[p] := '\0';
    var v := value;
    ghost var text := Numeral(value, 16, upper);
    while true
      invariant p <= SCRATCH - 1 && buf[SCRATCH - 1] == '\0' && v <= value
      invariant p == SCRATCH - 1 ==> v == value
      invariant p < SCRATCH - 1 ==> 0 < v
      invariant text == Numeral(v, 16, upper) + buf[p..SCRATCH - 1]
      decreases v, p
    {
      ghost var done := buf[p..SCRATCH - 1];
      assert |Numeral(v, 16, upper)| + |done| <= 16;
      p := p - 1;
      buf[p] := hexChars[v % 16];
      assert buf[p] == DigitChar(v % 16, upper) && buf[p..SCRATCH - 1] == [buf[p]] + done;
      LastOfNumeral(v, 16, upper);
      v := v / 16;
      if v == 0 { break; }
    }
  }

  /** The loop behind %p: always sixteen digits. */
  method WritePointer(value: nat, buf: array<char>) returns (p: nat)
    requires value <= UINT64_MAX && buf.Length == SCRATCH
    modifies buf
    ensures p == SCRATCH - 17 && buf[p..SCRATCH - 1] == Padded(value, 16) && buf[SCRATCH - 1] == '\0'
  {
    Widths();
    p := SCRATCH - 1;
    buf[p] := '\0';
    var v: nat, digitCount: nat := value, 0;
    ghost var text, left: nat := Padded(value, 16), 16;
    while true
      invariant left == 16 - digitCount > 0 && p == SCRATCH - 1 - digitCount && buf[SCRATCH - 1] == '\0'
      invariant v < Power(16, left) && text == Padded(v, left) + buf[p..SCRATCH - 1]
      decreases left
    {
      ghost var done := buf[p..SCRATCH - 1];
      p := p - 1;
      buf[p] := "0123456789abcdef"[v % 16];
      assert buf[p] == DigitChar(v % 16, false) && buf[p..SCRATCH - 1] == [buf[p]] + done;
      PaddedStep(v, left, done);
      v := v / 16;
      digitCount := digitCount + 1;
      left := left - 1;
      if !(v > 0 || digitCount < 16) { break; }
    }
  }

  lemma PaddedStep(v: nat, w: nat, done: string)
    requires 0 < w && v < Power(16, w)
    ensures v / 16 < Power(16, w - 1)
    ensures Padded(v, w) + done == Padded(v / 16, w - 1) + ([DigitChar(v % 16, false)] + done)
  {
  }

  lemma NumeralFits(v: nat, base: nat, n: nat, upper: bool)
    requires 2 <= base <= 16 && 0 < n && v < Power(base, n)
    ensures 1 <= |Numeral(v, base, upper)| <= n
  {
    DigitsLength(v, base, upper, n);
  }

  /** Peeling the last digit off. */
  lemma LastOfNumeral(v: nat, base: nat, upper: bool)
    requires 2 <= base <= 16
    ensures 0 <= v % base < 16
    ensures Numeral(v, base, upper)
         == (if v / base == 0 then "" else Numeral(v / base, base, upper)) + [DigitChar(v % base, upper)]
  {
    if v == 0 {
      assert 0 / base == 0 && 0 % base == 0;
      assert "" + [DigitChar(0, upper)] == "0";
    } else {
      Shrinks(v, base);
      var q := v / base;
      assert Digits(v, base, upper) == Digits(q, base, upper) + [DigitChar(v % base, upper)];
      assert q == 0 ==> Digits(q, base, upper) == "";
    }
  }

  /** The widths of the scratch buffer: 20 decimal digits, 19 and a sign, 16 hexadecimal ones. */
  lemma Widths()
    ensures INT64_MAX < Power(10, 19) && UINT64_MAX < Power(10, 20) && UINT64_MAX < Power(16, 16)
  {
    assert Power(10, 10) == 1_00000_00000;
    assert Power(10, 19) == 10000_00000_00000_00000;
    assert Power(16, 8) == 0x1_0000_0000;
    assert Power(16, 16) == 0x1_0000_0000_0000_0000;
  }
}
