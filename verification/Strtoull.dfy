/** simple_strtoull of src/lib/stdlib_stubs.c: what it answers for every string and base, and
    that it reads back what kprintf prints. */
module Strtoull {
  import opened CStrings
  import opened Numerals
  import opened Notation

  predicate IsSpace(c: char) {
    c == ' ' || c == '\t' || c == '\n' || c == '\r' || c == '\U{C}' || c == '\U{B}'
  }

  function SkipSpace(s: string, i: nat): (j: nat)
    requires i <= |s|
    ensures i <= j <= |s| && !IsSpace(At(s, j)) && forall k :: i <= k < j ==> IsSpace(s[k])
    decreases |s| - i
  {
    if IsSpace(At(s, i)) then SkipSpace(s, i + 1) else i
  }

  function SkipSign(s: string, i: nat): (j: nat)
    requires i <= |s|
    ensures i <= j <= |s|
  {
    if At(s, i) == '+' || At(s, i) == '-' then i + 1 else i
  }

  predicate HasPrefix(s: string, i: nat, base: int)
    requires i <= |s|
  {
    (base == 0 || base == 16) && At(s, i) == '0' && (At(s, i + 1) == 'x' || At(s, i + 1) == 'X')
  }

  /** The base after detection. */
  function BaseOf(s: string, i: nat, base: int): int
    requires i <= |s|
  {
    if HasPrefix(s, i, base) then 16 else if base == 0 then 10 else base
  }

  /** The end of the longest run of digits from i. */
  function RunEnd(s: string, i: nat, base: nat): (e: nat)
    requires i <= |s|
    ensures i <= e <= |s|
    ensures forall k :: i <= k < e ==> IsDigit(s[k], base)
    ensures e < |s| ==> !IsDigit(s[e], base)
    decreases |s| - i
  {
    if i < |s| && IsDigit(s[i], base) then RunEnd(s, i + 1, base) else i
  }

  function Saturated(v: int): int {
    if v <= UINT64_MAX then v else UINT64_MAX
  }

  /** The returned value and the position of *endptr. */
  datatype Parsed = Parsed(value: int, end: nat)

  /** Blanks, a sign that is ignored, a prefix, then the longest run of digits: its value, or
      UINT64_MAX when that is larger. A base outside 2 to 16 consumes nothing. */
  function Parse(s: string, base: int): Parsed {
    var i := SkipSign(s, SkipSpace(s, 0));
    var b := BaseOf(s, i, base);
    if b < 2 || 16 < b then Parsed(0, 0) else
    var start := if HasPrefix(s, i, base) then i + 2 else i;
    var end := RunEnd(s, start, b);
    Parsed(Saturated(Value(s[start..end], b)), end)
  }

  // ---------------------------------------------------------------- the text it reads

  /** Up to i blanks and no more, up to j a sign if there is one, up to k the prefix if there is
      one and the base admits it, and the base the digits are then read in. */
  predicate Front(s: string, base: int, i: nat, j: nat, k: nat, b: int) {
    && i <= j <= k <= |s|
    && (forall x :: 0 <= x < i ==> s[x] in " \t\n\r\U{C}\U{B}")
    && (i < |s| ==> s[i] !in " \t\n\r\U{C}\U{B}")
    && j == (if i < |s| && s[i] in "+-" then i + 1 else i)
    && (var prefixed := (base == 0 || base == 16) && j + 2 <= |s| && (s[j..j + 2] == "0x" || s[j..j + 2] == "0X");
        && k == (if prefixed then j + 2 else j)
        && b == (if prefixed then 16 else if base == 0 then 10 else base))
  }

  /** t is the digits ds in base b, in letters of either case. */
  predicate Denotes(t: string, ds: seq<int>, b: nat)
    requires b <= 16
  {
    && |t| == |ds| && InBase(ds, b)
    && forall x :: 0 <= x < |t| ==> t[x] == "0123456789abcdef"[ds[x]] || t[x] == "0123456789ABCDEF"[ds[x]]
  }

  /** From k to end there are digits in base b and no more, and value is their number or, when
      that is larger, the largest 64-bit value. */
  ghost predicate Taken(s: string, k: nat, b: nat, value: int, end: nat)
    requires b <= 16
  {
    && k <= end <= |s|
    && (end < |s| ==> s[end] !in "0123456789abcdef"[..b] && s[end] !in "0123456789ABCDEF"[..b])
    && exists ds :: Denotes(s[k..end], ds, b)
                    && value == if Number(ds, b) <= 0xFFFF_FFFF_FFFF_FFFF then Number(ds, b) else 0xFFFF_FFFF_FFFF_FFFF
  }

  /** s is read as this value up to this end: nothing at all in a base outside 2 to 16. */
  ghost predicate Reads(s: string, base: int, value: int, end: nat) {
    exists i, j, k, b :: Front(s, base, i, j, k, b) && Rest(s, k, b, value, end)
  }

  ghost predicate Rest(s: string, k: nat, b: int, value: int, end: nat) {
    if 2 <= b <= 16 then Taken(s, k, b, value, end) else value == 0 && end == 0
  }

  lemma BlankIff(c: char)
    ensures IsSpace(c) <==> c in " \t\n\r\U{C}\U{B}"
  {
  }

  lemma PrefixIff(s: string, j: nat, base: int)
    requires j <= |s|
    ensures HasPrefix(s, j, base)
       <==> (base == 0 || base == 16) && j + 2 <= |s| && (s[j..j + 2] == "0x" || s[j..j + 2] == "0X")
  {
    if j + 2 <= |s| {
      assert s[j..j + 2] == [s[j], s[j + 1]];
    }
  }

  lemma FrontOf(s: string, base: int)
    ensures var i := SkipSpace(s, 0);
            var j := SkipSign(s, i);
            Front(s, base, i, j, if HasPrefix(s, j, base) then j + 2 else j, BaseOf(s, j, base))
  {
    var i := SkipSpace(s, 0);
    var j := SkipSign(s, i);
    forall x | 0 <= x < i ensures s[x] in " \t\n\r\U{C}\U{B}" {
      BlankIff(s[x]);
    }
    if i < |s| {
      BlankIff(s[i]);
      assert s[i] in "+-" <==> s[i] == '+' || s[i] == '-';
    }
    PrefixIff(s, j, base);
  }

  lemma RunTaken(s: string, k: nat, b: nat)
    requires k <= |s| && 2 <= b <= 16
    ensures var end := RunEnd(s, k, b); Taken(s, k, b, Saturated(Value(s[k..end], b)), end)
  {
    var end := RunEnd(s, k, b);
    var t := s[k..end];
    forall x | 0 <= x < |t| ensures IsDigit(t[x], b) {
      assert t[x] == s[k + x];
    }
    ValueIsNumber(t, b);
    DigitsDenoted(t, b);
    if end < |s| {
      DigitIff(s[end], b);
    }
  }

  lemma DigitsDenoted(t: string, b: nat)
    requires 2 <= b <= 16 && AllDigits(t, b)
    ensures Denotes(t, DigitsOf(t), b)
  {
    forall x | 0 <= x < |t|
      ensures 0 <= DigitsOf(t)[x] < b
      ensures t[x] == "0123456789abcdef"[DigitsOf(t)[x]] || t[x] == "0123456789ABCDEF"[DigitsOf(t)[x]]
    {
      assert IsDigit(t[x], b);
      DigitPlace(t[x], DigitValue(t[x]));
    }
  }

  lemma RestOf(s: string, k: nat, b: int, p: Parsed)
    requires k <= |s|
    requires 2 <= b <= 16 ==> p.end == RunEnd(s, k, b) && p.value == Saturated(Value(s[k..p.end], b))
    requires b < 2 || 16 < b ==> p == Parsed(0, 0)
    ensures Rest(s, k, b, p.value, p.end)
  {
    if 2 <= b <= 16 {
      RunTaken(s, k, b);
    }
  }

  lemma ReadsParts(s: string, base: int, i: nat, j: nat, k: nat, b: int, value: int, end: nat)
    requires Front(s, base, i, j, k, b) && Rest(s, k, b, value, end)
    ensures Reads(s, base, value, end)
  {
  }

  /** What Parse answers, part by part, for every string and every base. */
  lemma ParseReads(s: string, base: int)
    ensures Reads(s, base, Parse(s, base).value, Parse(s, base).end)
  {
    var i := SkipSpace(s, 0);
    var j := SkipSign(s, i);
    var k := if HasPrefix(s, j, base) then j + 2 else j;
    FrontOf(s, base);
    RestOf(s, k, BaseOf(s, j, base), Parse(s, base));
    ReadsParts(s, base, i, j, k, BaseOf(s, j, base), Parse(s, base).value, Parse(s, base).end);
  }

  lemma SameEnd(s: string, k: nat, b: nat, v: int, e: nat, w: int, f: nat)
    requires 2 <= b <= 16 && Taken(s, k, b, v, e) && Taken(s, k, b, w, f)
    ensures e <= f
  {
    if f < e {
      var ds :| Denotes(s[k..e], ds, b);
      assert s[k..e][f - k] == s[f];
      DigitPlace(s[f], ds[f - k]);
      DigitIff(s[f], b);
    }
  }

  lemma SameDigits(t: string, ds: seq<int>, es: seq<int>, b: nat)
    requires 2 <= b <= 16 && Denotes(t, ds, b) && Denotes(t, es, b)
    ensures ds == es
  {
    forall x | 0 <= x < |t| ensures ds[x] == es[x] {
      DigitPlace(t[x], ds[x]);
      DigitPlace(t[x], es[x]);
    }
  }

  lemma SameTaken(s: string, k: nat, b: nat, v: int, e: nat, w: int, f: nat)
    requires 2 <= b <= 16 && Taken(s, k, b, v, e) && Taken(s, k, b, w, f)
    ensures v == w && e == f
  {
    SameEnd(s, k, b, v, e, w, f);
    SameEnd(s, k, b, w, f, v, e);
    var ds :| Denotes(s[k..e], ds, b)
              && v == if Number(ds, b) <= 0xFFFF_FFFF_FFFF_FFFF then Number(ds, b) else 0xFFFF_FFFF_FFFF_FFFF;
    var es :| Denotes(s[k..e], es, b)
              && w == if Number(es, b) <= 0xFFFF_FFFF_FFFF_FFFF then Number(es, b) else 0xFFFF_FFFF_FFFF_FFFF;
    SameDigits(s[k..e], ds, es, b);
  }

  /** There is one such reading, and it is what Parse answers. */
  lemma ReadsIff(s: string, base: int, value: int, end: nat)
    ensures Reads(s, base, value, end) <==> Parse(s, base) == Parsed(value, end)
  {
    ParseReads(s, base);
    if Reads(s, base, value, end) {
      ReadOnce(s, base, value, end, Parse(s, base).value, Parse(s, base).end);
    }
  }

  lemma ReadOnce(s: string, base: int, v: int, e: nat, w: int, f: nat)
    requires Reads(s, base, v, e) && Reads(s, base, w, f)
    ensures v == w && e == f
  {
    var i, j, k, b :| Front(s, base, i, j, k, b) && Rest(s, k, b, v, e);
    var i', j', k', b' :| Front(s, base, i', j', k', b') && Rest(s, k', b', w, f);
    SameBlanks(s, base, i, j, k, b, i', j', k', b');
    SameBlanks(s, base, i', j', k', b', i, j, k, b);
    SameFront(s, base, i, j, k, b, j', k', b');
    if 2 <= b <= 16 {
      SameTaken(s, k, b, v, e, w, f);
    }
  }

  lemma SameBlanks(s: string, base: int, i: nat, j: nat, k: nat, b: int, i': nat, j': nat, k': nat, b': int)
    requires Front(s, base, i, j, k, b) && Front(s, base, i', j', k', b')
    ensures i <= i'
  {
    if i' < i {
      assert false;
    }
  }

  lemma SameFront(s: string, base: int, i: nat, j: nat, k: nat, b: int, j': nat, k': nat, b': int)
    requires Front(s, base, i, j, k, b) && Front(s, base, i, j', k', b')
    ensures j == j' && k == k' && b == b'
  {
  }

  // ---------------------------------------------------------------- ISO C11, section 7.22.1.4

  /** The base of the standard: with base 0 a leading 0 means octal. */
  function StandardBase(s: string, i: nat, base: int): int
    requires i <= |s|
  {
    if HasPrefix(s, i, base) then 16 else if base != 0 then base else if At(s, i) == '0' then 8 else 10
  }

  /** Where the standard leaves *endptr: behind the digits, behind the 0 of a prefix without
      digits, or at the start when there is no number at all. */
  function StandardEnd(s: string, base: int): nat
    requires base == 0 || 2 <= base <= 16
  {
    var i := SkipSign(s, SkipSpace(s, 0));
    var b := StandardBase(s, i, base);
    if HasPrefix(s, i, base) then (if IsDigit(At(s, i + 2), 16) then RunEnd(s, i + 2, 16) else i + 1)
    else if IsDigit(At(s, i), b) then RunEnd(s, i, b) else 0
  }

  /** The code's *endptr is the standard's. */
  predicate EndsAsStandard(s: string, base: int)
    requires base == 0 || 2 <= base <= 16
  {
    var i := SkipSign(s, SkipSpace(s, 0));
    if HasPrefix(s, i, base) then IsDigit(At(s, i + 2), 16)
    else if IsDigit(At(s, i), BaseOf(s, i, base))
    then base == 0 && At(s, i) == '0' ==> !IsDigit(At(s, RunEnd(s, i, 8)), 10)
    else i == 0
  }

  /** Exactly when the code leaves *endptr where the standard does, for every string and every
      supported base: a prefix has digits behind it, no 8 or 9 ends an octal number, and a string
      without digits has neither blank nor sign in front. */
  lemma EndIsStandard(s: string, base: int)
    requires base == 0 || 2 <= base <= 16
    ensures Parse(s, base).end == StandardEnd(s, base) <==> EndsAsStandard(s, base)
  {
    var i := SkipSign(s, SkipSpace(s, 0));
    if !HasPrefix(s, i, base) && base == 0 && At(s, i) == '0' {
      OctalRun(s, i);
    }
  }

  /** A run of octal digits is as long as the run of decimal ones unless an 8 or 9 ends it. */
  lemma {:induction false} OctalRun(s: string, i: nat)
    requires i <= |s|
    ensures RunEnd(s, i, 8) == RunEnd(s, i, 10) <==> !IsDigit(At(s, RunEnd(s, i, 8)), 10)
    decreases |s| - i
  {
    if i < |s| && IsDigit(s[i], 8) {
      assert IsDigit(s[i], 10);
      OctalRun(s, i + 1);
    }
  }

  /** "0xg": the code answers position 2, the standard 1. */
  lemma BarePrefix()
    ensures Parse("0xg", 16) == Parsed(0, 2) && StandardEnd("0xg", 16) == 1
  {
    assert SkipSpace("0xg", 0) == 0;
    assert !IsDigit("0xg"[2], 16);
    assert RunEnd("0xg", 2, 16) == 2;
  }

  /** "09" with base 0: decimal for the code, octal up to the 9 for the standard. */
  lemma OctalIsDecimal()
    ensures Parse("09", 0) == Parsed(9, 2) && StandardEnd("09", 0) == 1
  {
    assert SkipSpace("09", 0) == 0;
    assert IsDigit("09"[1], 10) && !IsDigit("09"[1], 8) && RunEnd("09", 2, 10) == 2;
    assert RunEnd("09", 1, 10) == 2 && RunEnd("09", 0, 10) == 2 && RunEnd("09", 1, 8) == 1;
    assert "09"[0..2] == "09" && "09"[..1] == "0" && "0"[..0] == "";
    assert Value("0", 10) == 0;
  }

  /** "-z": no number, yet the sign is consumed. */
  lemma LoneSign()
    ensures Parse("-z", 10) == Parsed(0, 1) && StandardEnd("-z", 10) == 0
  {
    assert SkipSpace("-z", 0) == 0 && !IsDigit("-z"[1], 10);
    assert RunEnd("-z", 1, 10) == 1;
  }

  // ---------------------------------------------------------------- the overflow test

  /** The cutoff test is true exactly when taking the digit would pass UINT64_MAX. */
  lemma CutoffExact(result: nat, base: nat, digit: nat)
    requires 2 <= base <= 16 && digit < base
    ensures (result > UINT64_MAX / base || (result == UINT64_MAX / base && digit > UINT64_MAX % base))
       <==> result * base + digit > UINT64_MAX
  {
    var q, r := UINT64_MAX / base, UINT64_MAX % base;
    assert UINT64_MAX == q * base + r && 0 <= r < base;
    if result > q {
      assert result * base >= (q + 1) * base;
    } else if result < q {
      assert (result + 1) * base <= q * base;
    }
  }

  lemma Product(v: nat, base: nat)
    ensures 0 <= v * base
  {
  }

  lemma {:induction false} ValueNonNegative(s: string, base: nat)
    requires AllDigits(s, base)
    ensures 0 <= Value(s, base)
    decreases |s|
  {
    if s != "" {
      var n := |s| - 1;
      ValueNonNegative(s[..n], base);
      assert IsDigit(s[n], base);
      Product(Value(s[..n], base), base);
    }
  }

  /** More digits never make the value smaller. */
  lemma {:induction false} ValueGrows(s: string, i: nat, j: nat, k: nat, base: nat)
    requires i <= j <= k <= |s| && 1 <= base && forall x :: i <= x < k ==> IsDigit(s[x], base)
    ensures Value(s[i..j], base) <= Value(s[i..k], base)
    decreases k
  {
    if j < k {
      ValueGrows(s, i, j, k - 1, base);
      NextDigit(s, i, k - 1, base);
      var v := Value(s[i..k - 1], base);
      ValueNonNegative(s[i..k - 1], base);
      Scale(v, base);
    }
  }

  lemma Scale(v: nat, base: nat)
    requires 1 <= base
    ensures v <= v * base
  {
  }

  lemma NextDigit(s: string, i: nat, j: nat, base: nat)
    requires i <= j < |s|
    ensures Value(s[i..j + 1], base) == Value(s[i..j], base) * base + DigitValue(s[j])
  {
    assert s[i..j + 1][..j - i] == s[i..j];
  }

  lemma RunEndFrom(s: string, i: nat, j: nat, base: nat)
    requires i <= j <= |s| && forall k :: i <= k < j ==> IsDigit(s[k], base)
    ensures RunEnd(s, i, base) == RunEnd(s, j, base)
    decreases j - i
  {
    if i < j {
      RunEndFrom(s, i + 1, j, base);
    }
  }

  /** One turn of the digit loop: past the cutoff the whole run saturates, below it the
      accumulator takes the digit. */
  lemma DigitTaken(s: string, i: nat, j: nat, base: nat)
    requires i <= j < |s| && 2 <= base <= 16 && forall k :: i <= k < j ==> IsDigit(s[k], base)
    requires IsDigit(s[j], base) && 0 <= Value(s[i..j], base)
    ensures RunEnd(s, i, base) == RunEnd(s, j + 1, base)
    ensures var v, digit := Value(s[i..j], base), DigitValue(s[j]);
            if v > UINT64_MAX / base || (v == UINT64_MAX / base && digit > UINT64_MAX % base)
            then Saturated(Value(s[i..RunEnd(s, i, base)], base)) == UINT64_MAX
            else Value(s[i..j + 1], base) == v * base + digit <= UINT64_MAX
  {
    NextDigit(s, i, j, base);
    CutoffExact(Value(s[i..j], base), base, DigitValue(s[j]));
    RunEndFrom(s, i, j + 1, base);
    ValueGrows(s, i, j + 1, RunEnd(s, i, base), base);
  }

  // ---------------------------------------------------------------- the function

  /** Lines 65-72: the loop over the digits after an overflow. */
  method PassDigits(s: string, start: nat, base: nat) returns (nptr: nat)
    requires start <= |s|
    ensures nptr == RunEnd(s, start, base)
  {
    nptr := start;
    while 0 <= DigitValue(At(s, nptr)) < base
      invariant start <= nptr <= |s| && RunEnd(s, nptr, base) == RunEnd(s, start, base)
      decreases |s| - nptr
    {
      nptr := nptr + 1;
    }
  }

  /** Lines 43-78: the digit loop, with the loop that passes over the digits after overflow. */
  method TakeDigits(s: string, start: nat, base: nat) returns (result: nat, nptr: nat)
    requires start <= |s| && 2 <= base <= 16
    ensures nptr == RunEnd(s, start, base)
    ensures result == Saturated(Value(s[start..nptr], base))
  {
    var cutoff, cutlim := UINT64_MAX / base, UINT64_MAX % base;
    result, nptr := 0, start;
    while true
      invariant start <= nptr <= |s| && result <= UINT64_MAX
      invariant forall k :: start <= k < nptr ==> IsDigit(s[k], base)
      invariant result == Value(s[start..nptr], base)
      decreases |s| - nptr
    {
      var digit := DigitValue(At(s, nptr));
      if digit < 0 || digit >= base {
        RunEndFrom(s, start, nptr, base);
        return;
      }
      DigitTaken(s, start, nptr, base);
      if result > cutoff || (result == cutoff && digit > cutlim) {
        result := UINT64_MAX;
        nptr := PassDigits(s, nptr + 1, base);
        return;
      }
      Product(result, base);
      result := result * base + digit;
      nptr := nptr + 1;
    }
  }

  /** Lines 14-25: blanks and the sign. */
  method PassBlanksAndSign(s: string) returns (nptr: nat)
    ensures nptr == SkipSign(s, SkipSpace(s, 0))
  {
    nptr := 0;
    while IsSpace(At(s, nptr))
      invariant nptr <= |s| && SkipSpace(s, nptr) == SkipSpace(s, 0)
      decreases |s| - nptr
    {
      nptr := nptr + 1;
    }
    assert nptr == SkipSpace(s, 0);
    if At(s, nptr) == '+' {
      nptr := nptr + 1;
    } else if At(s, nptr) == '-' {
      nptr := nptr + 1;
    }
  }

  method SimpleStrtoull(s: string, base: int) returns (value: int, end: nat)
    ensures Parsed(value, end) == Parse(s, base) && Reads(s, base, value, end)
    ensures 0 <= value <= UINT64_MAX && end <= |s|
  {
    ParseReads(s, base);
    var nptr := PassBlanksAndSign(s);
    ghost var i := nptr;
    var b := base;
    if (b == 0 || b == 16) && At(s, nptr) == '0' && (At(s, nptr + 1) == 'x' || At(s, nptr + 1) == 'X') {
      b := 16;
      nptr := nptr + 2;
    } else if b == 0 {
      b := 10;
    }
    assert b == BaseOf(s, i, base) && nptr == if HasPrefix(s, i, base) then i + 2 else i;
    if b < 2 || b > 16 {
      return 0, 0;
    }
    value, end := TakeDigits(s, nptr, b);
  }

  // ---------------------------------------------------------------- print, then parse

  /** A text of digits that is all of s from i on is read in full. */
  lemma ReadsDigits(s: string, i: nat, base: nat, v: nat)
    requires i <= |s| && AllDigits(s[i..], base) && Value(s[i..], base) == v && v <= UINT64_MAX
    ensures RunEnd(s, i, base) == |s| && Saturated(Value(s[i..RunEnd(s, i, base)], base)) == v
  {
    forall k | i <= k < |s| ensures IsDigit(s[k], base) {
      assert s[i..][k - i] == s[k];
    }
    RunEndFrom(s, i, |s|, base);
    assert s[i..|s|] == s[i..];
  }

  /** Digits are neither blanks nor signs, and no canonical numeral has a 0x prefix. */
  lemma NumeralStartsPlain(s: string, base: nat)
    requires 2 <= base <= 16 && Canonical(s, base)
    ensures !IsSpace(s[0]) && s[0] != '+' && s[0] != '-'
    ensures !HasPrefix(s, 0, 0) && !HasPrefix(s, 0, 16)
  {
    assert IsDigit(s[0], base);
  }

  lemma CanonicalParse(s: string, base: int, b: nat, v: nat)
    requires 2 <= b <= 16 && Canonical(s, b) && Value(s, b) == v && v <= UINT64_MAX
    requires base == b || (base == 0 && b == 10)
    ensures Parse(s, base) == Parsed(v, |s|)
  {
    NumeralStartsPlain(s, b);
    assert SkipSpace(s, 0) == 0 && SkipSign(s, 0) == 0;
    assert !HasPrefix(s, 0, base) && BaseOf(s, 0, base) == b;
    assert s[0..] == s;
    ReadsDigits(s, 0, b, v);
  }

  /** %llu read back with base 10 or 0. */
  lemma DecimalRoundTrip(v: nat, base: int)
    requires v <= UINT64_MAX && (base == 0 || base == 10)
    ensures Parse(Numeral(v, 10, false), base) == Parsed(v, |Numeral(v, 10, false)|)
  {
    NumeralMeans(v, 10, false);
    CanonicalParse(Numeral(v, 10, false), base, 10, v);
  }

  /** %llx and %llX read back with base 16. */
  lemma HexRoundTrip(v: nat, upper: bool)
    requires v <= UINT64_MAX
    ensures Parse(Numeral(v, 16, upper), 16) == Parsed(v, |Numeral(v, 16, upper)|)
  {
    NumeralMeans(v, 16, upper);
    CanonicalParse(Numeral(v, 16, upper), 16, 16, v);
  }

  lemma PrefixedParse(t: string, base: int, v: nat)
    requires AllDigits(t, 16) && Value(t, 16) == v && v <= UINT64_MAX && (base == 0 || base == 16)
    ensures Parse("0x" + t, base) == Parsed(v, |t| + 2)
  {
    var s := "0x" + t;
    assert s[0] == '0' && s[1] == 'x' && s[2..] == t;
    assert SkipSpace(s, 0) == 0 && SkipSign(s, 0) == 0;
    ReadsDigits(s, 2, 16, v);
  }

  /** %p read back with base 0 or 16. */
  lemma PointerRoundTrip(v: nat, base: int)
    requires v <= UINT64_MAX && (base == 0 || base == 16)
    ensures Parse("0x" + Padded(v, 16), base) == Parsed(v, 18)
  {
    Widths();
    PaddedMeans(v, 16);
    PrefixedParse(Padded(v, 16), base, v);
  }

  lemma NegativeParse(t: string, base: int, v: nat)
    requires Canonical(t, 10) && Value(t, 10) == v && v <= UINT64_MAX && (base == 0 || base == 10)
    ensures Parse("-" + t, base) == Parsed(v, |t| + 1)
  {
    var s := "-" + t;
    NumeralStartsPlain(t, 10);
    assert s[0] == '-' && s[1..] == t && s[1] == t[0] && (2 < |s| ==> s[2] == t[1]);
    assert SkipSpace(s, 0) == 0 && SkipSign(s, 0) == 1;
    ReadsDigits(s, 1, 10, v);
  }

  /** %lld read back: the sign is passed over, so the absolute value comes out. */
  lemma SignedRoundTrip(v: int, base: int)
    requires -INT64_MAX <= v <= INT64_MAX && (base == 0 || base == 10)
    ensures Parse(SignedNumeral(v), base) == Parsed(if v < 0 then -v else v, |SignedNumeral(v)|)
  {
    if 0 <= v {
      DecimalRoundTrip(v, base);
    } else {
      NumeralMeans(-v, 10, false);
      NegativeParse(Numeral(-v, 10, false), base, -v);
    }
  }
}
