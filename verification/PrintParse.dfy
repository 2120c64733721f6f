/** kprintf and simple_strtoull together: what one prints the other reads back. */
module PrintParse {
  import opened Numerals
  import opened Kprintf
  import opened Strtoull

  /** The formats "%llu", "%llx", "%llX", "%lld" and "%p" print one numeral and nothing else. */
  lemma OneDirective(f: string, v: int)
    requires f == "%llu" || f == "%llx" || f == "%llX" || f == "%lld" || f == "%p"
    requires if f == "%lld" then -INT64_MAX <= v <= INT64_MAX else 0 <= v <= UINT64_MAX
    ensures WellFormed(f, 0, [IntArg(v)])
    ensures Exact(f, 0, [IntArg(v)], 0) && InBounds(f, 0, [IntArg(v)], "")
    ensures Expansion(f, 0, [IntArg(v)]) ==
            (if f == "%llu" then Numeral(v, 10, false)
             else if f == "%llx" then Numeral(v, 16, false)
             else if f == "%llX" then Numeral(v, 16, true)
             else if f == "%lld" then SignedNumeral(v)
             else "0x" + Padded(v, 16))
  {
    assert SkipWidth(f, SkipFlags(f, 1)) == 1;
    OnlyDirective(f, DirectiveAt(f, 1), IntArg(v));
  }

  lemma OnlyDirective(f: string, d: Directive, a: Arg)
    requires f != "" && f[0] == '%' && d == DirectiveAt(f, 1) && d.at + 1 == |f| && TakesArg(d) && Fits(d, a)
    ensures WellFormed(f, 0, [a]) && Exact(f, 0, [a], 0) && Expansion(f, 0, [a]) == Text(d, a)
  {
    var none := [a][1..];
    assert none == [];
    AtEnd(f, none, |Text(d, a)|);
    assert WellFormed(f, 0, [a]);
    assert Expansion(f, 0, [a]) == Text(d, a) + Expansion(f, d.at + 1, none);
  }

  lemma AtEnd(f: string, args: seq<Arg>, pos: nat)
    ensures WellFormed(f, |f|, args) && Expansion(f, |f|, args) == "" && Exact(f, |f|, args, pos)
  {
  }

  /** Print, then parse: every unsigned 64-bit value comes back whole with the end at the
      terminator, and every signed one as its absolute value. */
  lemma PrintThenParse(f: string, v: int, base: int)
    requires f == "%llu" || f == "%llx" || f == "%llX" || f == "%lld" || f == "%p"
    requires if f == "%lld" then -INT64_MAX <= v <= INT64_MAX else 0 <= v <= UINT64_MAX
    requires if f == "%llu" || f == "%lld" then base == 0 || base == 10
             else if f == "%p" then base == 0 || base == 16 else base == 16
    ensures WellFormed(f, 0, [IntArg(v)])
    ensures var text := Expansion(f, 0, [IntArg(v)]);
            Parse(text, base) == Parsed(if v < 0 then -v else v, |text|)
  {
    OneDirective(f, v);
    if f == "%lld" {
      SignedRoundTrip(v, base);
    } else if f == "%llu" {
      DecimalRoundTrip(v, base);
    } else if f == "%p" {
      PointerRoundTrip(v, base);
      Widths();
      PaddedMeans(v, 16);
    } else {
      HexRoundTrip(v, f == "%llX");
    }
  }

  /** The widest text of each conversion: 20 characters in decimal, 16 in hexadecimal and 18
      for a pointer. */
  lemma TextWidth(f: string, v: int)
    requires f == "%llu" || f == "%llx" || f == "%llX" || f == "%lld" || f == "%p"
    requires if f == "%lld" then -INT64_MAX <= v <= INT64_MAX else 0 <= v <= UINT64_MAX
    ensures WellFormed(f, 0, [IntArg(v)])
    ensures |Expansion(f, 0, [IntArg(v)])| <= if f == "%p" then 18 else if f == "%llx" || f == "%llX" then 16 else 20
  {
    OneDirective(f, v);
    Widths();
    if f == "%llu" {
      NumeralFits(v, 10, 20, false);
    } else if f == "%lld" {
      NumeralFits(if v < 0 then -v else v, 10, 19, false);
    } else if f == "%p" {
      PaddedMeans(v, 16);
    } else {
      NumeralFits(v, 16, 16, f == "%llX");
    }
  }

  /** The two functions in a row: the buffer of kprintf, up to its terminator, is read back. */
  method PrintAndParse(f: string, v: int, base: int) returns (value: int, end: nat, n: nat)
    requires f == "%llu" || f == "%llx" || f == "%llX" || f == "%lld" || f == "%p"
    requires if f == "%lld" then -INT64_MAX <= v <= INT64_MAX else 0 <= v <= UINT64_MAX
    requires if f == "%llu" || f == "%lld" then base == 0 || base == 10
             else if f == "%p" then base == 0 || base == 16 else base == 16
    ensures value == (if v < 0 then -v else v) && end == n <= 20
  {
    OneDirective(f, v);
    TextWidth(f, v);
    PrintThenParse(f, v, base);
    var buf;
    buf, n := Kprintf.Kprintf(f, [IntArg(v)]);
    value, end := SimpleStrtoull(buf[..n], base);
  }
}
