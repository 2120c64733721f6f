/** Numbers in positional notation: what the numerals of kprintf are, and the digits of
    simple_strtoull, by the strings that list the digit characters. */
module Notation {
  import opened Numerals

  /** The number a list of digits denotes in base b. */
  function Number(ds: seq<int>, b: nat): int {
    if ds == [] then 0 else Number(ds[..|ds| - 1], b) * b + ds[|ds| - 1]
  }

  predicate InBase(ds: seq<int>, b: nat) {
    forall k :: 0 <= k < |ds| ==> 0 <= ds[k] < b
  }

  /** t writes the digits ds, each by its place in the alphabet. */
  predicate Spells(t: string, ds: seq<int>, alphabet: string) {
    |t| == |ds| && InBase(ds, |alphabet|) && forall k :: 0 <= k < |t| ==> t[k] == alphabet[ds[k]]
  }

  /** No leading zero but in "0" itself. */
  predicate Leads(ds: seq<int>) {
    ds != [] && (ds[0] == 0 ==> |ds| == 1)
  }

  /** t is the numeral of v in the base that the alphabet has characters. */
  ghost predicate IsNumeral(t: string, v: int, alphabet: string) {
    exists ds :: Spells(t, ds, alphabet) && Leads(ds) && Number(ds, |alphabet|) == v
  }

  /** t is the number v in exactly w digits. */
  ghost predicate IsPadded(t: string, v: int, w: nat, alphabet: string) {
    |t| == w && exists ds :: Spells(t, ds, alphabet) && Number(ds, |alphabet|) == v
  }

  // ---------------------------------------------------------------- one text for each number

  lemma {:induction false} SameWidth(ds: seq<int>, es: seq<int>, b: nat)
    requires 2 <= b && InBase(ds, b) && InBase(es, b) && |ds| == |es| && Number(ds, b) == Number(es, b)
    ensures ds == es
    decreases |ds|
  {
    if ds != [] {
      var n := |ds| - 1;
      LastPlace(ds, b);
      LastPlace(es, b);
      SameWidth(ds[..n], es[..n], b);
      assert ds == ds[..n] + [ds[n]] && es == es[..n] + [es[n]];
    }
  }

  lemma LastPlace(ds: seq<int>, b: nat)
    requires 0 < b && ds != [] && InBase(ds, b)
    ensures Number(ds, b) / b == Number(ds[..|ds| - 1], b) && Number(ds, b) % b == ds[|ds| - 1]
  {
    DivMod(Number(ds[..|ds| - 1], b), b, ds[|ds| - 1]);
  }

  lemma {:induction false} SameLength(ds: seq<int>, es: seq<int>, b: nat)
    requires 2 <= b && InBase(ds, b) && InBase(es, b) && Leads(ds) && Leads(es)
    requires Number(ds, b) == Number(es, b) && |ds| <= |es|
    ensures |ds| == |es|
    decreases |ds|
  {
    var m, n := |ds| - 1, |es| - 1;
    LastPlace(ds, b);
    LastPlace(es, b);
    if m == 0 && 0 < n {
      assert Number(ds[..0], b) == 0;
      Positive(es[..n], b);
    } else if 0 < m {
      SameLength(ds[..m], es[..n], b);
    }
  }

  lemma {:induction false} Positive(ds: seq<int>, b: nat)
    requires 1 <= b && InBase(ds, b) && ds != [] && ds[0] != 0
    ensures 0 < Number(ds, b)
    decreases |ds|
  {
    var n := |ds| - 1;
    if 0 < n {
      Positive(ds[..n], b);
      Recompose(Number(ds[..n], b), Number(ds[..n], b), b, ds[n]);
      assert 1 * b <= Number(ds[..n], b) * b;
    } else {
      assert Number(ds[..0], b) == 0;
    }
  }

  /** A number has one numeral. */
  lemma NumeralUnique(t: string, u: string, v: int, alphabet: string)
    requires 2 <= |alphabet| && IsNumeral(t, v, alphabet) && IsNumeral(u, v, alphabet)
    ensures t == u
  {
    var b := |alphabet|;
    var ds :| Spells(t, ds, alphabet) && Leads(ds) && Number(ds, b) == v;
    var es :| Spells(u, es, alphabet) && Leads(es) && Number(es, b) == v;
    if |ds| <= |es| {
      SameLength(ds, es, b);
    } else {
      SameLength(es, ds, b);
    }
    SameWidth(ds, es, b);
  }

  /** And one text of any given width. */
  lemma PaddedUnique(t: string, u: string, v: int, w: nat, alphabet: string)
    requires 2 <= |alphabet| && IsPadded(t, v, w, alphabet) && IsPadded(u, v, w, alphabet)
    ensures t == u
  {
    var b := |alphabet|;
    var ds :| Spells(t, ds, alphabet) && Number(ds, b) == v;
    var es :| Spells(u, es, alphabet) && Number(es, b) == v;
    SameWidth(ds, es, b);
  }

  // ---------------------------------------------------------------- the digits of the loops

  lemma DigitAt(c: char, d: nat, upper: bool)
    requires d < 16 && c == DigitChar(d, upper)
    ensures DigitValue(c) == d
  {
    DigitOfChar(d, upper);
  }

  lemma CharOfDigit(c: char, d: nat)
    requires d < 16 && DigitValue(c) == d
    ensures c == DigitChar(d, false) || c == DigitChar(d, true)
  {
  }

  lemma InSlice(c: char, alphabet: string, b: nat, d: nat)
    requires d < b <= |alphabet| && c == alphabet[d]
    ensures c in alphabet[..b]
  {
    assert alphabet[..b][d] == c;
  }

  lemma DigitInSlices(c: char, b: nat)
    requires 2 <= b <= 16 && IsDigit(c, b)
    ensures c in "0123456789abcdef"[..b] || c in "0123456789ABCDEF"[..b]
  {
    var d := DigitValue(c);
    CharOfDigit(c, d);
    if c == DigitChar(d, false) {
      InSlice(c, "0123456789abcdef", b, d);
    } else {
      InSlice(c, "0123456789ABCDEF", b, d);
    }
  }

  lemma SliceIsDigit(c: char, b: nat, upper: bool)
    requires 2 <= b <= 16 && c in (if upper then "0123456789ABCDEF" else "0123456789abcdef")[..b]
    ensures IsDigit(c, b)
  {
    var alphabet := if upper then "0123456789ABCDEF" else "0123456789abcdef";
    var d :| 0 <= d < b && alphabet[..b][d] == c;
    DigitAt(c, d, upper);
  }

  /** Which characters are digits in base b: the first b of either list. */
  lemma DigitIff(c: char, b: nat)
    requires 2 <= b <= 16
    ensures IsDigit(c, b) <==> c in "0123456789abcdef"[..b] || c in "0123456789ABCDEF"[..b]
  {
    if IsDigit(c, b) {
      DigitInSlices(c, b);
    } else if c in "0123456789abcdef"[..b] {
      SliceIsDigit(c, b, false);
    } else if c in "0123456789ABCDEF"[..b] {
      SliceIsDigit(c, b, true);
    }
  }

  /** The value of a digit is its place in the list. */
  lemma DigitPlace(c: char, d: int)
    requires 0 <= d < 16
    ensures DigitValue(c) == d <==> c == "0123456789abcdef"[d] || c == "0123456789ABCDEF"[d]
  {
    if DigitValue(c) == d {
      CharOfDigit(c, d);
    } else if c == DigitChar(d, false) {
      DigitAt(c, d, false);
    } else if c == DigitChar(d, true) {
      DigitAt(c, d, true);
    }
  }

  function DigitsOf(t: string): (ds: seq<int>) {
    seq(|t|, k requires 0 <= k < |t| => DigitValue(t[k]))
  }

  lemma {:induction false} ValueIsNumber(t: string, b: nat)
    ensures Value(t, b) == Number(DigitsOf(t), b)
    decreases |t|
  {
    if t != "" {
      var n := |t| - 1;
      ValueIsNumber(t[..n], b);
      assert DigitsOf(t)[..n] == DigitsOf(t[..n]);
    }
  }

  // ---------------------------------------------------------------- what the digit loops print

  /** The letters of t all have the given case. */
  predicate InCase(t: string, upper: bool) {
    forall k :: 0 <= k < |t| ==> IsDigit(t[k], 16) && t[k] == DigitChar(DigitValue(t[k]), upper)
  }

  lemma {:induction false} DigitsInCase(v: nat, base: nat, upper: bool)
    requires 2 <= base <= 16
    ensures InCase(Digits(v, base, upper), upper)
    decreases v
  {
    if v != 0 {
      Shrinks(v, base);
      DigitsInCase(v / base, base, upper);
      DigitOfChar(v % base, upper);
    }
  }

  lemma {:induction false} PaddedInCase(v: nat, w: nat)
    ensures InCase(Padded(v, w), false)
    decreases w
  {
    if w != 0 {
      PaddedInCase(v / 16, w - 1);
      DigitOfChar(v % 16, false);
    }
  }

  lemma DecimalIs(v: nat)
    ensures IsNumeral(Numeral(v, 10, false), v, "0123456789")
  {
    var t := Numeral(v, 10, false);
    NumeralMeans(v, 10, false);
    DigitsInCase(v, 10, false);
    ValueIsNumber(t, 10);
    SpelledDecimal(t);
    assert Leads(DigitsOf(t));
  }

  lemma SpelledDecimal(t: string)
    requires AllDigits(t, 10)
    ensures Spells(t, DigitsOf(t), "0123456789")
  {
    forall k | 0 <= k < |t| ensures 0 <= DigitValue(t[k]) < 10 && t[k] == "0123456789"[DigitValue(t[k])] {
      assert IsDigit(t[k], 10);
    }
  }

  lemma HexIs(v: nat, upper: bool)
    ensures IsNumeral(Numeral(v, 16, upper), v, if upper then "0123456789ABCDEF" else "0123456789abcdef")
  {
    NumeralMeans(v, 16, upper);
    DigitsInCase(v, 16, upper);
    HexNumeral(Numeral(v, 16, upper), v, upper);
  }

  lemma HexNumeral(t: string, v: nat, upper: bool)
    requires Canonical(t, 16) && Value(t, 16) == v && InCase(t, upper)
    ensures IsNumeral(t, v, if upper then "0123456789ABCDEF" else "0123456789abcdef")
  {
    ValueIsNumber(t, 16);
    SpelledHex(t, upper);
    assert Leads(DigitsOf(t));
  }

  lemma SpelledHex(t: string, upper: bool)
    requires InCase(t, upper)
    ensures Spells(t, DigitsOf(t), if upper then "0123456789ABCDEF" else "0123456789abcdef")
  {
    forall k | 0 <= k < |t| ensures 0 <= DigitValue(t[k]) < 16 {
      assert IsDigit(t[k], 16);
    }
  }

  lemma PointerIs(v: nat)
    requires v <= UINT64_MAX
    ensures IsPadded(Padded(v, 16), v, 16, "0123456789abcdef")
  {
    Widths();
    PaddedMeans(v, 16);
    PaddedInCase(v, 16);
    ValueIsNumber(Padded(v, 16), 16);
    SpelledHex(Padded(v, 16), false);
  }
}
