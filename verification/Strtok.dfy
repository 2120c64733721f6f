/** The stateful tokenizer strtok of src/lib/string.c, and the loop of src/shell/shell.c that
    drives it. */
module Strtok {

  /** A token: the positions from its first character to the one after its last. */
  datatype Span = Span(start: nat, end: nat)

  /** chars holds a C string from lo with its terminator at nul. */
  predicate IsString(chars: seq<char>, lo: nat, nul: nat) {
    lo <= nul < |chars| && chars[nul] == '\0' && forall k :: lo <= k < nul ==> chars[k] != '\0'
  }

  /** The first position from i on that is not a delimiter, or nul. */
  function SkipDelims(chars: seq<char>, i: nat, nul: nat, delim: set<char>): (b: nat)
    requires i <= nul < |chars|
    ensures i <= b <= nul
    decreases nul - i
  {
    if i < nul && chars[i] in delim then SkipDelims(chars, i + 1, nul, delim) else i
  }

  /** The first position from i on that is a delimiter, or nul. */
  function TokenEnd(chars: seq<char>, i: nat, nul: nat, delim: set<char>): (e: nat)
    requires i <= nul < |chars|
    ensures i <= e <= nul
    decreases nul - i
  {
    if i < nul && chars[i] !in delim then TokenEnd(chars, i + 1, nul, delim) else i
  }

  /** The tokens of the string, left to right. */
  function Spans(chars: seq<char>, i: nat, nul: nat, delim: set<char>): seq<Span>
    requires i <= nul < |chars|
    decreases nul - i
  {
    var b := SkipDelims(chars, i, nul, delim);
    if b == nul then [] else
    var e := TokenEnd(chars, b, nul, delim);
    [Span(b, e)] + if e == nul then [] else Spans(chars, e + 1, nul, delim)
  }

  // ---------------------------------------------------------------- what the tokens are

  lemma {:induction false} SkipsDelims(chars: seq<char>, i: nat, nul: nat, delim: set<char>)
    requires i <= nul < |chars|
    ensures var b := SkipDelims(chars, i, nul, delim);
            (b < nul ==> chars[b] !in delim) && forall k :: i <= k < b ==> chars[k] in delim
    decreases nul - i
  {
    if i < nul && chars[i] in delim {
      SkipsDelims(chars, i + 1, nul, delim);
    }
  }

  lemma {:induction false} EndsToken(chars: seq<char>, i: nat, nul: nat, delim: set<char>)
    requires i <= nul < |chars|
    ensures var e := TokenEnd(chars, i, nul, delim);
            (e < nul ==> chars[e] in delim) && forall k :: i <= k < e ==> chars[k] !in delim
    decreases nul - i
  {
    if i < nul && chars[i] !in delim {
      EndsToken(chars, i + 1, nul, delim);
    }
  }

  /** A maximal run of characters that are not delimiters, within [lo, nul). */
  predicate IsRun(chars: seq<char>, lo: nat, nul: nat, delim: set<char>, t: Span)
    requires nul < |chars|
  {
    && lo <= t.start < t.end <= nul
    && (forall k :: t.start <= k < t.end ==> chars[k] !in delim)
    && (t.start == lo || chars[t.start - 1] in delim)
    && (t.end == nul || chars[t.end] in delim)
  }

  /** The tokens are maximal runs from i on, in order and with a delimiter between them. */
  predicate AreRuns(chars: seq<char>, lo: nat, i: nat, nul: nat, delim: set<char>, ts: seq<Span>)
    requires nul < |chars|
  {
    && (forall k :: 0 <= k < |ts| ==> IsRun(chars, lo, nul, delim, ts[k]) && i <= ts[k].start)
    && (forall j, k :: 0 <= j < k < |ts| ==> ts[j].end < ts[k].start)
  }

  lemma RunInFront(chars: seq<char>, lo: nat, i: nat, nul: nat, delim: set<char>, t: Span, rest: seq<Span>)
    requires nul < |chars| && i <= t.start && IsRun(chars, lo, nul, delim, t)
    requires AreRuns(chars, lo, t.end + 1, nul, delim, rest)
    ensures AreRuns(chars, lo, i, nul, delim, [t] + rest)
  {
  }

  lemma SpansFrom(chars: seq<char>, i: nat, nul: nat, delim: set<char>, b: nat, e: nat)
    requires i <= nul < |chars| && b == SkipDelims(chars, i, nul, delim) && e == TokenEnd(chars, b, nul, delim)
    ensures b == nul ==> Spans(chars, i, nul, delim) == []
    ensures b < nul && e == nul ==> Spans(chars, i, nul, delim) == [Span(b, e)] + []
    ensures b < nul && e < nul ==> Spans(chars, i, nul, delim) == [Span(b, e)] + Spans(chars, e + 1, nul, delim)
  {
  }

  lemma RunFound(chars: seq<char>, lo: nat, i: nat, nul: nat, delim: set<char>, b: nat, e: nat)
    requires lo <= i <= nul < |chars| && (i == lo || chars[i - 1] in delim)
    requires b == SkipDelims(chars, i, nul, delim) && e == TokenEnd(chars, b, nul, delim)
    ensures b < nul ==> IsRun(chars, lo, nul, delim, Span(b, e))
    ensures e < nul ==> chars[e] in delim
  {
    SkipsDelims(chars, i, nul, delim);
    EndsToken(chars, b, nul, delim);
  }

  lemma RunsFound(chars: seq<char>, lo: nat, i: nat, nul: nat, delim: set<char>, b: nat, e: nat, rest: seq<Span>)
    requires lo <= i <= nul < |chars| && (i == lo || chars[i - 1] in delim)
    requires b == SkipDelims(chars, i, nul, delim) < nul && e == TokenEnd(chars, b, nul, delim)
    requires AreRuns(chars, lo, e + 1, nul, delim, rest)
    ensures AreRuns(chars, lo, i, nul, delim, [Span(b, e)] + rest)
  {
    RunFound(chars, lo, i, nul, delim, b, e);
    RunInFront(chars, lo, i, nul, delim, Span(b, e), rest);
  }

  /** Every token is a maximal run, and they come in order with a delimiter between them. */
  lemma {:induction false} SpansAreRuns(chars: seq<char>, lo: nat, i: nat, nul: nat, delim: set<char>)
    requires lo <= i <= nul < |chars| && (i == lo || chars[i - 1] in delim)
    ensures AreRuns(chars, lo, i, nul, delim, Spans(chars, i, nul, delim))
    decreases nul - i
  {
    var b := SkipDelims(chars, i, nul, delim);
    var e := TokenEnd(chars, b, nul, delim);
    SpansFrom(chars, i, nul, delim, b, e);
    RunFound(chars, lo, i, nul, delim, b, e);
    if b < nul {
      if e < nul {
        SpansAreRuns(chars, lo, e + 1, nul, delim);
        RunsFound(chars, lo, i, nul, delim, b, e, Spans(chars, e + 1, nul, delim));
      } else {
        RunsFound(chars, lo, i, nul, delim, b, e, []);
      }
    }
  }

  predicate InSpan(t: Span, x: nat) {
    t.start <= x < t.end
  }

  predicate Covers(ts: seq<Span>, x: nat) {
    exists t :: t in ts && InSpan(t, x)
  }

  lemma CoversMore(t: Span, rest: seq<Span>, x: nat)
    ensures InSpan(t, x) || Covers(rest, x) ==> Covers([t] + rest, x)
  {
    assert t in [t] + rest;
    if Covers(rest, x) {
      var u :| u in rest && InSpan(u, x);
      assert u in [t] + rest;
    }
  }

  lemma FoundBefore(chars: seq<char>, i: nat, nul: nat, delim: set<char>, x: nat, b: nat, e: nat)
    requires i <= x < nul < |chars| && chars[x] !in delim
    requires b == SkipDelims(chars, i, nul, delim) && e == TokenEnd(chars, b, nul, delim)
    ensures b <= x && e != x
  {
    SkipsDelims(chars, i, nul, delim);
    EndsToken(chars, b, nul, delim);
  }

  /** And every character that is not a delimiter belongs to one of them. */
  lemma {:induction false} SpansCover(chars: seq<char>, i: nat, nul: nat, delim: set<char>, x: nat)
    requires i <= x < nul < |chars| && chars[x] !in delim
    ensures Covers(Spans(chars, i, nul, delim), x)
    decreases nul - i
  {
    var b := SkipDelims(chars, i, nul, delim);
    var e := TokenEnd(chars, b, nul, delim);
    FoundBefore(chars, i, nul, delim, x, b, e);
    SpansFrom(chars, i, nul, delim, b, e);
    if e < x {
      SpansCover(chars, e + 1, nul, delim, x);
      CoversMore(Span(b, e), Spans(chars, e + 1, nul, delim), x);
    } else {
      CoversMore(Span(b, e), if e == nul then [] else Spans(chars, e + 1, nul, delim), x);
    }
  }

  // ---------------------------------------------------------------- what the calls do

  /** The buffer after the first k tokens have been cut off: one NUL over the delimiter that
      follows each of them, if there is one. */
  function Cut(chars: seq<char>, nul: nat, ts: seq<Span>, k: nat): (r: seq<char>)
    requires k <= |ts| && nul < |chars|
    ensures |r| == |chars|
  {
    if k == 0 then chars else
    var r := Cut(chars, nul, ts, k - 1);
    if ts[k - 1].end < nul then r[ts[k - 1].end := '\0'] else r
  }

  /** strtok(NULL, delim) stops answering: the cursor is NULL. */
  const NONE := -1

  /** What a call of strtok answers, and the cursor and the buffer it leaves. */
  datatype Answer = Answer(token: int, last: int, chars: seq<char>)

  /** A call that begins at `from`: the next token if there is one, cut off by a NUL over the
      delimiter behind it, with the cursor after that NUL. */
  function Call(chars: seq<char>, from: int, nul: nat, delim: set<char>): Answer
    requires from == NONE || 0 <= from <= nul < |chars|
  {
    if from == NONE then Answer(NONE, NONE, chars) else
    var b := SkipDelims(chars, from, nul, delim);
    if b == nul then Answer(NONE, NONE, chars) else
    var e := TokenEnd(chars, b, nul, delim);
    if e == nul then Answer(b, NONE, chars) else Answer(b, e + 1, chars[e := '\0'])
  }

  /** The characters of a delimiter string. */
  function Chars(s: string): set<char> {
    set c | c in s
  }

  class Tokenizer {
    const buf: array<char>
    /** strtok_last. */
    var last: int

    constructor (buf: array<char>)
      ensures this.buf == buf && last == NONE
    {
      this.buf := buf;
      last := NONE;
    }

    method StrSpn(s: nat, ghost nul: nat, accept: string) returns (count: nat)
      requires IsString(buf[..], s, nul) && '\0' !in accept
      ensures s + count == SkipDelims(buf[..], s, nul, Chars(accept))
    {
      count := 0;
      while buf[s + count] != '\0'
        invariant s + count <= nul
        invariant SkipDelims(buf[..], s + count, nul, Chars(accept)) == SkipDelims(buf[..], s, nul, Chars(accept))
        decreases nul - (s + count)
      {
        var found := Contains(accept, buf[s + count]);
        if !found { break; }
        count := count + 1;
      }
    }

    /** The position of the first character of reject, or NONE. */
    method StrPbrk(s: nat, ghost nul: nat, reject: string) returns (p: int)
      requires IsString(buf[..], s, nul) && '\0' !in reject
      ensures var e := TokenEnd(buf[..], s, nul, Chars(reject)); p == if e == nul then NONE else e
    {
      var i := s;
      while buf[i] != '\0'
        invariant s <= i <= nul
        invariant TokenEnd(buf[..], i, nul, Chars(reject)) == TokenEnd(buf[..], s, nul, Chars(reject))
        decreases nul - i
      {
        var found := Contains(reject, buf[i]);
        if found { return i; }
        i := i + 1;
      }
      p := NONE;
    }

    /** One call. A string argument or the saved cursor gives the place to start; the answer
        is the next token, and at most one delimiter is overwritten. */
    method Strtok(str: int, delim: string, ghost nul: nat) returns (token: int)
      requires '\0' !in delim
      requires str == NONE || 0 <= str
      requires var from := if str == NONE then last else str;
               from == NONE || (0 <= from && IsString(buf[..], from, nul))
      modifies this`last, buf
      ensures Answer(token, last, buf[..])
           == Call(old(buf[..]), if str == NONE then old(last) else str, nul, Chars(delim))
    {
      var from := str;
      if from == NONE {
        from := last;
      }
      if from == NONE {
        last := NONE;
        return NONE;
      }
      var skipped := StrSpn(from, nul, delim);
      var start := from + skipped;
      if buf[start] == '\0' {
        last := NONE;
        return NONE;
      }
      token := start;
      var end := StrPbrk(start, nul, delim);
      if end == NONE {
        last := NONE;
      } else {
        buf[end] := '\0';
        last := end + 1;
      }
    }
  }

  /** The inner loops of strspn and strpbrk. */
  method Contains(chars: string, c: char) returns (found: bool)
    ensures found <==> c in chars
  {
    var a := 0;
    while a < |chars|
      invariant 0 <= a <= |chars| && c !in chars[..a]
    {
      if c == chars[a] { return true; }
      a := a + 1;
    }
    found := false;
  }

  // ---------------------------------------------------------------- the caller's loop

  predicate Same(c: seq<char>, d: seq<char>, i: nat, nul: nat) {
    nul < |c| == |d| && forall x :: i <= x <= nul ==> c[x] == d[x]
  }

  lemma {:induction false} SameDelims(c: seq<char>, d: seq<char>, i: nat, nul: nat, delim: set<char>)
    requires i <= nul && Same(c, d, i, nul)
    ensures SkipDelims(c, i, nul, delim) == SkipDelims(d, i, nul, delim)
    decreases nul - i
  {
    if i < nul && c[i] in delim {
      SameDelims(c, d, i + 1, nul, delim);
    }
  }

  lemma {:induction false} SameTokenEnd(c: seq<char>, d: seq<char>, i: nat, nul: nat, delim: set<char>)
    requires i <= nul && Same(c, d, i, nul)
    ensures TokenEnd(c, i, nul, delim) == TokenEnd(d, i, nul, delim)
    decreases nul - i
  {
    if i < nul && c[i] !in delim {
      SameTokenEnd(c, d, i + 1, nul, delim);
    }
  }

  /** From position i on the buffer is still `chars`, and holds the tokens from the kth on. */
  ghost predicate Rest(now: seq<char>, chars: seq<char>, i: int, nul: nat, delim: set<char>, ts: seq<Span>, k: nat)
    requires nul < |chars| && k <= |ts|
  {
    0 <= i <= nul && Same(chars, now, i, nul) && Spans(chars, i, nul, delim) == ts[k..]
  }

  /** k of the tokens ts of `chars` have been returned, the buffer is cut after each of them,
      and `from`, where the next call begins, stands before the others. */
  ghost predicate After(now: seq<char>, from: int, chars: seq<char>, nul: nat,
                        delim: set<char>, ts: seq<Span>, k: nat) {
    && nul < |chars| && k <= |ts| && now == Cut(chars, nul, ts, k)
    && if from == NONE then k == |ts| else Rest(now, chars, from, nul, delim, ts, k)
  }

  lemma SameBeyond(c: seq<char>, d: seq<char>, i: nat, e: nat, nul: nat)
    requires Same(c, d, i, nul) && i <= e <= nul
    ensures Same(c, d[e := '\0'], e + 1, nul)
  {
  }

  lemma FirstOfRest(ts: seq<Span>, k: nat, t: Span, rest: seq<Span>)
    requires k <= |ts| && ts[k..] == [t] + rest
    ensures k < |ts| && ts[k] == t && ts[k + 1..] == rest && (rest == [] ==> k + 1 == |ts|)
  {
    assert ts[k] == ts[k..][0];
    assert ts[k + 1..] == ts[k..][1..];
  }

  lemma NextSpan(chars: seq<char>, i: nat, nul: nat, delim: set<char>, ts: seq<Span>, k: nat, b: nat, e: nat)
    requires i <= nul < |chars| && b == SkipDelims(chars, i, nul, delim) && e == TokenEnd(chars, b, nul, delim)
    requires k <= |ts| && Spans(chars, i, nul, delim) == ts[k..]
    ensures b == nul ==> k == |ts|
    ensures b < nul ==> k < |ts| && ts[k] == Span(b, e) && (e == nul ==> k + 1 == |ts|)
    ensures b < nul && e < nul ==> Spans(chars, e + 1, nul, delim) == ts[k + 1..]
  {
    SpansFrom(chars, i, nul, delim, b, e);
    if b < nul {
      FirstOfRest(ts, k, Span(b, e), if e == nul then [] else Spans(chars, e + 1, nul, delim));
    }
  }

  /** The answer when the token found from position i is the kth. */
  lemma AnswerIsToken(now: seq<char>, chars: seq<char>, i: nat, nul: nat, delim: set<char>,
                      ts: seq<Span>, k: nat, b: nat, e: nat)
    requires i <= nul && After(now, i, chars, nul, delim, ts, k)
    requires b == SkipDelims(now, i, nul, delim) < nul && e == TokenEnd(now, b, nul, delim)
    requires k < |ts| && ts[k] == Span(b, e) && (e == nul ==> k + 1 == |ts|)
    requires e < nul ==> Rest(now[e := '\0'], chars, e + 1, nul, delim, ts, k + 1)
    ensures var a := Call(now, i, nul, delim);
            a.token == b && After(a.chars, a.last, chars, nul, delim, ts, k + 1)
  {
  }

  /** One more call answers with the next token of the original string, or with NULL when
      there is none left. */
  lemma NextAnswer(now: seq<char>, from: int, chars: seq<char>, nul: nat, delim: set<char>, ts: seq<Span>, k: nat)
    requires After(now, from, chars, nul, delim, ts, k)
    ensures var a := Call(now, from, nul, delim);
            if k < |ts|
            then a.token == ts[k].start && After(a.chars, a.last, chars, nul, delim, ts, k + 1)
            else a.token == NONE && After(a.chars, a.last, chars, nul, delim, ts, k)
  {
    if from != NONE {
      var b := SkipDelims(chars, from, nul, delim);
      var e := TokenEnd(chars, b, nul, delim);
      SameDelims(chars, now, from, nul, delim);
      SameTokenEnd(chars, now, b, nul, delim);
      NextSpan(chars, from, nul, delim, ts, k, b, e);
      SameBeyond(chars, now, from, e, nul);
      if b < nul {
        AnswerIsToken(now, chars, from, nul, delim, ts, k, b, e);
      }
    }
  }

  /** argv points to the first tokens, in order. */
  predicate Starts(argv: seq<int>, ts: seq<Span>) {
    |argv| <= |ts| && forall k :: 0 <= k < |argv| ==> argv[k] == ts[k].start
  }

  lemma StartsMore(argv: seq<int>, ts: seq<Span>, token: int)
    requires Starts(argv, ts) && |argv| < |ts| && token == ts[|argv|].start
    ensures Starts(argv + [token], ts)
  {
  }

  /** ts are the tokens of the string that ends at nul: left to right, each a run of characters
      outside delims, without a neighbour that could join it, and together all such characters. */
  predicate AreTokens(chars: seq<char>, nul: nat, delims: string, ts: seq<Span>)
    requires nul < |chars|
  {
    && (forall k :: 0 <= k < |ts| ==> IsToken(chars, nul, delims, ts[k]))
    && (forall j, k :: 0 <= j < k < |ts| ==> ts[j].end < ts[k].start)
    && (forall x: nat :: x < nul && chars[x] !in delims ==> Covers(ts, x))
  }

  predicate IsToken(chars: seq<char>, nul: nat, delims: string, t: Span)
    requires nul < |chars|
  {
    && t.start < t.end <= nul
    && (forall x :: t.start <= x < t.end ==> chars[x] !in delims)
    && (0 < t.start ==> chars[t.start - 1] in delims)
    && (t.end < nul ==> chars[t.end] in delims)
  }

  lemma SpansAreTokens(chars: seq<char>, nul: nat, delims: string)
    requires nul < |chars|
    ensures AreTokens(chars, nul, delims, Spans(chars, 0, nul, Chars(delims)))
  {
    var ts := Spans(chars, 0, nul, Chars(delims));
    SpansAreRuns(chars, 0, 0, nul, Chars(delims));
    forall k | 0 <= k < |ts| ensures IsToken(chars, nul, delims, ts[k]) {
      assert IsRun(chars, 0, nul, Chars(delims), ts[k]);
    }
    forall x: nat | x < nul && chars[x] !in delims ensures Covers(ts, x) {
      SpansCover(chars, 0, nul, Chars(delims), x);
    }
  }

  /** A string has one list of tokens. */
  lemma TokensUnique(chars: seq<char>, nul: nat, delims: string, ts: seq<Span>, us: seq<Span>)
    requires nul < |chars| && AreTokens(chars, nul, delims, ts) && AreTokens(chars, nul, delims, us)
    ensures ts == us
  {
    TokensAgree(chars, nul, delims, ts, us, |ts|);
    TokensAgree(chars, nul, delims, us, ts, |us|);
    assert us[..|us|] == us && ts[..|ts|] == ts;
  }

  lemma {:induction false} TokensAgree(chars: seq<char>, nul: nat, delims: string, ts: seq<Span>, us: seq<Span>,
                                       k: nat)
    requires nul < |chars| && AreTokens(chars, nul, delims, ts) && AreTokens(chars, nul, delims, us)
    requires k <= |ts|
    ensures k <= |us| && ts[..k] == us[..k]
    decreases k
  {
    if 0 < k {
      TokensAgree(chars, nul, delims, ts, us, k - 1);
      StartsNoLater(chars, nul, delims, ts, us, k - 1);
      StartsNoLater(chars, nul, delims, us, ts, k - 1);
      EndsNoLater(chars, nul, delims, ts[k - 1], us[k - 1]);
      EndsNoLater(chars, nul, delims, us[k - 1], ts[k - 1]);
      assert ts[..k] == ts[..k - 1] + [ts[k - 1]] && us[..k] == us[..k - 1] + [us[k - 1]];
    }
  }

  lemma StartsNoLater(chars: seq<char>, nul: nat, delims: string, ts: seq<Span>, us: seq<Span>, k: nat)
    requires nul < |chars| && AreTokens(chars, nul, delims, ts) && AreTokens(chars, nul, delims, us)
    requires k < |ts| && k <= |us| && ts[..k] == us[..k]
    ensures k < |us| && us[k].start <= ts[k].start
  {
    var x := ts[k].start;
    assert IsToken(chars, nul, delims, ts[k]);
    assert Covers(us, x);
    forall j | 0 <= j < k ensures us[j].end < ts[k].start {
      assert us[..k][j] == ts[..k][j];
    }
    var u :| u in us && InSpan(u, x);
    var j :| 0 <= j < |us| && us[j] == u;
    assert k < j ==> us[k].end < us[j].start;
    assert IsToken(chars, nul, delims, us[k]);
  }

  lemma EndsNoLater(chars: seq<char>, nul: nat, delims: string, t: Span, u: Span)
    requires nul < |chars| && IsToken(chars, nul, delims, t) && IsToken(chars, nul, delims, u) && t.start == u.start
    ensures t.end <= u.end
  {
  }

  /** What the caller reads at its arguments: each token in full, then a NUL. */
  predicate ReadsTokens(now: seq<char>, chars: seq<char>, ts: seq<Span>, n: nat) {
    |now| == |chars| && n <= |ts| && forall j :: 0 <= j < n ==>
      && ts[j].start < ts[j].end < |now| && now[ts[j].end] == '\0'
      && now[ts[j].start..ts[j].end] == chars[ts[j].start..ts[j].end]
  }

  lemma ReadsCut(chars: seq<char>, nul: nat, delim: set<char>, ts: seq<Span>, k: nat, n: nat)
    requires IsString(chars, 0, nul) && ts == Spans(chars, 0, nul, delim) && n <= k <= |ts|
    ensures ReadsTokens(Cut(chars, nul, ts, k), chars, ts, n)
  {
    var now := Cut(chars, nul, ts, k);
    forall j | 0 <= j < n
      ensures ts[j].start < ts[j].end < |now| && now[ts[j].end] == '\0'
      ensures now[ts[j].start..ts[j].end] == chars[ts[j].start..ts[j].end]
    {
      CutTokens(chars, nul, delim, ts, k, j);
    }
  }

  /** The loop of the shell: strtok on the string, then on NULL, until NULL comes back or the
      argument vector is full. The arguments are the first tokens of the string, in order. */
  method Tokenize(t: Tokenizer, delims: string, maxArgs: nat, ghost nul: nat) returns (argv: seq<int>)
    requires '\0' !in delims && IsString(t.buf[..], 0, nul)
    modifies t`last, t.buf
    ensures var chars := old(t.buf[..]);
            var ts := Spans(chars, 0, nul, Chars(delims));
            && |argv| == (if |ts| <= maxArgs then |ts| else maxArgs)
            && Starts(argv, ts)
            && t.buf[..] == Cut(chars, nul, ts, if |ts| <= maxArgs then |ts| else maxArgs + 1)
            && AreTokens(chars, nul, delims, ts) && ReadsTokens(t.buf[..], chars, ts, |argv|)
  {
    ghost var chars, delim := t.buf[..], Chars(delims);
    SpansAreTokens(chars, nul, delims);
    ghost var ts := Spans(chars, 0, nul, delim);
    argv := FirstTokens(t, delims, maxArgs, nul, delim, chars, ts);
    ReadsCut(chars, nul, delim, ts, if |ts| <= maxArgs then |ts| else maxArgs + 1, |argv|);
  }

  method FirstTokens(t: Tokenizer, delims: string, maxArgs: nat, ghost nul: nat,
                     ghost delim: set<char>, ghost chars: seq<char>, ghost ts: seq<Span>)
    returns (argv: seq<int>)
    requires '\0' !in delims && delim == Chars(delims) && chars == t.buf[..] && IsString(chars, 0, nul)
    requires ts == Spans(chars, 0, nul, delim)
    modifies t`last, t.buf
    ensures |argv| == (if |ts| <= maxArgs then |ts| else maxArgs) && Starts(argv, ts)
    ensures t.buf[..] == Cut(chars, nul, ts, if |ts| <= maxArgs then |ts| else maxArgs + 1)
  {
    argv := [];
    Beginning(chars, nul, delim, ts);
    NextAnswer(t.buf[..], 0, chars, nul, delim, ts, 0);
    var token := t.Strtok(0, delims, nul);
    while token != NONE && |argv| < maxArgs
      invariant |argv| <= maxArgs && Starts(argv, ts)
      invariant token != NONE ==> |argv| < |ts| && token == ts[|argv|].start
      invariant token == NONE ==> |argv| == |ts|
      invariant After(t.buf[..], t.last, chars, nul, delim, ts, if token == NONE then |argv| else |argv| + 1)
      decreases |ts| - |argv|
    {
      StartsMore(argv, ts, token);
      argv := argv + [token];
      NextAnswer(t.buf[..], t.last, chars, nul, delim, ts, |argv|);
      StringFrom(t.buf[..], t.last, chars, nul, delim, ts, |argv|);
      token := t.Strtok(NONE, delims, nul);
    }
  }

  lemma Beginning(chars: seq<char>, nul: nat, delim: set<char>, ts: seq<Span>)
    requires nul < |chars| && ts == Spans(chars, 0, nul, delim)
    ensures After(chars, 0, chars, nul, delim, ts, 0)
  {
    assert ts[0..] == ts;
  }

  lemma StringFrom(now: seq<char>, from: int, chars: seq<char>, nul: nat, delim: set<char>, ts: seq<Span>, k: nat)
    requires IsString(chars, 0, nul) && After(now, from, chars, nul, delim, ts, k)
    ensures from == NONE || (0 <= from && IsString(now, from, nul))
  {
  }

  /** Cutting leaves alone every character that no cut token ends at. */
  lemma {:induction false} CutKeeps(chars: seq<char>, nul: nat, ts: seq<Span>, k: nat, x: nat)
    requires k <= |ts| && nul < |chars| && x < |chars| && forall m :: 0 <= m < k ==> ts[m].end != x
    ensures Cut(chars, nul, ts, k)[x] == chars[x]
    decreases k
  {
    if k > 0 {
      CutKeeps(chars, nul, ts, k - 1, x);
    }
  }

  /** And every cut token ends at a NUL. */
  lemma {:induction false} CutEnds(chars: seq<char>, nul: nat, ts: seq<Span>, k: nat, m: nat)
    requires m < k <= |ts| && nul < |chars| && chars[nul] == '\0' && ts[m].end <= nul
    ensures Cut(chars, nul, ts, k)[ts[m].end] == '\0' && Cut(chars, nul, ts, k)[nul] == '\0'
    decreases k
  {
    if m < k - 1 {
      CutEnds(chars, nul, ts, k - 1, m);
    } else {
      CutTerminator(chars, nul, ts, k);
    }
  }

  lemma {:induction false} CutTerminator(chars: seq<char>, nul: nat, ts: seq<Span>, k: nat)
    requires k <= |ts| && nul < |chars| && chars[nul] == '\0'
    ensures Cut(chars, nul, ts, k)[nul] == '\0'
    decreases k
  {
    if 0 < k {
      CutTerminator(chars, nul, ts, k - 1);
    }
  }

  /** What the caller reads at a token once the buffer is cut: the token, then a NUL. */
  lemma CutTokens(chars: seq<char>, nul: nat, delim: set<char>, ts: seq<Span>, k: nat, j: nat)
    requires IsString(chars, 0, nul) && ts == Spans(chars, 0, nul, delim) && j < k <= |ts|
    ensures ts[j].start < ts[j].end <= nul && Cut(chars, nul, ts, k)[ts[j].end] == '\0'
    ensures forall x :: ts[j].start <= x < ts[j].end ==> Cut(chars, nul, ts, k)[x] == chars[x]
  {
    SpansAreRuns(chars, 0, 0, nul, delim);
    assert IsRun(chars, 0, nul, delim, ts[j]);
    CutEnds(chars, nul, ts, k, j);
    EndsOutside(chars, nul, delim, ts, k, j);
    forall x | ts[j].start <= x < ts[j].end ensures Cut(chars, nul, ts, k)[x] == chars[x] {
      CutKeeps(chars, nul, ts, k, x);
    }
  }

  lemma EndsOutside(chars: seq<char>, nul: nat, delim: set<char>, ts: seq<Span>, k: nat, j: nat)
    requires nul < |chars| && j < k <= |ts| && forall m :: 0 <= m < k ==> IsRun(chars, 0, nul, delim, ts[m])
    ensures forall m :: 0 <= m < k ==> ts[m].end < ts[j].start || ts[j].end <= ts[m].end
  {
    forall m | 0 <= m < k ensures ts[m].end < ts[j].start || ts[j].end <= ts[m].end {
      assert IsRun(chars, 0, nul, delim, ts[m]) && IsRun(chars, 0, nul, delim, ts[j]);
    }
  }
}
