/** The bytes behind the quoting rules, written out: what the escaper may emit, what each
    escape reads as, and which bytes are blanks. */
module SdsEscapes {
  import opened Decimal
  import opened Options
  import opened SdsSplit
  import opened SdsArgs
  import opened SdsQuoting
  import opened SdsBalance

  // ---- the escaper ----

  /** Every byte of the quoted form is a printable character. */
  lemma {:induction false} EscapeIsPrintable(p: Bytes)
    ensures forall b <- Escape(p) :: 32 <= b <= 126
  {
    if p != [] {
      EscapeIsPrintable(p[1..]);
      assert forall b <- EscapeByte(p[0]) :: 32 <= b <= 126;
    }
  }

  lemma ReprIsPrintable(p: Bytes)
    ensures forall b <- Repr(p) :: 32 <= b <= 126
    ensures Repr(p)[0] == Repr(p)[|Repr(p)| - 1] == '\"' as int
  {
    EscapeIsPrintable(p);
  }

  /** How each byte is written: the seven short escapes, printable characters as they are,
      and two lower-case hexadecimal digits for the rest. */
  lemma EscapeTable(b: Byte)
    ensures Escape([b]) ==
            if b == 92 then ['\\' as int, '\\' as int]
            else if b == 34 then ['\\' as int, '\"' as int]
            else if b == 10 then ['\\' as int, 'n' as int]
            else if b == 13 then ['\\' as int, 'r' as int]
            else if b == 9 then ['\\' as int, 't' as int]
            else if b == 7 then ['\\' as int, 'a' as int]
            else if b == 8 then ['\\' as int, 'b' as int]
            else if 32 <= b <= 126 then [b]
            else ['\\' as int, 'x' as int, "0123456789abcdef"[b / 16] as int, "0123456789abcdef"[b % 16] as int]
  {
    LowerDigit(b / 16);
    LowerDigit(b % 16);
    assert [b][1..] == [];
    assert EscapeByte(b) + [] == EscapeByte(b);
  }

  lemma LowerDigit(v: nat)
    requires v < 16
    ensures "0123456789abcdef"[v] as int == HexDigit(v)
  {
  }

  // ---- what escapes read as ----

  /** The digit of value `v`, in lower or in upper case. */
  predicate IsDigitOf(d: Byte, v: nat)
    requires v < 16
  {
    d == "0123456789abcdef"[v] as int || d == "0123456789ABCDEF"[v] as int
  }

  lemma DigitValue(d: Byte, v: nat)
    requires v < 16 && IsDigitOf(d, v)
    ensures IsHexDigit(d) && HexDigitToInt(d) == v && d != 0 && d != QUOTE
  {
  }

  /** There are no other digits. */
  lemma OnlyDigits(d: Byte)
    ensures IsHexDigit(d) <==> exists v: nat :: v < 16 && IsDigitOf(d, v)
  {
    if IsHexDigit(d) {
      assert IsDigitOf(d, HexDigitToInt(d));
    }
  }

  ghost predicate IsEscapeOf(e: Bytes, b: Byte) {
    forall t: Bytes | t != [] && t[0] == QUOTE ::
      ScanToken(e + t, Quoted, []) == ScanToken(t, Quoted, [b])
  }

  lemma ClosesHere(rest: Bytes, current: Bytes)
    requires rest == [] || IsSpace(rest[0])
    ensures ScanToken([QUOTE] + rest, Quoted, current) == Token(current, rest)
  {
    assert ([QUOTE] + rest)[1..] == rest;
    assert Peek([QUOTE] + rest, 1) == Peek(rest, 0);
  }

  lemma LineWithEscape(e: Bytes, rest: Bytes)
    ensures [QUOTE] + e + [QUOTE] + rest == [QUOTE] + (e + ([QUOTE] + rest))
  {
  }

  lemma OpensWith(s: Bytes)
    ensures ScanToken([QUOTE] + s, Plain, []) == ScanToken(s, Quoted, [])
  {
    OpenQuote([QUOTE] + s, []);
    assert ([QUOTE] + s)[1..] == s;
  }

  lemma EscapeThen(e: Bytes, b: Byte, rest: Bytes)
    requires IsEscapeOf(e, b) && (rest == [] || rest[0] == SPACE)
    ensures ScanToken([QUOTE] + e + [QUOTE] + rest, Plain, []) == Token([b], rest)
  {
    var t := [QUOTE] + rest;
    LineWithEscape(e, rest);
    OpensWith(e + t);
    assert ScanToken(e + t, Quoted, []) == ScanToken(t, Quoted, [b]);
    ClosesHere(rest, [b]);
  }

  /** An escape between quotes reads as its byte. */
  lemma ReadsEscape(e: Bytes, b: Byte)
    requires IsEscapeOf(e, b)
    ensures ReadsAs([QUOTE] + e + [QUOTE], [b])
  {
    forall rest: Bytes | rest == [] || rest[0] == SPACE
      ensures TokenThen(ScanToken([QUOTE] + e + [QUOTE] + rest, Plain, []), [b], rest)
    {
      EscapeThen(e, b, rest);
    }
  }

  lemma ScanHexEscape(d1: Byte, d2: Byte, t: Bytes)
    requires IsHexDigit(d1) && IsHexDigit(d2)
    ensures ScanToken([92, 120, d1, d2] + t, Quoted, [])
            == ScanToken(t, Quoted, [HexDigitToInt(d1) * 16 + HexDigitToInt(d2)])
  {
    var u: Bytes := [92, 120, d1, d2] + t;
    assert u[0] == 92 && u[1] == 120 && u[2] == d1 && u[3] == d2 && u[4..] == t;
    assert [] + [HexDigitToInt(d1) * 16 + HexDigitToInt(d2)] == [HexDigitToInt(d1) * 16 + HexDigitToInt(d2)];
  }

  /** "\xHH" reads as the byte with these digits, in either case. */
  lemma HexEscapeReadsAs(hi: nat, lo: nat, d1: Byte, d2: Byte)
    requires hi < 16 && lo < 16 && IsDigitOf(d1, hi) && IsDigitOf(d2, lo)
    ensures ReadsAs(['\"' as int, '\\' as int, 'x' as int, d1, d2, '\"' as int], [16 * hi + lo])
  {
    DigitValue(d1, hi);
    DigitValue(d2, lo);
    var e := [92, 120, d1, d2];
    forall t: Bytes | t != [] && t[0] == QUOTE
      ensures ScanToken(e + t, Quoted, []) == ScanToken(t, Quoted, [16 * hi + lo])
    {
      ScanHexEscape(d1, d2, t);
    }
    ReadsEscape(e, 16 * hi + lo);
    assert [QUOTE] + e + [QUOTE] == [34, 92, 120, d1, d2, 34];
  }

  /** A backslash before any other byte reads as the control character of its letter, or as
      the byte itself; `x` without two digits behind it is such a byte. */
  lemma EscapeReadsAs(c: Byte)
    requires c != 0
    ensures ReadsAs(['\"' as int, '\\' as int, c, '\"' as int],
                    [if c == 'n' as int then 10
                     else if c == 'r' as int then 13
                     else if c == 't' as int then 9
                     else if c == 'b' as int then 8
                     else if c == 'a' as int then 7
                     else c])
  {
    var e, b := [92, c], Unescape(c);
    forall t: Bytes | t != [] && t[0] == QUOTE
      ensures ScanToken(e + t, Quoted, []) == ScanToken(t, Quoted, [b])
    {
      assert (e + t)[2..] == t && (e + t)[2] == QUOTE;
      assert [] + [b] == [b];
    }
    ReadsEscape(e, b);
    assert [QUOTE] + e + [QUOTE] == [34, 92, c, 34];
  }

  // ---- blanks ----

  /** A byte between two words separates them if it is a space, a newline, a carriage return
      or a tab; it is part of the word otherwise, also if it is a vertical tab or form feed. */
  lemma BetweenWords(b: Byte)
    requires b !in {0, 34, 39}
    ensures Arguments(['u' as int, b, 'v' as int]) ==
            if b in {32, 10, 13, 9} then Some([['u' as int], ['v' as int]])
            else Some([['u' as int, b, 'v' as int]])
  {
    var u: Bytes, v: Bytes := [117], [118];
    var line := [117, b, 118];
    WordAlone(v);
    if b in {32, 10, 13, 9} {
      ScanWord(u, [b, 118], []);
      assert u + [b, 118] == line && [] + u == u;
      assert [b, 118][1..] == v;
      OneArgument(line, u, v);
      assert [u] + [v] == [u, v];
    } else {
      WordAlone(line);
    }
  }

  lemma OneArgument(t: Bytes, text: Bytes, rest: Bytes)
    requires t != [] && !IsSpace(t[0]) && ScanToken(t, Plain, []) == Token(text, rest)
    ensures Arguments(t) == Prepend([text], Arguments(rest))
  {
    assert SkipBlanks(t) == t;
  }

  lemma WordAlone(w: Bytes)
    requires IsWord(w)
    ensures Arguments(w) == Some([w])
  {
    ScanWord(w, [], []);
    assert w + [] == w && [] + w == w;
    OneArgument(w, w, []);
    assert Arguments([]) == Some([]);
    assert [w] + [] == [w];
  }

  /** Before an argument all six blanks are skipped, and no other byte. */
  lemma BeforeWord(b: Byte)
    requires b !in {0, 34, 39}
    ensures Arguments([b, 'v' as int]) ==
            if b in {32, 9, 10, 11, 12, 13} then Some([['v' as int]]) else Some([[b, 'v' as int]])
  {
    WordAlone([118]);
    if b in {32, 9, 10, 11, 12, 13} {
      assert [b, 118][1..] == [118];
      assert SkipBlanks([b, 118]) == SkipBlanks([118]);
    } else {
      WordAlone([b, 118]);
    }
  }

  /** After a closing quote all six blanks may follow, and no other byte. */
  lemma AfterQuote(b: Byte)
    requires b != 0
    ensures Arguments(['\"' as int, '\"' as int, b, 'v' as int]) ==
            if b in {32, 9, 10, 11, 12, 13} then Some([[], ['v' as int]]) else None
    ensures Arguments(['\'' as int, '\'' as int, b, 'v' as int]) ==
            if b in {32, 9, 10, 11, 12, 13} then Some([[], ['v' as int]]) else None
  {
    EmptyQuotes(34, b);
    EmptyQuotes(39, b);
  }

  lemma EmptyQuotes(q: Byte, b: Byte)
    requires b != 0 && (q == 34 || q == 39)
    ensures Arguments([q, q, b, 118]) == if b in {32, 9, 10, 11, 12, 13} then Some([[], [118]]) else None
  {
    var line := [q, q, b, 118];
    var mode := if q == 34 then Quoted else SingleQuoted;
    assert line[1..] == [q, b, 118] && [q, b, 118][1..] == [b, 118];
    assert ScanToken(line, Plain, []) == ScanToken([q, b, 118], mode, []);
    assert ScanToken([q, b, 118], mode, []) == CloseQuote([q, b, 118], []);
    assert SkipBlanks(line) == line;
    if b in {32, 9, 10, 11, 12, 13} {
      BeforeWord(b);
      OneArgument(line, [], [b, 118]);
      var none, word: Bytes := [], [118];
      assert [none] + [word] == [none, word];
    }
  }
}
