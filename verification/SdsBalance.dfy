/** Which lines the tokenizer accepts: where a quote closes is decided by the backslashes
    right before it, and a line is refused exactly for a quote that is unclosed or badly
    closed. */
module SdsBalance {
  import opened Decimal
  import opened Options
  import opened SdsSplit
  import opened SdsArgs
  import opened SdsQuoting

  // ---- where a quote closes ----

  /** How many backslashes stand right before position `k`. */
  function Backslashes(s: Bytes, k: nat): (n: nat)
    requires k <= |s|
    ensures n <= k
  {
    if k == 0 || s[k - 1] != BACKSLASH then 0 else 1 + Backslashes(s, k - 1)
  }

  /** Position `k` of the text after an opening quote closes it: a double quote after an
      even number of backslashes, an apostrophe after none. */
  predicate Closes(s: Bytes, mode: Mode, k: nat) {
    && k < |s|
    && match mode
       case Quoted => s[k] == QUOTE && Backslashes(s, k) % 2 == 0
       case SingleQuoted => s[k] == APOSTROPHE && Backslashes(s, k) == 0
       case Plain => false
  }

  /** The first position that closes the quote, or the length if there is none. */
  function Close(s: Bytes, mode: Mode): (k: nat)
    ensures k <= |s| && (k < |s| ==> Closes(s, mode, k))
    ensures forall j: nat | j < k :: !Closes(s, mode, j)
  {
    CloseFrom(s, mode, 0)
  }

  function CloseFrom(s: Bytes, mode: Mode, from: nat): (k: nat)
    requires from <= |s|
    ensures from <= k <= |s| && (k < |s| ==> Closes(s, mode, k))
    ensures forall j: nat | from <= j < k :: !Closes(s, mode, j)
    decreases |s| - from
  {
    if from == |s| || Closes(s, mode, from) then from else CloseFrom(s, mode, from + 1)
  }

  lemma CloseUnique(s: Bytes, mode: Mode, k: nat)
    requires k <= |s| && (k < |s| ==> Closes(s, mode, k))
    requires forall j: nat | j < k :: !Closes(s, mode, j)
    ensures Close(s, mode) == k
  {
  }

  lemma {:induction false} BackslashesShift(s: Bytes, n: nat, j: nat)
    requires n + j <= |s|
    ensures j > 0 && s[n + j - 1] != BACKSLASH ==> Backslashes(s, n + j) == Backslashes(s[n..], j) == 0
    ensures Backslashes(s, n) % 2 == 0 ==> Backslashes(s, n + j) % 2 == Backslashes(s[n..], j) % 2
    ensures Backslashes(s, n) == 0 ==> Backslashes(s, n + j) == Backslashes(s[n..], j)
    decreases j
  {
    if j > 0 {
      assert s[n..][j - 1] == s[n + j - 1];
      BackslashesShift(s, n, j - 1);
    }
  }

  /** How many bytes the tokenizer takes at once inside quotes. */
  function UnitSize(s: Bytes, mode: Mode): (n: nat)
    requires s != []
    ensures 1 <= n <= |s|
  {
    match mode
    case Quoted =>
      if s[0] == BACKSLASH && Peek(s, 1) == 120 && IsHexDigit(Peek(s, 2)) && IsHexDigit(Peek(s, 3)) then 4
      else if s[0] == BACKSLASH && Peek(s, 1) != 0 then 2
      else 1
    case SingleQuoted => if s[0] == BACKSLASH && Peek(s, 1) == APOSTROPHE then 2 else 1
    case Plain => 1
  }

  /** What it takes them for. */
  function UnitByte(s: Bytes, mode: Mode): Byte
    requires s != []
  {
    var n := UnitSize(s, mode);
    if n == 4 then HexDigitToInt(s[2]) * 16 + HexDigitToInt(s[3])
    else if n == 1 then s[0]
    else if mode == Quoted then Unescape(s[1])
    else s[1]
  }

  lemma ScanUnit(s: Bytes, mode: Mode, current: Bytes)
    requires s != [] && mode != Plain && !Closes(s, mode, 0)
    ensures ScanToken(s, mode, current) == ScanToken(s[UnitSize(s, mode)..], mode, current + [UnitByte(s, mode)])
  {
  }

  /** The bytes taken at once hold no closing quote, and what closes it does not depend on
      them: an escape has an even number of backslashes in a row at its end, or none. */
  lemma UnitKeepsClosing(s: Bytes, mode: Mode)
    requires s != [] && 0 !in s && mode != Plain && !Closes(s, mode, 0)
    ensures var n := UnitSize(s, mode);
            && (forall j: nat | j < n :: !Closes(s, mode, j))
            && (forall j: nat | n + j < |s| :: Closes(s, mode, n + j) <==> Closes(s[n..], mode, j))
  {
    var n := UnitSize(s, mode);
    assert n < |s| && mode == Quoted ==> Backslashes(s, n) % 2 == 0;
    forall j: nat | n + j < |s|
      ensures Closes(s, mode, n + j) <==> Closes(s[n..], mode, j)
    {
      BackslashesShift(s, n, j);
    }
  }

  lemma UnitKeepsClose(s: Bytes, mode: Mode)
    requires s != [] && 0 !in s && mode != Plain && !Closes(s, mode, 0)
    ensures Close(s, mode) == UnitSize(s, mode) + Close(s[UnitSize(s, mode)..], mode)
  {
    var n := UnitSize(s, mode);
    UnitKeepsClosing(s, mode);
    var k := n + Close(s[n..], mode);
    forall j: nat | j < k
      ensures !Closes(s, mode, j)
    {
      if j >= n {
        assert !Closes(s[n..], mode, j - n);
      }
    }
    CloseUnique(s, mode, k);
  }

  /** Inside quotes the scan ends at the closing quote, which must be followed by a blank
      or nothing. */
  lemma {:induction false} ScanToClose(s: Bytes, mode: Mode, current: Bytes)
    requires 0 !in s && mode != Plain
    ensures var k := Close(s, mode);
            var scan := ScanToken(s, mode, current);
            if k == |s| || (k + 1 < |s| && !IsSpace(s[k + 1])) then scan == Unbalanced
            else scan.Token? && scan.rest == s[k + 1..]
    decreases |s|
  {
    if s != [] && !Closes(s, mode, 0) {
      var n := UnitSize(s, mode);
      UnitKeepsClose(s, mode);
      ScanUnit(s, mode, current);
      ScanToClose(s[n..], mode, current + [UnitByte(s, mode)]);
      var k := Close(s[n..], mode);
      assert k < |s[n..]| ==> s[n..][k + 1..] == s[n + k + 1..];
      assert k + 1 < |s[n..]| ==> s[n..][k + 1] == s[n + k + 1];
    } else if s != [] {
      CloseUnique(s, mode, 0);
    }
  }

  // ---- which arguments are refused ----

  /** The first byte that is not part of a plain word. */
  function WordEnd(t: Bytes): (q: nat)
    ensures q <= |t| && (q < |t| ==> IsSpecial(t[q]))
    ensures forall j | 0 <= j < q :: !IsSpecial(t[j])
  {
    if t == [] || IsSpecial(t[0]) then 0 else 1 + WordEnd(t[1..])
  }

  function QuoteMode(b: Byte): Mode {
    if b == QUOTE then Quoted else if b == APOSTROPHE then SingleQuoted else Plain
  }

  /** The argument at the beginning of the text opens a quote after its word, which nothing
      closes, or which is closed with neither a blank nor the end of the line behind it. */
  predicate BadQuote(t: Bytes) {
    var q := WordEnd(t);
    && q < |t| && QuoteMode(t[q]) != Plain
    && var s := t[q + 1..];
       var k := Close(s, QuoteMode(t[q]));
       k == |s| || (k + 1 < |s| && !IsSpace(s[k + 1]))
  }

  /** The bytes of the argument, quotes included. */
  function ArgumentEnd(t: Bytes): (n: nat)
    requires !BadQuote(t)
    ensures n <= |t|
  {
    var q := WordEnd(t);
    if q < |t| && QuoteMode(t[q]) != Plain then q + 2 + Close(t[q + 1..], QuoteMode(t[q])) else q
  }

  lemma OpenQuote(t: Bytes, current: Bytes)
    requires t != [] && QuoteMode(t[0]) != Plain
    ensures ScanToken(t, Plain, current) == ScanToken(t[1..], QuoteMode(t[0]), current)
  {
  }

  lemma WordPart(t: Bytes)
    ensures ScanToken(t, Plain, []) == ScanToken(t[WordEnd(t)..], Plain, t[..WordEnd(t)])
  {
    var q := WordEnd(t);
    assert t[..q] + t[q..] == t && [] + t[..q] == t[..q];
    ScanWord(t[..q], t[q..], []);
  }

  lemma QuotedPart(t: Bytes)
    requires WordEnd(t) < |t| && QuoteMode(t[WordEnd(t)]) != Plain
    ensures var q := WordEnd(t);
            ScanToken(t, Plain, []) == ScanToken(t[q + 1..], QuoteMode(t[q]), t[..q])
  {
    var q := WordEnd(t);
    WordPart(t);
    OpenQuote(t[q..], t[..q]);
    assert t[q..][1..] == t[q + 1..];
  }

  /** The tokenizer refuses an argument exactly when its quote is unclosed or badly closed;
      otherwise it takes the argument, and the blank after a plain word. */
  lemma RefusedExactlyWhen(t: Bytes)
    requires 0 !in t
    ensures var scan := ScanToken(t, Plain, []);
            && (scan == Unbalanced <==> BadQuote(t))
            && (!BadQuote(t) ==>
                  var rest := t[ArgumentEnd(t)..];
                  scan.Token? && (scan.rest == rest || (rest != [] && IsSpace(rest[0]) && scan.rest == rest[1..])))
  {
    var q := WordEnd(t);
    if q < |t| && QuoteMode(t[q]) != Plain {
      var s := t[q + 1..];
      QuotedPart(t);
      ScanToClose(s, QuoteMode(t[q]), t[..q]);
      var k := Close(s, QuoteMode(t[q]));
      assert k < |s| ==> s[k + 1..] == t[q + 2 + k..];
    } else {
      WordPart(t);
      assert q < |t| ==> t[q..][1..] == t[q + 1..];
    }
  }

  lemma BlankSkipped(t: Bytes)
    requires t != [] && IsSpace(t[0])
    ensures SkipBlanks(t) == SkipBlanks(t[1..]) && Arguments(t) == Arguments(t[1..])
  {
  }

  lemma {:induction false} SkippedSuffix(t: Bytes)
    ensures exists n: nat :: n <= |t| && SkipBlanks(t) == t[n..]
    ensures SkipBlanks(t) != [] ==> !IsSpace(SkipBlanks(t)[0])
    decreases |t|
  {
    if t != [] && IsSpace(t[0]) {
      SkippedSuffix(t[1..]);
      var n: nat :| n <= |t[1..]| && SkipBlanks(t[1..]) == t[1..][n..];
      assert t[1..][n..] == t[n + 1..];
    } else {
      assert t[0..] == t;
    }
  }

  lemma SkippedHasNoNul(t: Bytes)
    requires 0 !in t
    ensures 0 !in SkipBlanks(t)
  {
    SkippedSuffix(t);
  }

  lemma WordNotEmpty(t: Bytes)
    requires t != [] && !IsSpace(t[0]) && !BadQuote(t)
    ensures ArgumentEnd(t) > 0
  {
  }

  /** Some argument of the line has an unclosed or badly closed quote. */
  predicate HasBadQuote(t: Bytes)
    decreases |t|
  {
    var u := SkipBlanks(t);
    u != [] && (BadQuote(u) || (ArgumentEnd(u) > 0 && HasBadQuote(u[ArgumentEnd(u)..])))
  }

  lemma ArgumentsStep(u: Bytes)
    requires 0 !in u && u != [] && !IsSpace(u[0])
    ensures BadQuote(u) ==> Arguments(u) == None
    ensures !BadQuote(u) ==>
              && 0 < ArgumentEnd(u)
              && var scan := ScanToken(u, Plain, []);
                 scan.Token? && Arguments(u) == Prepend([scan.text], Arguments(u[ArgumentEnd(u)..]))
  {
    RefusedExactlyWhen(u);
    if !BadQuote(u) {
      WordNotEmpty(u);
      var rest := u[ArgumentEnd(u)..];
      if rest != [] && IsSpace(rest[0]) {
        BlankSkipped(rest);
      }
    }
  }

  /** A line is refused exactly when some argument of it has an unclosed or badly closed
      quote. */
  lemma {:induction false} LineRefusedExactlyWhen(t: Bytes)
    requires 0 !in t
    ensures Arguments(t) == None <==> HasBadQuote(t)
    decreases |t|
  {
    var u := SkipBlanks(t);
    SkippedHasNoNul(t);
    SkippedSuffix(t);
    if u != [] {
      ArgumentsStep(u);
      assert Arguments(t) == Arguments(u);
      if !BadQuote(u) {
        LineRefusedExactlyWhen(u[ArgumentEnd(u)..]);
      }
    }
  }

  // ---- what accepted lines are made of ----

  /** Two texts that agree up to where the quote closes in the first, with nothing or a
      blank behind it in both. */
  ghost predicate ClosedAlike(s: Bytes, s': Bytes, mode: Mode) {
    var k := Close(s, mode);
    && 0 !in s
    && k < |s| && (k + 1 < |s| ==> IsSpace(s[k + 1]))
    && k < |s'| && (k + 1 < |s'| ==> IsSpace(s'[k + 1]))
    && (forall j | 0 <= j <= k :: s'[j] == s[j])
  }

  lemma UnitAlike(s: Bytes, s': Bytes, mode: Mode)
    requires mode != Plain && ClosedAlike(s, s', mode) && !Closes(s, mode, 0)
    ensures s' != [] && !Closes(s', mode, 0)
    ensures UnitSize(s', mode) == UnitSize(s, mode) <= Close(s, mode)
    ensures UnitByte(s', mode) == UnitByte(s, mode)
  {
    UnitKeepsClose(s, mode);
  }

  lemma RestAlike(s: Bytes, s': Bytes, mode: Mode)
    requires mode != Plain && ClosedAlike(s, s', mode) && !Closes(s, mode, 0)
    requires UnitSize(s, mode) <= Close(s, mode)
    ensures var n := UnitSize(s, mode);
            && Close(s, mode) == n + Close(s[n..], mode)
            && ClosedAlike(s[n..], s'[n..], mode)
            && s'[n..][Close(s[n..], mode) + 1..] == s'[Close(s, mode) + 1..]
  {
    UnitKeepsClose(s, mode);
  }

  /** What is read up to the closing quote does not depend on what follows it. */
  lemma {:induction false} SameUpToClose(s: Bytes, s': Bytes, mode: Mode, current: Bytes)
    requires mode != Plain && ClosedAlike(s, s', mode)
    ensures ScanToken(s, mode, current).Token?
    ensures ScanToken(s', mode, current) == Token(ScanToken(s, mode, current).text, s'[Close(s, mode) + 1..])
    decreases |s|
  {
    if Closes(s, mode, 0) {
      CloseUnique(s, mode, 0);
    } else {
      var n := UnitSize(s, mode);
      UnitAlike(s, s', mode);
      RestAlike(s, s', mode);
      ScanUnit(s, mode, current);
      ScanUnit(s', mode, current);
      SameUpToClose(s[n..], s'[n..], mode, current + [UnitByte(s, mode)]);
    }
  }

  lemma AlikeBefore(s: Bytes, rest: Bytes, mode: Mode)
    requires 0 !in s && mode != Plain && (rest == [] || rest[0] == SPACE)
    requires var k := Close(s, mode); k < |s| && (k + 1 < |s| ==> IsSpace(s[k + 1]))
    ensures var s' := s[..Close(s, mode) + 1] + rest;
            ClosedAlike(s, s', mode) && s'[Close(s, mode) + 1..] == rest
  {
  }

  lemma GoodQuote(u: Bytes)
    requires !BadQuote(u) && WordEnd(u) < |u| && QuoteMode(u[WordEnd(u)]) != Plain
    ensures var q := WordEnd(u);
            var s := u[q + 1..];
            var k := Close(s, QuoteMode(u[q]));
            && k < |s| && (k + 1 < |s| ==> IsSpace(s[k + 1]))
            && ArgumentEnd(u) == q + 2 + k
  {
  }

  lemma CutQuoted(u: Bytes, q: nat, m: nat, rest: Bytes)
    requires q + 1 + m <= |u|
    ensures u[..q + 1 + m] + rest == u[..q] + ([u[q]] + (u[q + 1..][..m] + rest))
  {
    assert u[..q + 1 + m] == u[..q] + ([u[q]] + u[q + 1..][..m]);
  }

  lemma OpenCut(u: Bytes, q: nat, m: nat, rest: Bytes)
    requires q + 1 + m <= |u| && QuoteMode(u[q]) != Plain && forall b <- u[..q] :: !IsSpecial(b)
    ensures ScanToken(u[..q + 1 + m] + rest, Plain, [])
            == ScanToken(u[q + 1..][..m] + rest, QuoteMode(u[q]), u[..q])
  {
    CutQuoted(u, q, m, rest);
    OpensAfterWord(u[..q], u[q], u[q + 1..][..m] + rest);
  }

  lemma TailBefore(s: Bytes, rest: Bytes, mode: Mode, word: Bytes)
    requires 0 !in s && mode != Plain && (rest == [] || rest[0] == SPACE)
    requires var k := Close(s, mode); k < |s| && (k + 1 < |s| ==> IsSpace(s[k + 1]))
    ensures ScanToken(s, mode, word).Token?
    ensures ScanToken(s[..Close(s, mode) + 1] + rest, mode, word) == Token(ScanToken(s, mode, word).text, rest)
  {
    AlikeBefore(s, rest, mode);
    SameUpToClose(s, s[..Close(s, mode) + 1] + rest, mode, word);
  }

  lemma OpensAfterWord(word: Bytes, quote: Byte, s: Bytes)
    requires QuoteMode(quote) != Plain && forall b <- word :: !IsSpecial(b)
    ensures ScanToken(word + ([quote] + s), Plain, []) == ScanToken(s, QuoteMode(quote), word)
  {
    ScanWord(word, [quote] + s, []);
    OpenQuote([quote] + s, word);
    assert [] + word == word;
    assert ([quote] + s)[1..] == s;
  }

  /** An accepted argument with quotes, before any other continuation of the line. */
  lemma QuotedReadsAs(u: Bytes, q: nat, mode: Mode, s: Bytes, k: nat, n: nat, text: Bytes)
    requires q < |u| && mode == QuoteMode(u[q]) != Plain && s == u[q + 1..] && forall b <- u[..q] :: !IsSpecial(b)
    requires 0 !in s && k == Close(s, mode) < |s| && (k + 1 < |s| ==> IsSpace(s[k + 1]))
    requires !IsSpace(u[0]) && n == q + 2 + k
    requires ScanToken(s, mode, u[..q]).Token? && ScanToken(s, mode, u[..q]).text == text
    ensures ReadsAs(u[..n], text)
  {
    assert u[..n][0] == u[0];
    forall rest: Bytes | rest == [] || rest[0] == SPACE
      ensures TokenThen(ScanToken(u[..n] + rest, Plain, []), text, rest)
    {
      TailBefore(s, rest, mode, u[..q]);
      OpenCut(u, q, k + 1, rest);
    }
  }

  lemma QuotedArgument(u: Bytes)
    requires u != [] && 0 !in u && !IsSpace(u[0]) && !BadQuote(u)
    requires WordEnd(u) < |u| && QuoteMode(u[WordEnd(u)]) != Plain
    ensures ScanToken(u, Plain, []).Token?
    ensures ReadsAs(u[..ArgumentEnd(u)], ScanToken(u, Plain, []).text)
  {
    var q := WordEnd(u);
    var mode, s := QuoteMode(u[q]), u[q + 1..];
    var k := Close(s, mode);
    assert k < |s| && (k + 1 < |s| ==> IsSpace(s[k + 1])) && ArgumentEnd(u) == q + 2 + k by {
      GoodQuote(u);
    }
    assert ScanToken(u, Plain, []) == ScanToken(s, mode, u[..q]) by {
      QuotedPart(u);
    }
    WordHasNoSpecial(u);
    TailBefore(s, [], mode, u[..q]);
    QuotedReadsAs(u, q, mode, s, k, ArgumentEnd(u), ScanToken(u, Plain, []).text);
  }

  lemma WordHasNoSpecial(u: Bytes)
    ensures forall b <- u[..WordEnd(u)] :: !IsSpecial(b)
  {
  }

  lemma PlainArgument(u: Bytes)
    requires u != [] && !IsSpace(u[0]) && !BadQuote(u)
    requires WordEnd(u) < |u| ==> QuoteMode(u[WordEnd(u)]) == Plain
    ensures ScanToken(u, Plain, []).Token?
    ensures ReadsAs(u[..ArgumentEnd(u)], ScanToken(u, Plain, []).text)
  {
    var q := WordEnd(u);
    WordPart(u);
    assert u[..q][0] == u[0];
    WordReadsAs(u[..q]);
  }

  /** An accepted argument reads as its text wherever it stands. */
  lemma ArgumentReadsAs(u: Bytes)
    requires 0 !in u && u != [] && !IsSpace(u[0]) && !BadQuote(u)
    ensures ScanToken(u, Plain, []).Token?
    ensures ReadsAs(u[..ArgumentEnd(u)], ScanToken(u, Plain, []).text)
  {
    if WordEnd(u) < |u| && QuoteMode(u[WordEnd(u)]) != Plain {
      QuotedArgument(u);
    } else {
      PlainArgument(u);
    }
  }

  /** The line is made of the forms, with blanks between them and anywhere around. */
  predicate IsLineOf(t: Bytes, forms: seq<Bytes>)
    decreases |forms|
  {
    var u := SkipBlanks(t);
    if forms == [] then u == []
    else
      && forms[0] != [] && forms[0] <= u
      && var rest := u[|forms[0]|..];
         (rest == [] || IsSpace(rest[0])) && IsLineOf(rest, forms[1..])
  }

  ghost predicate AllReadAs(forms: seq<Bytes>, texts: seq<Bytes>) {
    |forms| == |texts| && forall i | 0 <= i < |forms| :: ReadsAs(forms[i], texts[i])
  }

  lemma BlankAfterArgument(u: Bytes)
    requires !BadQuote(u)
    ensures ArgumentEnd(u) == |u| || IsSpace(u[ArgumentEnd(u)])
  {
    var q := WordEnd(u);
    if q < |u| && QuoteMode(u[q]) != Plain {
      var k := Close(u[q + 1..], QuoteMode(u[q]));
      assert k + 1 < |u[q + 1..]| ==> u[q + 1..][k + 1] == u[q + 2 + k];
    }
  }

  lemma LineFromArgument(t: Bytes, u: Bytes, forms: seq<Bytes>)
    requires u == SkipBlanks(t) && !BadQuote(u) && ArgumentEnd(u) > 0 && IsLineOf(u[ArgumentEnd(u)..], forms)
    ensures IsLineOf(t, [u[..ArgumentEnd(u)]] + forms)
  {
    BlankAfterArgument(u);
    assert ([u[..ArgumentEnd(u)]] + forms)[1..] == forms;
  }

  /** Every accepted line is made of forms that read as the arguments it is split into. */
  lemma {:induction false} AcceptedLineReadsAs(t: Bytes) returns (forms: seq<Bytes>)
    requires 0 !in t && Arguments(t).Some?
    ensures IsLineOf(t, forms) && AllReadAs(forms, Arguments(t).value)
    decreases |t|
  {
    var u := SkipBlanks(t);
    SkippedHasNoNul(t);
    SkippedSuffix(t);
    forms := [];
    if u != [] {
      ArgumentsStep(u);
      assert Arguments(t) == Arguments(u);
      ArgumentReadsAs(u);
      var rest := u[ArgumentEnd(u)..];
      var more := AcceptedLineReadsAs(rest);
      LineFromArgument(t, u, more);
      forms := [u[..ArgumentEnd(u)]] + more;
    }
  }
}
