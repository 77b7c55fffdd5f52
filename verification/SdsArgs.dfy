/** Quoting a byte string and splitting a line into arguments: a tokenizer with two quoting
    modes, and the escaper it undoes. */
module SdsArgs {
  import opened Decimal
  import opened Options
  import opened SdsString
  import opened SdsSplit

  const BELL: Byte := 7
  const BACKSPACE: Byte := 8
  const TAB: Byte := 9
  const NEWLINE: Byte := 10
  const RETURN: Byte := 13
  const SPACE: Byte := 32
  const QUOTE: Byte := 34
  const APOSTROPHE: Byte := 39
  const BACKSLASH: Byte := 92

  predicate IsSpace(b: Byte) {
    b == SPACE || 9 <= b <= 13
  }

  predicate IsPrint(b: Byte) {
    32 <= b <= 126
  }

  predicate IsHexDigit(b: Byte) {
    48 <= b <= 57 || 97 <= b <= 102 || 65 <= b <= 70
  }

  function HexDigitToInt(b: Byte): (v: nat)
    ensures v < 16
  {
    if 48 <= b <= 57 then b - 48
    else if 97 <= b <= 102 then b - 87
    else if 65 <= b <= 70 then b - 55
    else 0
  }

  /** The digit of the printer's lower-case hexadecimal format. */
  function HexDigit(v: nat): Byte
    requires v < 16
  {
    if v < 10 then 48 + v else 87 + v
  }

  // ---- the escaper ----

  function EscapeByte(b: Byte): Bytes {
    if b == BACKSLASH || b == QUOTE then [BACKSLASH, b]
    else if b == NEWLINE then [BACKSLASH, 110]
    else if b == RETURN then [BACKSLASH, 114]
    else if b == TAB then [BACKSLASH, 116]
    else if b == BELL then [BACKSLASH, 97]
    else if b == BACKSPACE then [BACKSLASH, 98]
    else if IsPrint(b) then [b]
    else [BACKSLASH, 120, HexDigit(b / 16), HexDigit(b % 16)]
  }

  function Escape(p: Bytes): Bytes {
    if p == [] then [] else EscapeByte(p[0]) + Escape(p[1..])
  }

  /** The quoted form of a byte string. */
  function Repr(p: Bytes): Bytes {
    [QUOTE] + Escape(p) + [QUOTE]
  }

  lemma {:induction false} EscapeAppend(p: Bytes, b: Byte)
    ensures Escape(p + [b]) == Escape(p) + EscapeByte(b)
  {
    if p == [] {
      assert ([] + [b])[1..] == [];
    } else {
      EscapeAppend(p[1..], b);
      assert (p + [b])[0] == p[0] && (p + [b])[1..] == p[1..] + [b];
      assert Escape(p + [b]) == EscapeByte(p[0]) + Escape(p[1..] + [b]);
      Regroup(EscapeByte(p[0]), Escape(p[1..]), EscapeByte(b));
    }
  }

  lemma {:induction false} EscapeLength(p: Bytes)
    ensures |Escape(p)| <= 4 * |p|
  {
    if p != [] {
      EscapeLength(p[1..]);
    }
  }

  lemma ReprLength(p: Bytes)
    ensures |Repr(p)| <= 4 * |p| + 2
  {
    EscapeLength(p);
  }

  /** The quoted form after the first `k` bytes. */
  function ReprPrefix(p: Bytes, k: nat): Bytes
    requires k <= |p|
  {
    if k == 0 then [QUOTE] else ReprPrefix(p, k - 1) + EscapeByte(p[k - 1])
  }

  lemma {:induction false} ReprPrefixEscapes(p: Bytes, k: nat)
    requires k <= |p|
    ensures ReprPrefix(p, k) == [QUOTE] + Escape(p[..k])
    ensures |ReprPrefix(p, k)| <= 4 * k + 1
  {
    if k > 0 {
      var front, e := p[..k - 1], EscapeByte(p[k - 1]);
      ReprPrefixEscapes(p, k - 1);
      EscapeAppend(front, p[k - 1]);
      assert p[..k] == front + [p[k - 1]];
      Regroup([QUOTE], Escape(front), e);
    }
  }

  lemma ReprPrefixAll(p: Bytes)
    ensures ReprPrefix(p, |p|) + [QUOTE] == Repr(p)
    ensures |ReprPrefix(p, |p|)| <= 4 * |p| + 1
  {
    ReprPrefixEscapes(p, |p|);
    assert p[..|p|] == p;
  }

  lemma NextPrefix(before: Bytes, p: Bytes, k: nat)
    requires k < |p|
    ensures before + ReprPrefix(p, k) + EscapeByte(p[k]) == before + ReprPrefix(p, k + 1)
    ensures |before + ReprPrefix(p, k)| + 4 <= |before| + 4 * |p| + 1
  {
    ReprPrefixEscapes(p, k);
    Regroup(before, ReprPrefix(p, k), EscapeByte(p[k]));
  }

  lemma LastPrefix(before: Bytes, p: Bytes)
    ensures before + ReprPrefix(p, |p|) + [QUOTE] == before + Repr(p)
    ensures |before + ReprPrefix(p, |p|)| <= |before| + 4 * |p| + 1
  {
    ReprPrefixAll(p);
    Regroup(before, ReprPrefix(p, |p|), [QUOTE]);
  }

  /** Appends one byte of the quoted form. */
  method CatEscaped(s: Sds, b: Byte)
    requires s.Valid() && Allocatable(s.Len() + 4)
    modifies s, s.buf
    ensures s.Valid() && (s.buf == old(s.buf) || fresh(s.buf))
    ensures s.Contents() == old(s.Contents()) + EscapeByte(b)
  {
    s.CatLen(EscapeByte(b));
  }

  method CatNext(s: Sds, p: Bytes, k: nat, ghost before: Bytes)
    requires s.Valid() && k < |p| && s.Contents() == before + ReprPrefix(p, k)
    requires Allocatable(|before| + 4 * |p| + 2)
    modifies s, s.buf
    ensures s.Valid() && (s.buf == old(s.buf) || fresh(s.buf))
    ensures s.Contents() == before + ReprPrefix(p, k + 1)
  {
    NextPrefix(before, p, k);
    assert s.Len() == |s.Contents()|;
    CatEscaped(s, p[k]);
  }

  /** Appends the quoted form to a string. */
  method CatRepr(s: Sds, p: Bytes)
    requires s.Valid() && Allocatable(s.Len() + 4 * |p| + 2)
    modifies s, s.buf
    ensures s.Valid() && (s.buf == old(s.buf) || fresh(s.buf))
    ensures s.Contents() == old(s.Contents()) + Repr(p)
  {
    ghost var before := s.Contents();
    s.CatLen([QUOTE]);
    for k := 0 to |p|
      invariant s.Valid() && (s.buf == old(s.buf) || fresh(s.buf))
      invariant s.Contents() == before + ReprPrefix(p, k)
    {
      CatNext(s, p, k, before);
    }
    LastPrefix(before, p);
    assert s.Len() == |s.Contents()|;
    s.CatLen([QUOTE]);
  }

  // ---- the tokenizer ----

  datatype Mode = Plain | Quoted | SingleQuoted

  /** One argument and what follows it, or unbalanced or badly closed quotes. */
  datatype Scan = Token(text: Bytes, rest: Bytes) | Unbalanced

  /** The byte `k` positions ahead, 0 at the end of the line. */
  function Peek(t: Bytes, k: nat): Byte {
    if k < |t| then t[k] else 0
  }

  function Unescape(b: Byte): Byte {
    if b == 110 then NEWLINE
    else if b == 114 then RETURN
    else if b == 116 then TAB
    else if b == 98 then BACKSPACE
    else if b == 97 then BELL
    else b
  }

  /** A closing quote must be followed by a space or nothing at all. */
  function CloseQuote(t: Bytes, current: Bytes): Scan
    requires t != []
  {
    if Peek(t, 1) != 0 && !IsSpace(Peek(t, 1)) then Unbalanced else Token(current, t[1..])
  }

  /** Scans the rest of an argument. */
  function ScanToken(t: Bytes, mode: Mode, current: Bytes): (scan: Scan)
    ensures scan.Token? ==> |scan.rest| <= |t| && (t != [] ==> |scan.rest| < |t|)
    decreases |t|
  {
    if t == [] then
      if mode == Plain then Token(current, []) else Unbalanced
    else
      match mode
      case Quoted =>
        if t[0] == BACKSLASH && Peek(t, 1) == 120 && IsHexDigit(Peek(t, 2)) && IsHexDigit(Peek(t, 3)) then
          ScanToken(t[4..], Quoted, current + [HexDigitToInt(t[2]) * 16 + HexDigitToInt(t[3])])
        else if t[0] == BACKSLASH && Peek(t, 1) != 0 then
          ScanToken(t[2..], Quoted, current + [Unescape(t[1])])
        else if t[0] == QUOTE then
          CloseQuote(t, current)
        else
          ScanToken(t[1..], Quoted, current + [t[0]])
      case SingleQuoted =>
        if t[0] == BACKSLASH && Peek(t, 1) == APOSTROPHE then
          ScanToken(t[2..], SingleQuoted, current + [APOSTROPHE])
        else if t[0] == APOSTROPHE then
          CloseQuote(t, current)
        else
          ScanToken(t[1..], SingleQuoted, current + [t[0]])
      case Plain =>
        if t[0] == SPACE || t[0] == NEWLINE || t[0] == RETURN || t[0] == TAB then
          Token(current, t[1..])
        else if t[0] == QUOTE then
          ScanToken(t[1..], Quoted, current)
        else if t[0] == APOSTROPHE then
          ScanToken(t[1..], SingleQuoted, current)
        else
          ScanToken(t[1..], Plain, current + [t[0]])
  }

  function SkipBlanks(t: Bytes): (rest: Bytes)
    ensures |rest| <= |t|
  {
    if t != [] && IsSpace(t[0]) then SkipBlanks(t[1..]) else t
  }

  function Prepend(args: seq<Bytes>, more: Option<seq<Bytes>>): Option<seq<Bytes>> {
    if more.None? then None else Some(args + more.value)
  }

  /** All arguments of a line. */
  function Arguments(t: Bytes): Option<seq<Bytes>>
    decreases |t|
  {
    var t' := SkipBlanks(t);
    if t' == [] then Some([])
    else
      match ScanToken(t', Plain, [])
      case Unbalanced => None
      case Token(text, rest) => Prepend([text], Arguments(rest))
  }

  /** Inside quotes the escaped form of `s` is read back as `s`. */
  lemma {:induction false} ScanEscaped(s: Bytes, rest: Bytes, current: Bytes)
    requires rest == [] || IsSpace(rest[0])
    ensures ScanToken(Escape(s) + [QUOTE] + rest, Quoted, current) == Token(current + s, rest)
    decreases |s|
  {
    var t := Escape(s) + [QUOTE] + rest;
    if s == [] {
      assert t[0] == QUOTE && t[1..] == rest;
      assert Peek(t, 1) == Peek(rest, 0);
      assert current + [] == current;
    } else {
      var e, b := EscapeByte(s[0]), s[0];
      var t' := Escape(s[1..]) + [QUOTE] + rest;
      Regroup(e, Escape(s[1..]), [QUOTE]);
      Regroup(e, Escape(s[1..]) + [QUOTE], rest);
      assert t == e + t';
      ScanEscapedByte(b, t', current);
      ScanEscaped(s[1..], rest, current + [b]);
      Regroup(current, [b], s[1..]);
      assert [b] + s[1..] == s;
    }
  }

  lemma ScanEscapedByte(b: Byte, t: Bytes, current: Bytes)
    requires t != []
    ensures ScanToken(EscapeByte(b) + t, Quoted, current) == ScanToken(t, Quoted, current + [b])
  {
    var e := EscapeByte(b);
    var u := e + t;
    assert u[|e|..] == t;
    if |e| == 4 {
      assert HexDigitToInt(HexDigit(b / 16)) == b / 16 && HexDigitToInt(HexDigit(b % 16)) == b % 16;
      assert u[1] == 120 && u[2] == HexDigit(b / 16) && u[3] == HexDigit(b % 16);
    } else if |e| == 2 {
      assert u[0] == BACKSLASH && u[1] != 120 && u[1] != 0 && Unescape(u[1]) == b;
    } else {
      assert u[0] == b;
    }
  }

  lemma ScanRepr(s: Bytes, rest: Bytes)
    requires rest == [] || IsSpace(rest[0])
    ensures ScanToken(Repr(s) + rest, Plain, []) == Token(s, rest)
  {
    var t := Repr(s) + rest;
    ReprOpens(s, rest);
    assert ScanToken(t, Plain, []) == ScanToken(t[1..], Quoted, []);
    ScanEscaped(s, rest, []);
    assert [] + s == s;
  }

  lemma ReprOpens(s: Bytes, rest: Bytes)
    ensures Repr(s) + rest == [QUOTE] + (Escape(s) + [QUOTE] + rest)
    ensures (Repr(s) + rest)[0] == QUOTE && (Repr(s) + rest)[1..] == Escape(s) + [QUOTE] + rest
  {
    Regroup([QUOTE], Escape(s), [QUOTE]);
    Regroup([QUOTE], Escape(s) + [QUOTE], rest);
  }

  function Reprs(args: seq<Bytes>): (quoted: seq<Bytes>)
    ensures |quoted| == |args| && forall i | 0 <= i < |args| :: quoted[i] == Repr(args[i])
  {
    seq(|args|, i requires 0 <= i < |args| => Repr(args[i]))
  }

  /** A form that the tokenizer reads as the text, before a space or at the end. */
  ghost predicate ReadsAs(form: Bytes, text: Bytes) {
    && form != [] && !IsSpace(form[0])
    && forall rest: Bytes | rest == [] || rest[0] == SPACE :: TokenThen(ScanToken(form + rest, Plain, []), text, rest)
  }

  /** The token, with the rest of the line or the rest after its first space. */
  predicate TokenThen(scan: Scan, text: Bytes, rest: Bytes) {
    && scan.Token?
    && scan.text == text
    && (scan.rest == rest || (rest != [] && scan.rest == rest[1..]))
  }

  lemma FirstForm(form: Bytes, text: Bytes, rest: Bytes)
    requires ReadsAs(form, text) && (rest == [] || rest[0] == SPACE)
    ensures Arguments(form + rest) == Prepend([text], Arguments(rest))
  {
    var scan := ScanToken(form + rest, Plain, []);
    assert TokenThen(scan, text, rest);
    assert (form + rest)[0] == form[0];
    if rest != [] {
      SkipOneSpace(rest[1..]);
      assert [SPACE] + rest[1..] == rest;
    }
  }

  /** Joining forms with a space and splitting the line gives the texts they are read as. */
  lemma {:induction false} FormsReadBack(forms: seq<Bytes>, texts: seq<Bytes>)
    requires |forms| == |texts| && forall i | 0 <= i < |forms| :: ReadsAs(forms[i], texts[i])
    ensures Arguments(Join(forms, [SPACE])) == Some(texts)
    decreases |forms|
  {
    assert Arguments([]) == Some([]);
    if forms != [] {
      var tail := Join(forms[1..], [SPACE]);
      var rest := if |forms| == 1 then [] else [SPACE] + tail;
      assert Join(forms, [SPACE]) == forms[0] + rest;
      FirstForm(forms[0], texts[0], rest);
      FormsReadBack(forms[1..], texts[1..]);
      SkipOneSpace(tail);
      assert texts == [texts[0]] + texts[1..];
    }
  }

  lemma ReprReadsAs(p: Bytes)
    ensures ReadsAs(Repr(p), p)
  {
    forall rest: Bytes | rest == [] || rest[0] == SPACE
      ensures TokenThen(ScanToken(Repr(p) + rest, Plain, []), p, rest)
    {
      ScanRepr(p, rest);
    }
  }

  /** Quoting each argument, joining with a space and splitting the line gives back the
      arguments, whatever bytes they hold. */
  lemma QuotedArgumentsRoundTrip(args: seq<Bytes>)
    ensures Arguments(Join(Reprs(args), [SPACE])) == Some(args)
  {
    forall i | 0 <= i < |args|
      ensures ReadsAs(Reprs(args)[i], args[i])
    {
      ReprReadsAs(args[i]);
    }
    FormsReadBack(Reprs(args), args);
  }

  lemma SkipOneSpace(t: Bytes)
    ensures Arguments([SPACE] + t) == Arguments(t)
  {
    assert ([SPACE] + t)[1..] == t;
    assert SkipBlanks([SPACE] + t) == SkipBlanks(t);
  }

  /** The quoted form holds no NUL, so it is a line the tokenizer reads to its end. */
  lemma {:induction false} EscapeHasNoNul(p: Bytes)
    ensures 0 !in Escape(p)
  {
    if p != [] {
      EscapeHasNoNul(p[1..]);
    }
  }

  /** A C string: the only NUL is the last byte. */
  ghost predicate IsLine(line: Bytes) {
    && line != []
    && line[|line| - 1] == 0
    && forall k | 0 <= k < |line| - 1 :: line[k] != 0
  }

  /** What is left of the line at position `p`. */
  ghost function From(line: Bytes, p: nat): Bytes
    requires p < |line|
  {
    line[p..|line| - 1]
  }

  lemma PeekLine(line: Bytes, p: nat, k: nat)
    requires IsLine(line) && p + k < |line|
    ensures Peek(From(line, p), k) == line[p + k]
    ensures From(line, p)[k..] == From(line, p + k)
    ensures From(line, p) == [] <==> line[p] == 0
  {
  }

  lemma PrependTwice(args: seq<Bytes>, token: Bytes, more: Option<seq<Bytes>>)
    ensures Prepend(args, Prepend([token], more)) == Prepend(args + [token], more)
    ensures Prepend([], more) == more
  {
    if more.Some? {
      assert args + ([token] + more.value) == args + [token] + more.value;
      assert [] + more.value == more.value;
    }
  }

  /** The splitter as the program has it, with a pointer into the line. Every read is
      within the terminated line, so the pointer never passes the terminator. */
  method SplitArgs(line: Bytes) returns (vector: Option<seq<Bytes>>)
    requires IsLine(line)
    ensures vector == Arguments(From(line, 0))
  {
    var p, args := 0, [];
    PrependTwice([], [], Arguments(From(line, 0)));
    while true
      invariant p < |line|
      invariant Prepend(args, Arguments(From(line, p))) == Arguments(From(line, 0))
      decreases |line| - p
    {
      ghost var p0 := p;
      while line[p] != 0 && IsSpace(line[p])
        invariant p0 <= p < |line|
        invariant SkipBlanks(From(line, p)) == SkipBlanks(From(line, p0))
        decreases |line| - p
      {
        PeekLine(line, p, 1);
        p := p + 1;
      }
      PeekLine(line, p, 0);
      if line[p] == 0 {
        assert Arguments(From(line, p0)) == Some([]) && args + [] == args;
        return Some(args);
      }
      var token, ok, next := ReadToken(line, p);
      if !ok {
        return None;
      }
      PrependTwice(args, token, Arguments(From(line, next)));
      args := args + [token];
      p := next;
    }
  }

  /** One character of the inner loop inside quotes; the pointer is left on the last
      character used. */
  method ReadQuoted(line: Bytes, start: nat, before: Bytes) returns (current: Bytes, p: nat, ok: bool, done: bool)
    requires IsLine(line) && start < |line|
    ensures start <= p < |line| && (ok ==> line[p] != 0)
    ensures ScanToken(From(line, start), Quoted, before) ==
            if !ok then Unbalanced
            else if done then Token(current, From(line, p + 1))
            else ScanToken(From(line, p + 1), Quoted, current)
  {
    current, p, ok, done := before, start, true, false;
    PeekLine(line, p, 0);
    if line[p] != 0 {
      PeekLine(line, p, 1);
    }
    if line[p] == BACKSLASH && line[p + 1] == 120 && IsHexDigit(line[p + 2]) && IsHexDigit(line[p + 3]) {
      PeekLine(line, p, 2);
      PeekLine(line, p, 3);
      PeekLine(line, p, 4);
      current := current + [HexDigitToInt(line[p + 2]) * 16 + HexDigitToInt(line[p + 3])];
      p := p + 3;
    } else if line[p] == BACKSLASH && line[p + 1] != 0 {
      NotHexEscape(line, p);
      PeekLine(line, p, 2);
      p := p + 1;
      current := current + [Unescape(line[p])];
    } else if line[p] == QUOTE {
      if line[p + 1] != 0 && !IsSpace(line[p + 1]) {
        ok := false;
      } else {
        done := true;
      }
    } else if line[p] == 0 {
      ok := false;
    } else {
      current := current + [line[p]];
    }
  }

  lemma NotHexEscape(line: Bytes, p: nat)
    requires IsLine(line) && p + 1 < |line| && line[p] == BACKSLASH && line[p + 1] != 0
    requires !(line[p + 1] == 120 && IsHexDigit(line[p + 2]) && IsHexDigit(line[p + 3]))
    ensures var t := From(line, p); !(Peek(t, 1) == 120 && IsHexDigit(Peek(t, 2)) && IsHexDigit(Peek(t, 3)))
  {
    PeekLine(line, p, 1);
    PeekLine(line, p, 2);
    if line[p + 2] != 0 {
      PeekLine(line, p, 3);
    }
  }

  /** One character of the inner loop inside single quotes. */
  method ReadSingleQuoted(line: Bytes, start: nat, before: Bytes) returns (current: Bytes, p: nat, ok: bool, done: bool)
    requires IsLine(line) && start < |line|
    ensures start <= p < |line| && (ok ==> line[p] != 0)
    ensures ScanToken(From(line, start), SingleQuoted, before) ==
            if !ok then Unbalanced
            else if done then Token(current, From(line, p + 1))
            else ScanToken(From(line, p + 1), SingleQuoted, current)
  {
    current, p, ok, done := before, start, true, false;
    PeekLine(line, p, 0);
    if line[p] != 0 {
      PeekLine(line, p, 1);
    }
    if line[p] == BACKSLASH && line[p + 1] == APOSTROPHE {
      PeekLine(line, p, 2);
      p := p + 1;
      current := current + [APOSTROPHE];
    } else if line[p] == APOSTROPHE {
      if line[p + 1] != 0 && !IsSpace(line[p + 1]) {
        ok := false;
      } else {
        done := true;
      }
    } else if line[p] == 0 {
      ok := false;
    } else {
      current := current + [line[p]];
    }
  }

  /** One character of the inner loop outside quotes. */
  method ReadPlain(line: Bytes, p: nat, before: Bytes) returns (current: Bytes, mode: Mode, done: bool)
    requires IsLine(line) && p < |line|
    ensures line[p] == 0 ==> done
    ensures ScanToken(From(line, p), Plain, before) ==
            if done then Token(current, From(line, if line[p] == 0 then p else p + 1))
            else ScanToken(From(line, p + 1), mode, current)
  {
    current, mode, done := before, Plain, false;
    PeekLine(line, p, 0);
    if line[p] != 0 {
      PeekLine(line, p, 1);
    }
    if line[p] == SPACE || line[p] == NEWLINE || line[p] == RETURN || line[p] == TAB || line[p] == 0 {
      done := true;
    } else if line[p] == QUOTE {
      mode := Quoted;
    } else if line[p] == APOSTROPHE {
      mode := SingleQuoted;
    } else {
      current := current + [line[p]];
    }
  }

  /** One turn of the inner loop. */
  method ReadStep(line: Bytes, start: nat, mode: Mode, before: Bytes)
    returns (current: Bytes, next: Mode, p: nat, ok: bool, done: bool)
    requires IsLine(line) && start < |line|
    ensures start <= p < |line| && (ok && !done ==> start < p)
    ensures ok && line[start] != 0 ==> start < p
    ensures ScanToken(From(line, start), mode, before) ==
            if !ok then Unbalanced
            else if done then Token(current, From(line, p))
            else ScanToken(From(line, p), next, current)
  {
    next, p, ok := mode, start, true;
    match mode {
      case Quoted => current, p, ok, done := ReadQuoted(line, p, before);
      case SingleQuoted => current, p, ok, done := ReadSingleQuoted(line, p, before);
      case Plain => current, next, done := ReadPlain(line, p, before);
    }
    if ok && line[p] != 0 {
      p := p + 1;
    }
  }

  /** The inner loop: one argument from position `start`. */
  method ReadToken(line: Bytes, start: nat) returns (current: Bytes, ok: bool, p: nat)
    requires IsLine(line) && start < |line| && line[start] != 0
    ensures p < |line|
    ensures ScanToken(From(line, start), Plain, []) == if ok then Token(current, From(line, p)) else Unbalanced
    ensures ok ==> start < p
  {
    var mode, done := Plain, false;
    current, ok, p := [], true, start;
    ghost var scan := ScanToken(From(line, start), Plain, []);
    while !done
      invariant start <= p < |line| && (start == p ==> !done)
      invariant scan == if done then Token(current, From(line, p)) else ScanToken(From(line, p), mode, current)
      decreases !done, |line| - p
    {
      current, mode, p, ok, done := ReadStep(line, p, mode, current);
      if !ok {
        return;
      }
    }
  }

  lemma {:induction false} QuotedLineHasNoNul(args: seq<Bytes>)
    ensures 0 !in Join(Reprs(args), [SPACE])
    decreases |args|
  {
    if args != [] {
      EscapeHasNoNul(args[0]);
      assert Reprs(args)[1..] == Reprs(args[1..]);
      if |args| > 1 {
        QuotedLineHasNoNul(args[1..]);
      }
    }
  }

  /** The line after the first `j` arguments: a space follows each but the last. */
  function QuotedLine(args: seq<Bytes>, j: nat): Bytes
    requires j <= |args|
  {
    if j == 0 then []
    else QuotedLine(args, j - 1) + Repr(args[j - 1]) + if j < |args| then [SPACE] else []
  }

  lemma {:induction false} QuotedLinePrefix(args: seq<Bytes>, j: nat)
    requires j < |args|
    ensures QuotedLine(args, j) == Terminated(Reprs(args[..j]), [SPACE])
  {
    if j > 0 {
      QuotedLinePrefix(args, j - 1);
      ReprsAppend(args[..j - 1], args[j - 1]);
      assert args[..j] == args[..j - 1] + [args[j - 1]];
      TerminatedAppend(Reprs(args[..j - 1]), Repr(args[j - 1]), [SPACE]);
    } else {
      assert Reprs(args[..0]) == [];
    }
  }

  lemma AppendNothing(t: Bytes)
    ensures t + [] == t
  {
  }

  lemma ReprsAppend(args: seq<Bytes>, a: Bytes)
    ensures Reprs(args + [a]) == Reprs(args) + [Repr(a)]
  {
  }

  lemma LastQuoted(front: Bytes, parts: seq<Bytes>, last: Bytes)
    requires front == Terminated(parts, [SPACE])
    ensures front + last + [] == Join(parts + [last], [SPACE])
  {
    JoinTerminated(parts, last, [SPACE]);
    AppendNothing(front + last);
  }

  lemma QuotedLineLast(args: seq<Bytes>)
    requires args != []
    ensures QuotedLine(args, |args|) == QuotedLine(args, |args| - 1) + Repr(args[|args| - 1]) + []
  {
  }

  lemma ReprsLast(args: seq<Bytes>)
    requires args != []
    ensures Reprs(args) == Reprs(args[..|args| - 1]) + [Repr(args[|args| - 1])]
  {
    ReprsAppend(args[..|args| - 1], args[|args| - 1]);
    assert args == args[..|args| - 1] + [args[|args| - 1]];
  }

  lemma QuotedLineJoins(args: seq<Bytes>)
    ensures QuotedLine(args, |args|) == Join(Reprs(args), [SPACE])
  {
    if args != [] {
      var last := |args| - 1;
      QuotedLinePrefix(args, last);
      QuotedLineLast(args);
      ReprsLast(args);
      LastQuoted(QuotedLine(args, last), Reprs(args[..last]), Repr(args[last]));
    }
  }

  /** Room enough for the line after the first `j` arguments. */
  function QuotedSize(args: seq<Bytes>, j: nat): nat
    requires j <= |args|
  {
    if j == 0 then 0 else QuotedSize(args, j - 1) + 4 * |args[j - 1]| + 3
  }

  lemma {:induction false} QuotedLineFits(args: seq<Bytes>, j: nat)
    requires j <= |args|
    ensures |QuotedLine(args, j)| <= QuotedSize(args, j)
  {
    if j > 0 {
      QuotedLineFits(args, j - 1);
      ReprLength(args[j - 1]);
      assert |QuotedLine(args, j)| <= |QuotedLine(args, j - 1)| + |Repr(args[j - 1])| + 1;
    }
  }

  lemma {:induction false} QuotedSizeMonotone(args: seq<Bytes>, j: nat, k: nat)
    requires j <= k <= |args|
    ensures QuotedSize(args, j) <= QuotedSize(args, k)
  {
    if j < k {
      QuotedSizeMonotone(args, j, k - 1);
    }
  }

  lemma QuotedLineNext(args: seq<Bytes>, j: nat)
    requires j < |args|
    ensures QuotedLine(args, j + 1) == QuotedLine(args, j) + Repr(args[j]) + if j != |args| - 1 then [SPACE] else []
    ensures j == |args| - 1 ==> QuotedLine(args, j + 1) == QuotedLine(args, j) + Repr(args[j])
  {
    AppendNothing(QuotedLine(args, j) + Repr(args[j]));
  }

  lemma RoomForNext(args: seq<Bytes>, j: nat)
    requires j < |args|
    ensures |QuotedLine(args, j)| + 4 * |args[j]| + 3 <= QuotedSize(args, |args|)
    ensures |Repr(args[j])| <= 4 * |args[j]| + 2
  {
    QuotedLineFits(args, j);
    QuotedSizeMonotone(args, j + 1, |args|);
    ReprLength(args[j]);
  }

  /** Builds a line of quoted arguments in a string. */
  method QuoteLine(args: seq<Bytes>) returns (s: Sds)
    requires Allocatable(QuotedSize(args, |args|))
    ensures s.Valid() && s.Contents() == QuotedLine(args, |args|)
  {
    s := Sds.Empty();
    for j := 0 to |args|
      invariant s.Valid() && fresh(s) && fresh(s.buf)
      invariant s.Contents() == QuotedLine(args, j)
    {
      RoomForNext(args, j);
      assert s.Len() == |s.Contents()|;
      CatRepr(s, args[j]);
      assert s.Len() == |s.Contents()|;
      QuotedLineNext(args, j);
      if j != |args| - 1 {
        s.CatLen([SPACE]);
      }
    }
  }

  /** Splitting the string's own NUL-terminated buffer gives back the arguments. */
  method QuoteThenSplit(args: seq<Bytes>) returns (vector: Option<seq<Bytes>>)
    requires Allocatable(QuotedSize(args, |args|))
    ensures vector == Some(args)
  {
    var s := QuoteLine(args);
    QuotedLineJoins(args);
    QuotedLineHasNoNul(args);
    QuotedArgumentsRoundTrip(args);
    var line := s.buf[..s.Len() + 1];
    assert line[..|line| - 1] == s.Contents();
    assert From(line, 0) == s.Contents();
    vector := SplitArgs(line);
  }
}
