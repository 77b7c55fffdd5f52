/** The three ways to write an argument, and exactly which texts each of them can write. */
module SdsQuoting {
  import opened Decimal
  import opened Options
  import opened SdsSplit
  import opened SdsArgs

  // ---- single quotes ----

  /** Inside single quotes only the apostrophe is escaped. */
  function SingleEscape(s: Bytes): Bytes {
    if s == [] then []
    else (if s[0] == APOSTROPHE then [BACKSLASH, APOSTROPHE] else [s[0]]) + SingleEscape(s[1..])
  }

  function SingleForm(s: Bytes): Bytes {
    [APOSTROPHE] + SingleEscape(s) + [APOSTROPHE]
  }

  predicate EndsInBackslash(s: Bytes) {
    s != [] && s[|s| - 1] == BACKSLASH
  }

  /** One byte of the escaped text, when what follows it does not turn a backslash into
      an escape. */
  lemma ScanSingleByte(b: Byte, t: Bytes, current: Bytes)
    requires t != [] && (b == BACKSLASH ==> t[0] != APOSTROPHE)
    ensures ScanToken((if b == APOSTROPHE then [BACKSLASH, APOSTROPHE] else [b]) + t, SingleQuoted, current)
            == ScanToken(t, SingleQuoted, current + [b])
  {
    var e := if b == APOSTROPHE then [BACKSLASH, APOSTROPHE] else [b];
    assert (e + t)[|e|..] == t;
    assert Peek(e + t, 1) == if b == APOSTROPHE then APOSTROPHE else t[0];
  }

  /** Inside single quotes a text is read back, unless its last backslash escapes the
      closing quote; then the quote is never closed. */
  lemma {:induction false} ScanSingle(s: Bytes, rest: Bytes, current: Bytes)
    requires rest == [] || IsSpace(rest[0])
    ensures var scan := ScanToken(SingleEscape(s) + [APOSTROPHE] + rest, SingleQuoted, current);
            && (!EndsInBackslash(s) ==> scan == Token(current + s, rest))
            && (EndsInBackslash(s) && rest == [] ==> scan == Unbalanced)
    decreases |s|
  {
    var t := SingleEscape(s) + [APOSTROPHE] + rest;
    if s == [] {
      assert t[0] == APOSTROPHE && t[1..] == rest;
      assert Peek(t, 1) == Peek(rest, 0);
      assert current + [] == current;
    } else if s == [BACKSLASH] {
      assert SingleEscape(s[1..]) == [];
      assert t == [BACKSLASH, APOSTROPHE] + rest;
      assert t[2..] == rest;
    } else {
      var e := if s[0] == APOSTROPHE then [BACKSLASH, APOSTROPHE] else [s[0]];
      var tail := SingleEscape(s[1..]) + [APOSTROPHE] + rest;
      Regroup(e, SingleEscape(s[1..]), [APOSTROPHE]);
      Regroup(e, SingleEscape(s[1..]) + [APOSTROPHE], rest);
      assert t == e + tail;
      assert s[0] == BACKSLASH ==> tail[0] != APOSTROPHE by {
        if s[0] == BACKSLASH {
          assert tail[0] == SingleEscape(s[1..])[0];
        }
      }
      ScanSingleByte(s[0], tail, current);
      ScanSingle(s[1..], rest, current + [s[0]]);
      Regroup(current, [s[0]], s[1..]);
      assert [s[0]] + s[1..] == s;
      assert EndsInBackslash(s) <==> EndsInBackslash(s[1..]);
    }
  }

  /** The single-quoted form is read as the text exactly when the text does not end in a
      backslash. */
  lemma SingleFormReadsAs(s: Bytes)
    ensures ReadsAs(SingleForm(s), s) <==> !EndsInBackslash(s)
  {
    var form := SingleForm(s);
    forall rest: Bytes | rest == [] || rest[0] == SPACE
      ensures ScanToken(form + rest, Plain, []) == ScanToken(SingleEscape(s) + [APOSTROPHE] + rest, SingleQuoted, [])
      ensures !EndsInBackslash(s) ==> TokenThen(ScanToken(form + rest, Plain, []), s, rest)
    {
      assert (form + rest)[1..] == SingleEscape(s) + [APOSTROPHE] + rest;
      ScanSingle(s, rest, []);
      assert [] + s == s;
    }
    if EndsInBackslash(s) {
      ScanSingle(s, [], []);
      assert !TokenThen(ScanToken(form + [], Plain, []), s, []);
    }
  }

  // ---- no quotes ----

  /** The byte ends an argument or begins a quote outside quotes. */
  predicate IsSpecial(b: Byte) {
    b == SPACE || b == NEWLINE || b == RETURN || b == TAB || b == QUOTE || b == APOSTROPHE
  }

  /** A text that stands for itself. Vertical tabs and form feeds are blanks before an
      argument but do not end one. */
  predicate IsWord(s: Bytes) {
    s != [] && !IsSpace(s[0]) && forall b <- s :: !IsSpecial(b)
  }

  lemma {:induction false} ScanWord(s: Bytes, rest: Bytes, current: Bytes)
    requires forall b <- s :: !IsSpecial(b)
    ensures ScanToken(s + rest, Plain, current) == ScanToken(rest, Plain, current + s)
    decreases |s|
  {
    if s == [] {
      assert s + rest == rest && current + s == current;
    } else {
      var t := s + rest;
      assert t[1..] == s[1..] + rest;
      assert t[0] == s[0] && s[0] in s;
      assert ScanToken(t, Plain, current) == ScanToken(t[1..], Plain, current + [t[0]]);
      ScanWord(s[1..], rest, current + [s[0]]);
      Regroup(current, [s[0]], s[1..]);
      assert [s[0]] + s[1..] == s;
    }
  }

  lemma WordReadsAs(s: Bytes)
    requires IsWord(s)
    ensures ReadsAs(s, s)
  {
    forall rest: Bytes | rest == [] || rest[0] == SPACE
      ensures TokenThen(ScanToken(s + rest, Plain, []), s, rest)
    {
      ScanWord(s, rest, []);
      assert [] + s == s;
    }
  }

  // ---- any mixture ----

  /** An argument and the way it is written. */
  datatype Styled = Styled(style: Mode, text: Bytes)

  predicate CanWrite(a: Styled) {
    match a.style
    case Plain => IsWord(a.text)
    case Quoted => true
    case SingleQuoted => !EndsInBackslash(a.text)
  }

  function Form(a: Styled): Bytes {
    match a.style
    case Plain => a.text
    case Quoted => Repr(a.text)
    case SingleQuoted => SingleForm(a.text)
  }

  /** A line of arguments written each in its own way is split into the arguments. */
  lemma MixedLineRoundTrip(args: seq<Styled>)
    requires forall a <- args :: CanWrite(a)
    ensures var forms := seq(|args|, i requires 0 <= i < |args| => Form(args[i]));
            var texts := seq(|args|, i requires 0 <= i < |args| => args[i].text);
            Arguments(Join(forms, [SPACE])) == Some(texts)
  {
    var forms := seq(|args|, i requires 0 <= i < |args| => Form(args[i]));
    var texts := seq(|args|, i requires 0 <= i < |args| => args[i].text);
    forall i | 0 <= i < |args|
      ensures ReadsAs(forms[i], texts[i])
    {
      assert CanWrite(args[i]);
      match args[i].style
      case Plain => WordReadsAs(args[i].text);
      case Quoted => ReprReadsAs(args[i].text);
      case SingleQuoted => SingleFormReadsAs(args[i].text);
    }
    FormsReadBack(forms, texts);
  }
}
