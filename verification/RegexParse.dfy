/** Validation: the accepted texts are exactly the printed forms of expressions, each of
    one expression only. */
module RegexParse {
  import opened Options
  import opened RegexSyntax

  /** Whether the validator finds no fault in the rest of a text. `first` says that nothing
      comes before it, `prevRepeatable` that ?, * or + may come first. */
  predicate ValidRest(s: string, first: bool, prevRepeatable: bool) {
    if s == [] then true
    else if s[0] == '\\' then
      |s| > 1 && IsValidEscape(s[1]) && ValidRest(s[2..], false, true)
    else
      var ch := s[0];
      && !(ch == '^' && !first)
      && !(ch == '$' && |s| > 1)
      && !IsUnsupported(ch)
      && !(IsRepeat(ch) && !prevRepeatable)
      && ValidRest(s[1..], false, !IsInSet(ch, "^$?*+"))
  }

  predicate IsValid(regex: string) {
    ValidRest(regex, true, false)
  }

  /** The validator: scans the text to its end, remembering faults, except that a trailing
      backslash ends the scan. */
  method ValidateRegex(regex: Option<string>) returns (valid: bool)
    requires regex.Some? ==> IsCString(regex.value)
    ensures valid <==> regex.Some? && IsValid(regex.value)
  {
    if regex.None? {
      return false;
    }
    var s := regex.value;
    var isValid, prevRepeatable, i := true, false, 0;
    while Peek(s, i) != NUL
      invariant i <= |s|
      invariant IsValid(s) <==> isValid && ValidRest(s[i..], i == 0, prevRepeatable)
      decreases |s| - i
    {
      if s[i] == '\\' {
        i := i + 1;
        if Peek(s, i) == NUL {
          return false;
        }
        assert s[i - 1..][2..] == s[i + 1..];
        if !IsValidEscape(s[i]) {
          isValid := false;
        }
        prevRepeatable := true;
      } else {
        var ch := s[i];
        assert s[i..][1..] == s[i + 1..];
        if ch == '^' && i > 0 {
          isValid := false;
        } else if ch == '$' && Peek(s, i + 1) != NUL {
          isValid := false;
        } else if IsUnsupported(ch) {
          isValid := false;
        } else if IsRepeat(ch) && !prevRepeatable {
          isValid := false;
        }
        prevRepeatable := !IsInSet(ch, "^$?*+");
      }
      i := i + 1;
    }
    return isValid;
  }

  // ---- parsing valid texts ----

  function RepeatOf(c: char): Repeat {
    if c == '?' then Optional else if c == '*' then Star else if c == '+' then Plus else Once
  }

  /** The first item of a text that begins with an atom, and the number of characters it
      takes. */
  function FirstItem(s: string): (res: (Item, nat))
    requires s != [] && (s[0] == '\\' ==> |s| > 1)
    ensures 0 < res.1 <= |s|
  {
    var escaped := s[0] == '\\';
    var k := if escaped then 1 else 0;
    var r := RepeatOf(Peek(s, k + 1));
    (Item(Atom(escaped, s[k]), r), k + if r == Once then 1 else 2)
  }

  /** The items of a text without a leading anchor, and whether it ends in an anchor. */
  function ParseTail(s: string): (seq<Item>, bool)
    decreases |s|
  {
    if s == [] then ([], false)
    else if s == "$" then ([], true)
    else if s[0] == '\\' && |s| == 1 then ([], false)
    else
      var (item, n) := FirstItem(s);
      var (items, dollar) := ParseTail(s[n..]);
      ([item] + items, dollar)
  }

  function Parse(regex: string): Regex {
    var caret := Peek(regex, 0) == '^';
    var (items, dollar) := ParseTail(if caret then regex[1..] else regex);
    Regex(caret, items, dollar)
  }

  /** A valid text that begins with an atom begins with a printed item. */
  lemma FirstItemPrints(s: string, first: bool, prev: bool)
    requires s != [] && s != "$" && IsCString(s) && ValidRest(s, first, prev)
    requires !IsRepeat(s[0]) && s[0] != '^'
    ensures s[0] == '\\' ==> |s| > 1
    ensures var (item, n) := FirstItem(s);
            && AtomOk(item.atom)
            && s[..n] == PrintAtom(item.atom) + PrintRepeat(item.repeat)
            && ValidRest(s[n..], false, item.repeat == Once)
            && (n < |s| ==> !IsRepeat(s[n]))
  {
    var (item, n) := FirstItem(s);
    var k := if s[0] == '\\' then 2 else 1;
    assert ValidRest(s[k..], false, true);
    if k < |s| && IsRepeat(s[k]) {
      assert s[k..][1..] == s[n..];
      assert ValidRest(s[n..], false, false);
    }
    assert s[..n] == PrintAtom(item.atom) + PrintRepeat(item.repeat);
  }

  lemma {:induction false} ParseTailPrints(s: string, first: bool, prev: bool)
    requires IsCString(s) && ValidRest(s, first, prev)
    requires s != [] ==> !IsRepeat(s[0]) && s[0] != '^'
    ensures var (items, dollar) := ParseTail(s); ItemsOk(items) && PrintTail(items, dollar) == s
    decreases |s|
  {
    if s != [] && s != "$" {
      FirstItemPrints(s, first, prev);
      var (item, n) := FirstItem(s);
      ParseTailPrints(s[n..], false, item.repeat == Once);
      var (items, dollar) := ParseTail(s[n..]);
      assert ([item] + items)[1..] == items;
      assert s == s[..n] + s[n..];
    }
  }

  /** Parsing a valid text gives a well-formed expression that prints as the text. */
  lemma ParsePrints(regex: string)
    requires IsCString(regex) && IsValid(regex)
    ensures ItemsOk(Parse(regex).items) && Print(Parse(regex)) == regex
  {
    if Peek(regex, 0) == '^' {
      ParseTailPrints(regex[1..], false, false);
      assert regex == "^" + regex[1..];
    } else {
      ParseTailPrints(regex, true, false);
    }
  }

  lemma PrintItemFacts(item: Item, rest: string)
    requires AtomOk(item.atom) && (rest != [] ==> !IsRepeat(rest[0]))
    ensures var s := PrintAtom(item.atom) + PrintRepeat(item.repeat) + rest;
            && s != [] && s != "$" && s[0] != '^' && !IsRepeat(s[0])
            && (s[0] == '\\' ==> |s| > 1)
            && FirstItem(s) == (item, |s| - |rest|)
            && s[|s| - |rest|..] == rest
  {
    var a, r := PrintAtom(item.atom), PrintRepeat(item.repeat);
    var s := a + r + rest;
    assert s[0] == a[0] && a[0] != '$';
    assert s[|a|..] == r + rest;
    assert Peek(s, |a|) == Peek(r + rest, 0);
  }

  lemma PrintItemValid(item: Item, rest: string, first: bool, prev: bool)
    requires AtomOk(item.atom) && ValidRest(rest, false, item.repeat == Once)
    requires rest != [] ==> !IsRepeat(rest[0])
    ensures ValidRest(PrintAtom(item.atom) + PrintRepeat(item.repeat) + rest, first, prev)
  {
    var a, r := PrintAtom(item.atom), PrintRepeat(item.repeat);
    var s := a + r + rest;
    assert s[|a|..] == r + rest;
    if item.repeat == Once {
      assert r + rest == rest;
    } else {
      assert (r + rest)[1..] == rest;
      assert ValidRest(r + rest, false, true);
    }
  }

  lemma {:induction false} PrintTailParses(items: seq<Item>, dollar: bool)
    requires ItemsOk(items)
    ensures var s := PrintTail(items, dollar);
            && IsCString(s)
            && (s != [] ==> !IsRepeat(s[0]) && s[0] != '^')
            && ParseTail(s) == (items, dollar)
  {
    if items != [] {
      PrintTailParses(items[1..], dollar);
      var rest := PrintTail(items[1..], dollar);
      PrintItemFacts(items[0], rest);
      assert items == [items[0]] + items[1..];
    }
  }

  lemma {:induction false} PrintTailValid(items: seq<Item>, dollar: bool, first: bool, prev: bool)
    requires ItemsOk(items)
    ensures ValidRest(PrintTail(items, dollar), first, prev)
  {
    if items != [] {
      PrintTailValid(items[1..], dollar, false, items[0].repeat == Once);
      PrintTailParses(items[1..], dollar);
      PrintItemValid(items[0], PrintTail(items[1..], dollar), first, prev);
    }
  }

  /** Printing a well-formed expression gives a valid text that parses back to it. */
  lemma PrintParses(re: Regex)
    requires ItemsOk(re.items)
    ensures IsCString(Print(re)) && IsValid(Print(re)) && Parse(Print(re)) == re
  {
    var tail := PrintTail(re.items, re.dollar);
    PrintTailParses(re.items, re.dollar);
    if re.caret {
      assert Print(re)[1..] == tail;
      PrintTailValid(re.items, re.dollar, false, false);
    } else {
      assert Print(re) == tail;
      PrintTailValid(re.items, re.dollar, true, false);
    }
  }

  /** The validator accepts exactly the printed forms of well-formed expressions. */
  lemma ValidIffPrinted(regex: string)
    requires IsCString(regex)
    ensures IsValid(regex) <==> exists re: Regex :: ItemsOk(re.items) && Print(re) == regex
  {
    if IsValid(regex) {
      ParsePrints(regex);
    }
    if re: Regex :| ItemsOk(re.items) && Print(re) == regex {
      PrintParses(re);
    }
  }
}
