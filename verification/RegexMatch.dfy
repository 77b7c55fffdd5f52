/** Matching: the recursive matcher decides the language of the parsed expression. */
module RegexMatch {
  import opened Options
  import opened RegexSyntax
  import opened RegexParse

  /** The largest string a `size_t` count of repetitions can walk. */
  const MAX_COUNT := 0x1_0000_0000_0000_0000 - 2

  /** The text is what is left of a valid regular expression after whole items. */
  ghost predicate IsTail(regex: string, items: seq<Item>, dollar: bool) {
    ItemsOk(items) && regex == PrintTail(items, dollar)
  }

  /** The cut of a string at a repetition count. */
  ghost predicate RepeatsTo(item: Item, str: string, k: nat) {
    k <= |str| && forall j | 0 <= j < k :: AtomMatchesChar(item.atom.escaped, item.atom.c, str[j])
  }

  lemma CutMatches(item: Item, str: string, k: nat)
    requires k <= |str|
    ensures ItemMatches(item, str[..k]) <==> RepeatsTo(item, str, k) && CountOk(item.repeat, k)
  {
  }

  lemma HeadByCount(item: Item, items: seq<Item>, dollar: bool, str: string)
    ensures HeadMatches([item] + items, dollar, str) <==>
            exists k: nat ::
              k <= |str| && RepeatsTo(item, str, k) && CountOk(item.repeat, k) && HeadMatches(items, dollar, str[k..])
  {
    var all := [item] + items;
    assert all[0] == item && all[1..] == items;
    HeadMatchesFirst(all, dollar, str);
    forall k: nat | k <= |str|
      ensures ItemMatches(item, str[..k]) <==> RepeatsTo(item, str, k) && CountOk(item.repeat, k)
    {
      CutMatches(item, str, k);
    }
  }

  /** Matches a repeated atom and the rest of the expression at the head of a string, by
      trying every number of repetitions from the smallest. */
  method MatchRepetitionAndRegexAtHead(escaped: bool, c: char, repeat: char, regex: string, str: string,
                                       ghost item: Item, ghost items: seq<Item>, ghost dollar: bool)
    returns (matched: bool)
    requires IsCString(regex) && IsCString(str) && |str| <= MAX_COUNT && IsTail(regex, items, dollar)
    requires IsRepeat(repeat) && item == Item(Atom(escaped, c), RepeatOf(repeat))
    ensures matched <==> HeadMatches([item] + items, dollar, str)
    decreases |regex|, 1
  {
    HeadByCount(item, items, dollar, str);
    var minCount := if repeat == '+' then 1 else 0;
    var maxCount := if repeat == '?' then 1 else MAX_COUNT;
    var i := 0;
    while i <= maxCount
      invariant 0 <= i <= maxCount + 1 && i <= |str|
      invariant RepeatsTo(item, str, i)
      invariant forall k: nat | k < i && k <= |str| && CountOk(item.repeat, k) :: !HeadMatches(items, dollar, str[k..])
    {
      if i >= minCount {
        var tail := MatchRegexAtHead(regex, str[i..], items, dollar);
        if tail {
          assert CountOk(item.repeat, i);
          return true;
        }
      }
      if Peek(str, i) == NUL || !AtomMatchesChar(escaped, c, str[i]) {
        assert forall k: nat | RepeatsTo(item, str, k) :: k <= i;
        return false;
      }
      i := i + 1;
    }
    assert forall k: nat | k > 1 :: !CountOk(item.repeat, k);
    return false;
  }

  /** Matches an expression without a leading anchor at the head of a string. */
  method MatchRegexAtHead(regex: string, str: string, ghost items: seq<Item>, ghost dollar: bool)
    returns (matched: bool)
    requires IsCString(regex) && IsCString(str) && |str| <= MAX_COUNT && IsTail(regex, items, dollar)
    ensures matched <==> HeadMatches(items, dollar, str)
    decreases |regex|, 0
  {
    if Peek(regex, 0) == NUL {
      EmptyHead(items, dollar, str);
      return true;
    }
    TailBegins(items, dollar);
    if regex[0] == '$' {
      DollarHead(str);
      return Peek(str, 0) == NUL;
    }
    ghost var rest := PrintTail(items[1..], dollar);
    ghost var item := items[0];
    assert items == [item] + items[1..];
    var escaped := regex[0] == '\\';
    var k := if escaped then 1 else 0;
    if IsRepeat(Peek(regex, k + 1)) {
      assert regex[k + 2..] == rest;
      matched := MatchRepetitionAndRegexAtHead(
        escaped, regex[k], regex[k + 1], regex[k + 2..], str, item, items[1..], dollar);
    } else {
      assert regex[k + 1..] == rest;
      OneHead(item, items[1..], dollar, str);
      matched := Peek(str, 0) != NUL && AtomMatchesChar(escaped, regex[k], str[0]);
      if matched {
        matched := MatchRegexAtHead(regex[k + 1..], str[1..], items[1..], dollar);
      }
    }
  }

  lemma EmptyHead(items: seq<Item>, dollar: bool, str: string)
    requires PrintTail(items, dollar) == "" || Peek(PrintTail(items, dollar), 0) == NUL
    requires IsCString(PrintTail(items, dollar))
    ensures HeadMatches(items, dollar, str)
  {
    assert str[..0] == "";
    assert ItemsMatch([], str[..0]);
  }

  lemma DollarHead(str: string)
    ensures HeadMatches([], true, str) <==> str == ""
  {
    if str == "" {
      assert ItemsMatch([], str[..0]);
    }
  }

  lemma OneHead(item: Item, items: seq<Item>, dollar: bool, str: string)
    requires item.repeat == Once
    ensures HeadMatches([item] + items, dollar, str) <==>
            str != "" && AtomMatchesChar(item.atom.escaped, item.atom.c, str[0]) && HeadMatches(items, dollar, str[1..])
  {
    HeadByCount(item, items, dollar, str);
    if str != "" && AtomMatchesChar(item.atom.escaped, item.atom.c, str[0]) {
      assert RepeatsTo(item, str, 1);
    }
  }

  /** How a nonempty tail begins: with the final anchor, or with its first item. */
  lemma TailBegins(items: seq<Item>, dollar: bool)
    requires ItemsOk(items) && PrintTail(items, dollar) != ""
    ensures var s := PrintTail(items, dollar);
            if s[0] == '$' then items == [] && dollar
            else
              && items != [] && s != "$"
              && (s[0] == '\\' ==> |s| > 1)
              && FirstItem(s) == (items[0], |s| - |PrintTail(items[1..], dollar)|)
              && s[FirstItem(s).1..] == PrintTail(items[1..], dollar)
  {
    if items != [] {
      PrintTailParses(items[1..], dollar);
      PrintItemFacts(items[0], PrintTail(items[1..], dollar));
      assert PrintTail(items, dollar)[0] == PrintAtom(items[0].atom)[0];
    }
  }

  /** Matches anywhere in a string, or at its start under a leading anchor. The expression
      must be valid; null pointers match nothing. */
  method MatchRegexAnywhere(regex: Option<string>, str: Option<string>) returns (matched: bool)
    requires regex.Some? ==> IsCString(regex.value) && IsValid(regex.value)
    requires str.Some? ==> IsCString(str.value) && |str.value| <= MAX_COUNT
    ensures matched <==> regex.Some? && str.Some? && MatchesSomewhere(Parse(regex.value), str.value)
  {
    if regex.None? || str.None? {
      return false;
    }
    var text, s := regex.value, str.value;
    ghost var re := Parse(text);
    ParsePrints(text);
    SomewhereIsAtSomeHead(re, s);
    if Peek(text, 0) == '^' {
      assert text == "^" + PrintTail(re.items, re.dollar);
      assert s[0..] == s;
      matched := MatchRegexAtHead(text[1..], s, re.items, re.dollar);
      return;
    }
    var p := 0;
    while true
      invariant p <= |s|
      invariant forall a: nat | a < p :: !HeadMatches(re.items, re.dollar, s[a..])
      decreases |s| - p
    {
      var here := MatchRegexAtHead(text, s[p..], re.items, re.dollar);
      if here {
        return true;
      }
      if Peek(s, p) == NUL {
        break;
      }
      p := p + 1;
    }
    return false;
  }
}
