/** Whole-string matching: the anchored pattern built at construction, and exactly when it
    does what it is for. */
module RegexFullMatch {
  import opened Options
  import opened RegexSyntax
  import opened RegexParse
  import opened RegexMatch

  /** The pattern wrapped in anchors where the text does not already show them. */
  function FullPattern(regex: string): string {
    (if Peek(regex, 0) != '^' then "^" else "")
    + regex
    + (if regex == "" || regex[|regex| - 1] != '$' then "$" else "")
  }

  /** The last item is the escaped dollar sign, a literal that the text shows last. */
  predicate EndsInLiteralDollar(items: seq<Item>) {
    items != [] && items[|items| - 1] == Item(Atom(true, '$'), Once)
  }

  // ---- the pattern built ----

  lemma {:induction false} LastCharacter(items: seq<Item>, dollar: bool)
    requires ItemsOk(items)
    ensures var s := PrintTail(items, dollar);
            && (s == "" <==> items == [] && !dollar)
            && (s != "" ==> (s[|s| - 1] == '$' <==> dollar || EndsInLiteralDollar(items)))
  {
    if items != [] {
      LastCharacter(items[1..], dollar);
      var a, r, rest := PrintAtom(items[0].atom), PrintRepeat(items[0].repeat), PrintTail(items[1..], dollar);
      var s := PrintTail(items, dollar);
      assert s == a + r + rest;
      if rest == "" {
        assert items == [items[0]];
        assert s[|s| - 1] == if r == "" then a[|a| - 1] else r[0];
      } else {
        assert s[|s| - 1] == rest[|rest| - 1];
        assert items[1..] != [] ==> items[1..][|items| - 2] == items[|items| - 1];
      }
    }
  }

  /** What the wrapped pattern parses to: always anchored in front, and anchored at the end
      unless a literal dollar sign was taken for the anchor. */
  function Anchored(re: Regex): Regex {
    Regex(true, re.items, re.dollar || !EndsInLiteralDollar(re.items))
  }

  lemma WrapText(caret: bool, tail: string)
    requires tail != "" ==> tail[0] != '^'
    ensures FullPattern((if caret then "^" else "") + tail)
            == "^" + (tail + if tail == "" || tail[|tail| - 1] != '$' then "$" else "")
  {
    var regex := (if caret then "^" else "") + tail;
    var end := if tail == "" || tail[|tail| - 1] != '$' then "$" else "";
    assert tail != "" ==> regex[|regex| - 1] == tail[|tail| - 1];
    assert FullPattern(regex) == (if caret then "" else "^") + regex + end;
    assert "^" + tail + end == "^" + (tail + end);
  }

  /** The text wrapped is the text of the anchored expression. */
  lemma FullPatternPrints(re: Regex)
    requires ItemsOk(re.items)
    ensures FullPattern(Print(re)) == Print(Anchored(re))
  {
    var tail := PrintTail(re.items, re.dollar);
    LastCharacter(re.items, re.dollar);
    DollarAppended(re.items);
    PrintTailParses(re.items, re.dollar);
    WrapText(re.caret, tail);
    assert tail + "" == tail;
  }

  lemma FullPatternParses(regex: string)
    requires IsCString(regex) && IsValid(regex)
    ensures IsCString(FullPattern(regex)) && IsValid(FullPattern(regex))
    ensures Parse(FullPattern(regex)) == Anchored(Parse(regex))
  {
    ParsePrints(regex);
    FullPatternPrints(Parse(regex));
    PrintParses(Anchored(Parse(regex)));
  }

  /** Under both anchors, matching somewhere is matching the whole string. */
  lemma AnchoredMatch(re: Regex, str: string)
    ensures MatchesSomewhere(Anchored(re), str) <==> HeadMatches(re.items, Anchored(re).dollar, str)
    ensures Anchored(re).dollar ==> (HeadMatches(re.items, true, str) <==> ItemsMatch(re.items, str))
  {
    SomewhereIsAtSomeHead(Anchored(re), str);
    assert str[0..] == str && str[..|str|] == str;
  }

  /** A compiled expression: its text, and the text for matching whole strings. */
  class RE {
    var pattern: Option<string>
    var fullPattern: Option<string>
    var isValid: bool

    ghost predicate Valid()
      reads this
    {
      && (pattern.Some? ==> IsCString(pattern.value))
      && (isValid <==> pattern.Some? && IsValid(pattern.value))
      && fullPattern == if isValid then Some(FullPattern(pattern.value)) else None
    }

    constructor (regex: Option<string>)
      requires regex.Some? ==> IsCString(regex.value)
      ensures Valid() && pattern == regex
    {
      pattern, fullPattern := regex, None;
      new;
      isValid := ValidateRegex(regex);
      if !isValid {
        return;
      }
      var text := regex.value;
      var buffer := "";
      if Peek(text, 0) != '^' {
        buffer := buffer + "^";
      }
      buffer := buffer + text;
      if |text| == 0 || text[|text| - 1] != '$' {
        buffer := buffer + "$";
      }
      assert buffer == FullPattern(text);
      fullPattern := Some(buffer);
    }

    /** Accepts the whole string exactly when it is a word of the expression, unless a
        literal dollar sign ends the expression: then a word at the front is enough. */
    method FullMatch(str: Option<string>) returns (matched: bool)
      requires Valid() && (str.Some? ==> IsCString(str.value) && |str.value| <= MAX_COUNT)
      ensures matched <==> isValid && str.Some? &&
                           var re := Parse(pattern.value);
                           if Anchored(re).dollar then ItemsMatch(re.items, str.value)
                           else exists b: nat :: b <= |str.value| && ItemsMatch(re.items, str.value[..b])
    {
      if !isValid {
        return false;
      }
      FullPatternParses(pattern.value);
      matched := MatchRegexAnywhere(fullPattern, str);
      if str.Some? {
        AnchoredMatch(Parse(pattern.value), str.value);
      }
    }

    method PartialMatch(str: Option<string>) returns (matched: bool)
      requires Valid() && (str.Some? ==> IsCString(str.value) && |str.value| <= MAX_COUNT)
      ensures matched <==> isValid && str.Some? && MatchesSomewhere(Parse(pattern.value), str.value)
    {
      if !isValid {
        return false;
      }
      matched := MatchRegexAnywhere(pattern, str);
    }
  }

  // ---- exactly when whole-string matching is whole-string matching ----

  /** A character, not NUL, that the atom stands for. */
  function SampleChar(a: Atom): (ch: char)
    requires AtomOk(a)
    ensures ch != NUL && AtomMatchesChar(a.escaped, a.c, ch)
  {
    if !a.escaped then (if a.c == '.' then 'a' else a.c)
    else
      match a.c
      case 'd' => '0'
      case 'f' => 12 as char
      case 'n' => '\n'
      case 'r' => '\r'
      case 's' => ' '
      case 't' => '\t'
      case 'v' => 11 as char
      case 'W' => ' '
      case 'D' => 'a'
      case 'S' => 'a'
      case 'w' => 'a'
      case _ => a.c
  }

  /** A word of the items: one character each. */
  function Sample(items: seq<Item>): string
    requires ItemsOk(items)
  {
    if items == [] then "" else [SampleChar(items[0].atom)] + Sample(items[1..])
  }

  lemma {:induction false} SampleMatches(items: seq<Item>)
    requires ItemsOk(items)
    ensures IsCString(Sample(items)) && ItemsMatch(items, Sample(items))
  {
    if items != [] {
      SampleMatches(items[1..]);
      var w := Sample(items);
      assert w[1..] == Sample(items[1..]);
      assert ItemMatches(items[0], w[..1]) by {
        assert w[..1] == [SampleChar(items[0].atom)];
      }
    }
  }

  lemma {:induction false} WordsEndInDollar(items: seq<Item>, w: string)
    requires EndsInLiteralDollar(items) && ItemsMatch(items, w)
    ensures w != "" && w[|w| - 1] == '$'
    decreases |items|
  {
    var k: nat :| k <= |w| && ItemMatches(items[0], w[..k]) && ItemsMatch(items[1..], w[k..]);
    if |items| == 1 {
      assert ItemsMatch([], w[k..]);
      assert k == 1 && w[..1][0] == '$';
    } else {
      WordsEndInDollar(items[1..], w[k..]);
      assert w[k..][|w[k..]| - 1] == w[|w| - 1];
    }
  }

  /** A word with a letter after it: matched at the head, but no word. */
  lemma SampleFollowed(items: seq<Item>)
    requires ItemsOk(items) && EndsInLiteralDollar(items)
    ensures var str := Sample(items) + "x"; IsCString(str) && HeadMatches(items, false, str) && !ItemsMatch(items, str)
  {
    var w := Sample(items);
    SampleMatches(items);
    assert (w + "x")[..|w|] == w;
    if ItemsMatch(items, w + "x") {
      WordsEndInDollar(items, w + "x");
      assert false;
    }
  }

  /** The strings the wrapped pattern accepts. */
  ghost predicate FullMatches(regex: string, str: string) {
    MatchesSomewhere(Parse(FullPattern(regex)), str)
  }

  /** The wrapped pattern accepts words, or everything that begins with a word. */
  lemma FullMatchesAre(regex: string, str: string)
    requires IsCString(regex) && IsValid(regex)
    ensures var re := Parse(regex);
            FullMatches(regex, str) <==>
            if Anchored(re).dollar then ItemsMatch(re.items, str) else HeadMatches(re.items, false, str)
  {
    FullPatternParses(regex);
    AnchoredMatch(Parse(regex), str);
  }

  /** The wrapped pattern and the expression accept the same strings. */
  ghost predicate FullMatchesWords(regex: string) {
    forall str: string | IsCString(str) :: FullMatches(regex, str) <==> ItemsMatch(Parse(regex).items, str)
  }

  /** Whole-string matching accepts exactly the words of the expression if and only if the
      text does not end in an escaped dollar sign. */
  lemma FullMatchExactlyWhen(regex: string)
    requires IsCString(regex) && IsValid(regex)
    ensures FullMatchesWords(regex) <==> Parse(regex).dollar || !EndsInLiteralDollar(Parse(regex).items)
  {
    var items := Parse(regex).items;
    if Anchored(Parse(regex)).dollar {
      forall str: string | IsCString(str)
        ensures FullMatches(regex, str) <==> ItemsMatch(items, str)
      {
        FullMatchesAre(regex, str);
      }
    } else {
      ParsePrints(regex);
      SampleFollowed(items);
      FullMatchesAre(regex, Sample(items) + "x");
    }
  }
}
