/** The simple regular expressions of the test framework: abstract syntax, the characters
    each atom stands for, and the language of an expression. */
module RegexSyntax {

  const NUL := '\0'

  /** A C string holds no NUL before its terminator. */
  predicate IsCString(s: string) {
    NUL !in s
  }

  /** The character `k` positions ahead; NUL at the end of the string. */
  function Peek(s: string, k: nat): char {
    if k < |s| then s[k] else NUL
  }

  // ---- character classes ----

  predicate IsInSet(ch: char, set': string) {
    ch != NUL && ch in set'
  }

  predicate IsAsciiDigit(ch: char) {
    '0' <= ch <= '9'
  }

  predicate IsAsciiPunct(ch: char) {
    IsInSet(ch, "^-!\"#$%&'()*+,./:;<=>?@[\\]_`{|}~")
  }

  predicate IsRepeat(ch: char) {
    IsInSet(ch, "?*+")
  }

  predicate IsAsciiWhiteSpace(ch: char) {
    IsInSet(ch, [' ', 12 as char, '\n', '\r', '\t', 11 as char])
  }

  predicate IsAsciiWordChar(ch: char) {
    'a' <= ch <= 'z' || 'A' <= ch <= 'Z' || '0' <= ch <= '9' || ch == '_'
  }

  predicate IsValidEscape(c: char) {
    IsAsciiPunct(c) || IsInSet(c, "dDfnrsStvwW")
  }

  predicate IsUnsupported(c: char) {
    IsInSet(c, "()[]{}|")
  }

  /** The characters an atom stands for. */
  predicate AtomMatchesChar(escaped: bool, patternChar: char, ch: char) {
    if escaped then
      match patternChar
      case 'd' => IsAsciiDigit(ch)
      case 'D' => !IsAsciiDigit(ch)
      case 'f' => ch == 12 as char
      case 'n' => ch == '\n'
      case 'r' => ch == '\r'
      case 's' => IsAsciiWhiteSpace(ch)
      case 'S' => !IsAsciiWhiteSpace(ch)
      case 't' => ch == '\t'
      case 'v' => ch == 11 as char
      case 'w' => IsAsciiWordChar(ch)
      case 'W' => !IsAsciiWordChar(ch)
      case _ => IsAsciiPunct(patternChar) && patternChar == ch
    else
      (patternChar == '.' && ch != '\n') || patternChar == ch
  }

  // ---- abstract syntax ----

  datatype Atom = Atom(escaped: bool, c: char)

  datatype Repeat = Once | Optional | Star | Plus

  datatype Item = Item(atom: Atom, repeat: Repeat)

  datatype Regex = Regex(caret: bool, items: seq<Item>, dollar: bool)

  predicate AtomOk(a: Atom) {
    if a.escaped then IsValidEscape(a.c)
    else a.c != NUL && a.c != '\\' && a.c != '^' && a.c != '$' && !IsRepeat(a.c) && !IsUnsupported(a.c)
  }

  predicate ItemsOk(items: seq<Item>) {
    forall item <- items :: AtomOk(item.atom)
  }

  function PrintAtom(a: Atom): string {
    if a.escaped then ['\\', a.c] else [a.c]
  }

  function PrintRepeat(r: Repeat): string {
    match r
    case Once => ""
    case Optional => "?"
    case Star => "*"
    case Plus => "+"
  }

  /** The text of items, with the trailing anchor if there is one. */
  function PrintTail(items: seq<Item>, dollar: bool): string {
    if items == [] then (if dollar then "$" else "")
    else PrintAtom(items[0].atom) + PrintRepeat(items[0].repeat) + PrintTail(items[1..], dollar)
  }

  function Print(re: Regex): string {
    (if re.caret then "^" else "") + PrintTail(re.items, re.dollar)
  }

  lemma {:induction false} DollarAppended(items: seq<Item>)
    ensures PrintTail(items, false) + "$" == PrintTail(items, true)
  {
    if items != [] {
      DollarAppended(items[1..]);
      var head := PrintAtom(items[0].atom) + PrintRepeat(items[0].repeat);
      assert head + PrintTail(items[1..], false) + "$" == head + (PrintTail(items[1..], false) + "$");
    }
  }

  // ---- the language ----

  predicate CountOk(r: Repeat, n: nat) {
    match r
    case Once => n == 1
    case Optional => n <= 1
    case Star => true
    case Plus => n >= 1
  }

  predicate ItemMatches(item: Item, w: string) {
    && CountOk(item.repeat, |w|)
    && forall k | 0 <= k < |w| :: AtomMatchesChar(item.atom.escaped, item.atom.c, w[k])
  }

  /** The word is a concatenation of words of the items. */
  ghost predicate ItemsMatch(items: seq<Item>, w: string)
    decreases |items|
  {
    if items == [] then w == []
    else exists k: nat :: k <= |w| && ItemMatches(items[0], w[..k]) && ItemsMatch(items[1..], w[k..])
  }

  /** Some prefix of the string, the whole string under the trailing anchor, is a word. */
  ghost predicate HeadMatches(items: seq<Item>, dollar: bool, str: string) {
    exists b: nat :: b <= |str| && ItemsMatch(items, str[..b]) && (dollar ==> b == |str|)
  }

  /** The expression matches somewhere in the string, respecting its anchors. */
  ghost predicate MatchesSomewhere(re: Regex, str: string) {
    exists a: nat, b: nat ::
      && a <= b <= |str|
      && ItemsMatch(re.items, str[a..b])
      && (re.caret ==> a == 0)
      && (re.dollar ==> b == |str|)
  }

  lemma SomewhereIsAtSomeHead(re: Regex, str: string)
    ensures MatchesSomewhere(re, str) <==>
            exists a: nat :: a <= |str| && (re.caret ==> a == 0) && HeadMatches(re.items, re.dollar, str[a..])
  {
    forall a: nat, b: nat | a <= b <= |str|
      ensures str[a..][..b - a] == str[a..b]
    {
    }
    if MatchesSomewhere(re, str) {
      var a: nat, b: nat :|
        a <= b <= |str| && ItemsMatch(re.items, str[a..b]) && (re.caret ==> a == 0) && (re.dollar ==> b == |str|);
      assert ItemsMatch(re.items, str[a..][..b - a]);
      assert HeadMatches(re.items, re.dollar, str[a..]);
    }
    if a: nat :| a <= |str| && (re.caret ==> a == 0) && HeadMatches(re.items, re.dollar, str[a..]) {
      var b: nat :| b <= |str[a..]| && ItemsMatch(re.items, str[a..][..b]) && (re.dollar ==> b == |str[a..]|);
      assert str[a..][..b] == str[a..a + b];
      assert ItemsMatch(re.items, str[a..a + b]);
    }
  }

  /** A match at the head splits at the end of the first item. */
  lemma HeadMatchesFirst(items: seq<Item>, dollar: bool, str: string)
    requires items != []
    ensures HeadMatches(items, dollar, str) <==>
            exists k: nat :: k <= |str| && ItemMatches(items[0], str[..k]) && HeadMatches(items[1..], dollar, str[k..])
  {
    if HeadMatches(items, dollar, str) {
      var b: nat :| b <= |str| && ItemsMatch(items, str[..b]) && (dollar ==> b == |str|);
      var k: nat :| k <= b && ItemMatches(items[0], str[..b][..k]) && ItemsMatch(items[1..], str[..b][k..]);
      assert str[..b][..k] == str[..k] && str[..b][k..] == str[k..][..b - k];
      assert HeadMatches(items[1..], dollar, str[k..]);
    }
    if k: nat :| k <= |str| && ItemMatches(items[0], str[..k]) && HeadMatches(items[1..], dollar, str[k..]) {
      var b: nat :| b <= |str[k..]| && ItemsMatch(items[1..], str[k..][..b]) && (dollar ==> b == |str[k..]|);
      var w := str[..k + b];
      assert w[..k] == str[..k] && w[k..] == str[k..][..b];
      assert ItemsMatch(items, w);
    }
  }
}
