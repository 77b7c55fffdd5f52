/** What the texts of simple regular expressions mean, character by character: the atoms, the
    repeats and the anchors, through nothing but the match of a text. */
module RegexMeaning {
  import opened RegexSyntax
  import opened RegexParse

  /** Some substring of the string, under the anchors, is in the language of the text. */
  ghost predicate TextMatches(text: string, str: string) {
    MatchesSomewhere(Parse(text), str)
  }

  /** The text matches a string of that one character. */
  ghost predicate TextTakes(text: string, ch: char) {
    TextMatches(text, [ch])
  }

  // ---- one atom ----

  lemma TailOfOne(item: Item, dollar: bool)
    ensures PrintTail([item], dollar) == PrintAtom(item.atom) + PrintRepeat(item.repeat) + if dollar then "$" else ""
  {
    assert [item][1..] == [];
  }

  lemma OneAtom(a: Atom, ch: char)
    requires AtomOk(a)
    ensures TextTakes(PrintAtom(a), ch) <==> AtomMatchesChar(a.escaped, a.c, ch)
  {
    var item := Item(a, Once);
    var re := Regex(false, [item], false);
    TailOfOne(item, false);
    assert Print(re) == PrintAtom(a);
    PrintParses(re);
    OneItemOnce(a, ch);
  }

  lemma OneItemOnce(a: Atom, ch: char)
    ensures MatchesSomewhere(Regex(false, [Item(a, Once)], false), [ch]) <==> AtomMatchesChar(a.escaped, a.c, ch)
  {
    var items, str := [Item(a, Once)], [ch];
    forall w: string
      ensures ItemsMatch(items, w) <==> |w| == 1 && AtomMatchesChar(a.escaped, a.c, w[0])
    {
      OnceWords(a, w);
    }
    assert str[0..1] == str;
  }

  lemma OnceWords(a: Atom, w: string)
    ensures ItemsMatch([Item(a, Once)], w) <==> |w| == 1 && AtomMatchesChar(a.escaped, a.c, w[0])
  {
    OneItemWords(Item(a, Once), w);
  }

  lemma OneItemWords(item: Item, w: string)
    ensures ItemsMatch([item], w) <==> ItemMatches(item, w)
  {
    assert [item][1..] == [];
    forall k: nat | k <= |w|
      ensures ItemsMatch([], w[k..]) <==> k == |w|
    {
    }
    assert w[..|w|] == w;
  }

  /** A plain character stands for itself, and a dot for everything but a newline. */
  lemma PlainCharacter(c: char, ch: char)
    requires c != '\0' && c !in "\\^$?*+()[]{}|"
    ensures TextTakes([c], ch) <==> if c == '.' then ch != '\n' else ch == c
  {
    OneAtom(Atom(false, c), ch);
  }

  lemma EscapedCharacter(c: char, ch: char)
    requires IsValidEscape(c)
    ensures TextTakes(['\\', c], ch) <==> AtomMatchesChar(true, c, ch)
  {
    OneAtom(Atom(true, c), ch);
  }

  /** The escaped class letter stands for the characters of the class. */
  lemma DigitClass(ch: char)
    ensures TextTakes(['\\', 'd'], ch) <==> ch in "0123456789"
  {
    EscapedCharacter('d', ch);
    DigitsListed(ch);
  }

  lemma BlankClass(ch: char)
    ensures TextTakes(['\\', 's'], ch) <==> ch in [' ', '\t', '\n', '\r', 11 as char, 12 as char]
  {
    EscapedCharacter('s', ch);
  }

  lemma WordClass(ch: char)
    ensures TextTakes(['\\', 'w'], ch) <==>
            'a' <= ch <= 'z' || 'A' <= ch <= 'Z' || ch in "0123456789" || ch == '_'
  {
    EscapedCharacter('w', ch);
    DigitsListed(ch);
  }

  /** The upper-case letter stands for the complement. */
  lemma NoDigitClass(ch: char)
    ensures TextTakes(['\\', 'D'], ch) <==> !TextTakes(['\\', 'd'], ch)
  {
    EscapedCharacter('d', ch);
    EscapedCharacter('D', ch);
  }

  lemma NoBlankClass(ch: char)
    ensures TextTakes(['\\', 'S'], ch) <==> !TextTakes(['\\', 's'], ch)
  {
    EscapedCharacter('s', ch);
    EscapedCharacter('S', ch);
  }

  lemma NoWordClass(ch: char)
    ensures TextTakes(['\\', 'W'], ch) <==> !TextTakes(['\\', 'w'], ch)
  {
    EscapedCharacter('w', ch);
    EscapedCharacter('W', ch);
  }

  lemma DigitsListed(ch: char)
    ensures IsAsciiDigit(ch) <==> ch in "0123456789"
  {
    if IsAsciiDigit(ch) {
      assert "0123456789"[ch as int - '0' as int] == ch;
    }
  }

  /** The escapes of the control characters. */
  lemma ControlCharacter(c: char, code: nat, ch: char)
    requires (c, code) in [('f', 12), ('n', 10), ('r', 13), ('t', 9), ('v', 11)]
    ensures TextTakes(['\\', c], ch) <==> ch == code as char
  {
    EscapedCharacter(c, ch);
  }

  /** An escaped punctuation mark stands for itself. */
  lemma Punctuation(c: char, ch: char)
    requires c in "^-!\"#$%&'()*+,./:;<=>?@[\\]_`{|}~"
    ensures TextTakes(['\\', c], ch) <==> ch == c
  {
    PunctuationAtom(c, ch);
    EscapedCharacter(c, ch);
  }

  lemma PunctuationAtom(c: char, ch: char)
    requires c in "^-!\"#$%&'()*+,./:;<=>?@[\\]_`{|}~"
    ensures IsValidEscape(c)
    ensures AtomMatchesChar(true, c, ch) <==> ch == c
  {
    NotALetter(c);
  }

  lemma NotALetter(c: char)
    requires c in "^-!\"#$%&'()*+,./:;<=>?@[\\]_`{|}~"
    ensures IsAsciiPunct(c)
    ensures !('a' <= c <= 'z') && !('A' <= c <= 'Z')
  {
  }

  // ---- repeats ----

  /** The whole string matches the text. */
  ghost predicate WholeMatches(text: string, str: string) {
    TextMatches("^" + text + "$", str)
  }

  lemma WholeItem(a: Atom, r: Repeat, str: string)
    requires AtomOk(a)
    ensures WholeMatches(PrintAtom(a) + PrintRepeat(r), str) <==> ItemMatches(Item(a, r), str)
  {
    var item := Item(a, r);
    var re := Regex(true, [item], true);
    TailOfOne(item, true);
    var text := PrintAtom(a) + PrintRepeat(r);
    assert Print(re) == "^" + (text + "$") == "^" + text + "$";
    PrintParses(re);
    OneItemWords(item, str);
    assert str[0..|str|] == str;
  }

  /** Every character of the string is taken by the text. */
  ghost predicate AllTaken(text: string, str: string) {
    forall ch <- str :: TextTakes(text, ch)
  }

  lemma AllTakenByAtom(a: Atom, str: string)
    requires AtomOk(a)
    ensures AllTaken(PrintAtom(a), str) <==>
            forall k | 0 <= k < |str| :: AtomMatchesChar(a.escaped, a.c, str[k])
  {
    forall ch: char
      ensures TextTakes(PrintAtom(a), ch) <==> AtomMatchesChar(a.escaped, a.c, ch)
    {
      OneAtom(a, ch);
    }
    if AllTaken(PrintAtom(a), str) {
      forall k | 0 <= k < |str|
        ensures AtomMatchesChar(a.escaped, a.c, str[k])
      {
        assert str[k] in str;
      }
    }
  }

  /** What an atom and its repeats match: exactly one character that the atom takes, at most
      one, any number, at least one. */
  lemma Repeats(a: Atom, str: string)
    requires AtomOk(a)
    ensures var x := PrintAtom(a);
            && (WholeMatches(x, str) <==> |str| == 1 && AllTaken(x, str))
            && (WholeMatches(x + "?", str) <==> |str| <= 1 && AllTaken(x, str))
            && (WholeMatches(x + "*", str) <==> AllTaken(x, str))
            && (WholeMatches(x + "+", str) <==> |str| >= 1 && AllTaken(x, str))
  {
    var x := PrintAtom(a);
    AllTakenByAtom(a, str);
    WholeItem(a, Once, str);
    assert x + "" == x;
    WholeItem(a, Optional, str);
    WholeItem(a, Star, str);
    WholeItem(a, Plus, str);
  }

  /** `x*` matches the empty string and what `x+` matches, `x?` the empty string and what
      `x` matches. */
  lemma RepeatsRelate(a: Atom, str: string)
    requires AtomOk(a)
    ensures var x := PrintAtom(a);
            && (WholeMatches(x + "*", str) <==> str == "" || WholeMatches(x + "+", str))
            && (WholeMatches(x + "?", str) <==> str == "" || WholeMatches(x, str))
  {
    Repeats(a, str);
  }

  /** `x+` before anything matches what `x` followed by `x*` matches there. */
  lemma PlusIsOnceThenStar(a: Atom, items: seq<Item>, w: string)
    ensures ItemsMatch([Item(a, Plus)] + items, w) <==> ItemsMatch([Item(a, Once), Item(a, Star)] + items, w)
  {
    if ItemsMatch([Item(a, Plus)] + items, w) {
      PlusSplits(a, items, w);
    }
    if ItemsMatch([Item(a, Once), Item(a, Star)] + items, w) {
      OnceStarJoins(a, items, w);
    }
  }

  lemma PlusSplits(a: Atom, items: seq<Item>, w: string)
    requires ItemsMatch([Item(a, Plus)] + items, w)
    ensures ItemsMatch([Item(a, Once), Item(a, Star)] + items, w)
  {
    var plus, star := [Item(a, Plus)] + items, [Item(a, Star)] + items;
    var both := [Item(a, Once), Item(a, Star)] + items;
    assert plus[1..] == items && star[1..] == items && both[1..] == star;
    var k: nat :| k <= |w| && ItemMatches(Item(a, Plus), w[..k]) && ItemsMatch(items, w[k..]);
    assert forall j | 0 <= j < k :: w[..k][j] == w[j];
    assert w[1..][k - 1..] == w[k..];
    assert ItemMatches(Item(a, Star), w[1..][..k - 1]);
    assert ItemsMatch(star, w[1..]);
    assert ItemMatches(Item(a, Once), w[..1]);
  }

  lemma OnceStarJoins(a: Atom, items: seq<Item>, w: string)
    requires ItemsMatch([Item(a, Once), Item(a, Star)] + items, w)
    ensures ItemsMatch([Item(a, Plus)] + items, w)
  {
    var plus, star := [Item(a, Plus)] + items, [Item(a, Star)] + items;
    var both := [Item(a, Once), Item(a, Star)] + items;
    assert plus[1..] == items && star[1..] == items && both[1..] == star;
    var i: nat :| i <= |w| && ItemMatches(Item(a, Once), w[..i]) && ItemsMatch(star, w[i..]);
    var j: nat :| j <= |w[1..]| && ItemMatches(Item(a, Star), w[1..][..j]) && ItemsMatch(items, w[1..][j..]);
    OnceThenStar(a, w, j);
    assert w[1..][j..] == w[1 + j..];
  }

  lemma OnceThenStar(a: Atom, w: string, j: nat)
    requires 1 + j <= |w| && ItemMatches(Item(a, Once), w[..1]) && ItemMatches(Item(a, Star), w[1..][..j])
    ensures ItemMatches(Item(a, Plus), w[..1 + j])
  {
    var word := w[..1 + j];
    forall k | 0 <= k < |word|
      ensures AtomMatchesChar(a.escaped, a.c, word[k])
    {
      if k == 0 {
        assert w[..1][0] == w[0];
      } else {
        assert w[1..][..j][k - 1] == w[k];
      }
    }
  }

  // ---- sequences and anchors ----

  /** The string splits into a match of the one and a match of the other. */
  ghost predicate Splits(a: seq<Item>, b: seq<Item>, w: string) {
    exists k: nat :: k <= |w| && ItemsMatch(a, w[..k]) && ItemsMatch(b, w[k..])
  }

  /** Items one after another match strings one after another. */
  lemma {:induction false} ItemsCompose(a: seq<Item>, b: seq<Item>, w: string)
    ensures ItemsMatch(a + b, w) <==> Splits(a, b, w)
    decreases |a|
  {
    if a == [] {
      assert a + b == b && w[0..] == w;
      assert forall k: nat | k <= |w| :: ItemsMatch([], w[..k]) <==> k == 0;
    } else {
      assert (a + b)[0] == a[0] && (a + b)[1..] == a[1..] + b;
      forall i: nat | i <= |w|
        ensures ItemsMatch(a[1..] + b, w[i..]) <==> Splits(a[1..], b, w[i..])
      {
        ItemsCompose(a[1..], b, w[i..]);
      }
      if i: nat :| i <= |w| && ItemMatches(a[0], w[..i]) && Splits(a[1..], b, w[i..]) {
        FirstThenSplit(a, b, w, i);
      }
      if Splits(a, b, w) {
        var i := SplitFirst(a, b, w);
        assert ItemsMatch((a + b)[1..], w[i..]);
      }
    }
  }

  lemma FirstThenSplit(a: seq<Item>, b: seq<Item>, w: string, i: nat)
    requires a != [] && i <= |w| && ItemMatches(a[0], w[..i]) && Splits(a[1..], b, w[i..])
    ensures Splits(a, b, w)
  {
    var j: nat :| j <= |w[i..]| && ItemsMatch(a[1..], w[i..][..j]) && ItemsMatch(b, w[i..][j..]);
    assert w[..i + j][..i] == w[..i] && w[..i + j][i..] == w[i..][..j] && w[i..][j..] == w[i + j..];
    assert ItemsMatch(a, w[..i + j]);
  }

  lemma SplitFirst(a: seq<Item>, b: seq<Item>, w: string) returns (i: nat)
    requires a != [] && Splits(a, b, w)
    ensures i <= |w| && ItemMatches(a[0], w[..i]) && Splits(a[1..], b, w[i..])
  {
    var k: nat :| k <= |w| && ItemsMatch(a, w[..k]) && ItemsMatch(b, w[k..]);
    i :| i <= k && ItemMatches(a[0], w[..k][..i]) && ItemsMatch(a[1..], w[..k][i..]);
    assert w[..k][..i] == w[..i] && w[..k][i..] == w[i..][..k - i] && w[k..] == w[i..][k - i..];
  }

  /** A text of items with each choice of anchors: anywhere, at the start, at the end, whole. */
  lemma Anchors(items: seq<Item>, str: string)
    requires ItemsOk(items)
    ensures var t := PrintTail(items, false);
            && (TextMatches(t, str) <==> exists i: nat, j: nat :: i <= j <= |str| && ItemsMatch(items, str[i..j]))
            && (TextMatches("^" + t, str) <==> exists j: nat :: j <= |str| && ItemsMatch(items, str[..j]))
            && (TextMatches(t + "$", str) <==> exists i: nat :: i <= |str| && ItemsMatch(items, str[i..]))
            && (TextMatches("^" + t + "$", str) <==> ItemsMatch(items, str))
  {
    AnchoredSubstrings(items, str);
    AnchoredTexts(items);
  }

  lemma AnchoredTexts(items: seq<Item>)
    requires ItemsOk(items)
    ensures var t := PrintTail(items, false);
            && Parse(t) == Regex(false, items, false)
            && Parse("^" + t) == Regex(true, items, false)
            && Parse(t + "$") == Regex(false, items, true)
            && Parse("^" + t + "$") == Regex(true, items, true)
  {
    var t := PrintTail(items, false);
    DollarAppended(items);
    PrintParses(Regex(false, items, false));
    PrintParses(Regex(true, items, false));
    PrintParses(Regex(false, items, true));
    PrintParses(Regex(true, items, true));
    assert "" + t == t && "" + (t + "$") == t + "$" && "^" + (t + "$") == "^" + t + "$";
  }

  lemma AnchoredSubstrings(items: seq<Item>, str: string)
    ensures MatchesSomewhere(Regex(false, items, false), str) <==>
            exists i: nat, j: nat :: i <= j <= |str| && ItemsMatch(items, str[i..j])
    ensures MatchesSomewhere(Regex(true, items, false), str) <==>
            exists j: nat :: j <= |str| && ItemsMatch(items, str[..j])
    ensures MatchesSomewhere(Regex(false, items, true), str) <==>
            exists i: nat :: i <= |str| && ItemsMatch(items, str[i..])
    ensures MatchesSomewhere(Regex(true, items, true), str) <==> ItemsMatch(items, str)
  {
    assert str[0..|str|] == str;
    forall j: nat | j <= |str|
      ensures str[0..j] == str[..j] && str[j..|str|] == str[j..]
    {
    }
  }
}
