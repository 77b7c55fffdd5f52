/** Splitting by a separator and joining with it. */
module SdsSplit {
  import opened Decimal
  import opened Options
  import opened SdsString

  type Bytes = seq<Byte>

  predicate MatchesAt(s: Bytes, k: nat, sep: Bytes) {
    k + |sep| <= |s| && s[k..k + |sep|] == sep
  }

  /** The parts with the separator between them. */
  function Join(parts: seq<Bytes>, sep: Bytes): Bytes {
    if parts == [] then []
    else if |parts| == 1 then parts[0]
    else parts[0] + sep + Join(parts[1..], sep)
  }

  /** The parts with the separator after each. */
  function Terminated(parts: seq<Bytes>, sep: Bytes): Bytes {
    if parts == [] then [] else parts[0] + sep + Terminated(parts[1..], sep)
  }

  /** The separator does not begin inside the part when it follows the part. */
  ghost predicate CleanBefore(part: Bytes, sep: Bytes) {
    forall k: nat | k < |part| :: !MatchesAt(part + sep, k, sep)
  }

  ghost predicate Avoids(part: Bytes, sep: Bytes) {
    forall k: nat | k < |part| :: !MatchesAt(part, k, sep)
  }

  /** Lists that a scan for the leftmost separator takes apart where they were joined. */
  ghost predicate Clean(parts: seq<Bytes>, sep: Bytes) {
    && parts != []
    && (forall i | 0 <= i < |parts| - 1 :: CleanBefore(parts[i], sep))
    && Avoids(parts[|parts| - 1], sep)
  }

  /** What splitting promises: no tokens for the empty string, otherwise the clean list
      that joins to the string. */
  ghost predicate IsSplit(s: Bytes, tokens: seq<Bytes>, sep: Bytes) {
    if s == [] then tokens == [] else Join(tokens, sep) == s && Clean(tokens, sep)
  }

  lemma {:induction false} JoinTerminated(parts: seq<Bytes>, last: Bytes, sep: Bytes)
    ensures Join(parts + [last], sep) == Terminated(parts, sep) + last
  {
    if parts != [] {
      JoinTerminated(parts[1..], last, sep);
      assert (parts + [last])[1..] == parts[1..] + [last];
      assert parts[0] + sep + (Terminated(parts[1..], sep) + last) == Terminated(parts, sep) + last;
    } else {
      assert [last][0] == last;
    }
  }

  lemma {:induction false} TerminatedAppend(parts: seq<Bytes>, next: Bytes, sep: Bytes)
    ensures Terminated(parts + [next], sep) == Terminated(parts, sep) + next + sep
  {
    if parts != [] {
      TerminatedAppend(parts[1..], next, sep);
      assert (parts + [next])[1..] == parts[1..] + [next];
    } else {
      assert ([] + [next])[1..] == [];
    }
  }

  /** No token of a clean list contains the separator. */
  lemma CleanPartsAvoid(parts: seq<Bytes>, sep: Bytes)
    requires Clean(parts, sep)
    ensures forall part <- parts :: Avoids(part, sep)
  {
    forall i | 0 <= i < |parts|
      ensures Avoids(parts[i], sep)
    {
      if i < |parts| - 1 {
        forall k: nat | k < |parts[i]| && MatchesAt(parts[i], k, sep)
          ensures false
        {
          assert (parts[i] + sep)[k..k + |sep|] == parts[i][k..k + |sep|];
          assert CleanBefore(parts[i], sep);
          assert MatchesAt(parts[i] + sep, k, sep);
        }
      }
    }
  }

  /** Where a clean list joined with the separator first shows the separator. */
  lemma FirstMatch(parts: seq<Bytes>, sep: Bytes, k: nat)
    requires Clean(parts, sep) && |parts| > 1 && |sep| > 0
    ensures MatchesAt(Join(parts, sep), |parts[0]|, sep)
    ensures k < |parts[0]| ==> !MatchesAt(Join(parts, sep), k, sep)
  {
    var rest := Join(parts[1..], sep);
    assert Join(parts, sep) == (parts[0] + sep) + rest;
    if k < |parts[0]| {
      assert CleanBefore(parts[0], sep);
      assert ((parts[0] + sep) + rest)[k..k + |sep|] == (parts[0] + sep)[k..k + |sep|];
      assert !MatchesAt(parts[0] + sep, k, sep);
    }
  }

  lemma CleanTail(parts: seq<Bytes>, sep: Bytes)
    requires Clean(parts, sep) && |parts| > 1
    ensures Clean(parts[1..], sep)
  {
    var tail := parts[1..];
    assert forall i | 0 <= i < |tail| :: tail[i] == parts[i + 1];
  }

  /** Two clean lists that join to the same string are the same list. */
  lemma {:induction false} CleanUnique(a: seq<Bytes>, b: seq<Bytes>, sep: Bytes)
    requires Clean(a, sep) && Clean(b, sep) && |sep| > 0
    requires Join(a, sep) == Join(b, sep)
    ensures a == b
    decreases |a|
  {
    var s := Join(a, sep);
    if |a| == 1 && |b| == 1 {
    } else if |a| == 1 {
      FirstMatch(b, sep, 0);
    } else if |b| == 1 {
      FirstMatch(a, sep, 0);
    } else {
      FirstMatch(a, sep, |b[0]|);
      FirstMatch(b, sep, |a[0]|);
      assert |a[0]| == |b[0]|;
      assert a[0] == s[..|a[0]|] == b[0];
      assert Join(a[1..], sep) == s[|a[0]| + |sep|..] == Join(b[1..], sep);
      CleanTail(a, sep);
      CleanTail(b, sep);
      CleanUnique(a[1..], b[1..], sep);
      assert a == [a[0]] + a[1..] && b == [b[0]] + b[1..];
    }
  }

  /** Exactly when splitting undoes joining. */
  lemma SplitUndoesJoin(parts: seq<Bytes>, tokens: seq<Bytes>, sep: Bytes)
    requires |sep| > 0 && IsSplit(Join(parts, sep), tokens, sep)
    ensures tokens == parts <==> parts == [] || (Clean(parts, sep) && parts != [[]])
  {
    var s := Join(parts, sep);
    if s != [] && Clean(parts, sep) {
      CleanUnique(parts, tokens, sep);
    }
    if |parts| > 1 {
      assert |s| >= |sep|;
    }
  }

  /** For a separator of one byte it is enough that the parts avoid it. */
  lemma OneByteClean(parts: seq<Bytes>, sep: Bytes)
    requires |sep| == 1 && parts != []
    ensures Clean(parts, sep) <==> forall part <- parts :: sep[0] !in part
  {
    forall part: Bytes
      ensures CleanBefore(part, sep) <==> sep[0] !in part
      ensures Avoids(part, sep) <==> sep[0] !in part
    {
      forall k: nat | k < |part|
        ensures MatchesAt(part, k, sep) <==> part[k] == sep[0]
        ensures MatchesAt(part + sep, k, sep) <==> part[k] == sep[0]
      {
        assert part[k..k + 1] == [part[k]];
        assert (part + sep)[k..k + 1] == [part[k]];
      }
    }
  }

  /** A longer separator can overlap the end of a part: joining "a" and "b" with "aa" and
      splitting again yields "" and "ab", although neither part contains the separator. */
  lemma OverlapFails()
    ensures var a, sep := [97], [97, 97];
            && Avoids(a, sep) && Avoids([98], sep)
            && Join([a, [98]], sep) == Join([[], [97, 98]], sep)
            && Clean([[], [97, 98]], sep) && !Clean([a, [98]], sep)
  {
    var a, sep: Bytes := [97], [97, 97];
    assert Join([a, [98]], sep) == a + sep + Join([[98]], sep);
    assert Join([[], [97, 98]], sep) == [] + sep + Join([[97, 98]], sep);
    assert MatchesAt(a + sep, 0, sep) by {
      assert (a + sep)[0..2] == sep;
    }
    assert !CleanBefore([a, [98]][0], sep);
    assert CleanBefore([[], [97, 98]][0], sep);
    var ab: Bytes := [97, 98];
    assert ab[0..2] == ab != sep;
  }

  lemma SliceOfSlice(s: Bytes, a: nat, b: nat, i: nat, j: nat)
    requires a <= b <= |s| && i <= j <= b - a
    ensures s[a..b][i..j] == s[a + i..a + j]
  {
    var l, r := s[a..b][i..j], s[a + i..a + j];
    assert |l| == |r| == j - i;
    forall k | 0 <= k < |l| ensures l[k] == r[k] {
      assert l[k] == s[a..b][i + k] == s[a + (i + k)];
    }
  }

  lemma CutIsClean(s: Bytes, start: nat, j: nat, sep: Bytes)
    requires start <= j && MatchesAt(s, j, sep)
    requires forall k: nat | start <= k < j :: !MatchesAt(s, k, sep)
    ensures CleanBefore(s[start..j], sep)
  {
    var part, whole := s[start..j], s[start..j + |sep|];
    assert part + sep == whole;
    forall k: nat | k < |part|
      ensures !MatchesAt(part + sep, k, sep)
    {
      if MatchesAt(whole, k, sep) {
        SliceOfSlice(s, start, j + |sep|, k, k + |sep|);
        assert MatchesAt(s, start + k, sep);
      }
    }
  }

  lemma RestAvoids(s: Bytes, start: nat, sep: Bytes)
    requires start <= |s|
    requires forall k: nat | start <= k <= |s| - |sep| :: !MatchesAt(s, k, sep)
    ensures Avoids(s[start..], sep)
  {
    var part := s[start..];
    forall k: nat | k < |part|
      ensures !MatchesAt(part, k, sep)
    {
      if MatchesAt(part, k, sep) {
        SliceOfSlice(s, start, |s|, k, k + |sep|);
        assert MatchesAt(s, start + k, sep);
      }
    }
  }

  /** The scan at position `j`: the tokens cut so far, with the separator after each, make
      up the text before `start`, and no separator begins between `start` and `j`. */
  ghost predicate Scanned(text: Bytes, cut: seq<Bytes>, start: nat, j: nat, sep: Bytes) {
    && start <= j <= |text|
    && Terminated(cut, sep) == text[..start]
    && (forall part <- cut :: CleanBefore(part, sep))
    && forall k: nat | start <= k < j :: !MatchesAt(text, k, sep)
  }

  lemma ScanHit(text: Bytes, cut: seq<Bytes>, start: nat, j: nat, sep: Bytes)
    requires Scanned(text, cut, start, j, sep) && MatchesAt(text, j, sep)
    ensures Scanned(text, cut + [text[start..j]], j + |sep|, j + |sep|, sep)
  {
    CutIsClean(text, start, j, sep);
    TerminatedAppend(cut, text[start..j], sep);
    assert text[..start] + text[start..j] + sep == text[..j + |sep|];
  }

  lemma ScanMiss(text: Bytes, cut: seq<Bytes>, start: nat, j: nat, sep: Bytes)
    requires Scanned(text, cut, start, j, sep) && j < |text| && !MatchesAt(text, j, sep)
    ensures Scanned(text, cut, start, j + 1, sep)
  {
  }

  lemma ScanEnd(text: Bytes, cut: seq<Bytes>, start: nat, j: nat, sep: Bytes)
    requires Scanned(text, cut, start, j, sep) && text != [] && sep != []
    requires j >= |text| - (|sep| - 1)
    ensures IsSplit(text, cut + [text[start..]], sep)
  {
    var tokens := cut + [text[start..]];
    RestAvoids(text, start, sep);
    JoinTerminated(cut, text[start..], sep);
    assert text[..start] + text[start..] == text;
    assert forall i | 0 <= i < |tokens| - 1 :: tokens[i] == cut[i];
  }

  /** Doubles the slots of the token array. */
  method Grow(tokens: array<Bytes>, elements: nat) returns (grown: array<Bytes>)
    requires elements <= tokens.Length
    ensures fresh(grown) && grown.Length == tokens.Length * 2
    ensures grown[..elements] == tokens[..elements]
  {
    grown := new Bytes[tokens.Length * 2](_ => []);
    forall i | 0 <= i < elements {
      grown[i] := tokens[i];
    }
  }

  /** The splitter: one scan for the leftmost separator, storing tokens in an array whose
      slots are doubled before they run out. */
  method SplitLen(s: Bytes, len: int, sep: Bytes, seplen: int) returns (result: Option<seq<Bytes>>)
    requires len <= |s| && seplen <= |sep|
    ensures result.None? <==> seplen < 1 || len < 0
    ensures result.Some? ==> IsSplit(s[..len], result.value, sep[..seplen])
  {
    if seplen < 1 || len < 0 {
      return None;
    }
    var elements, slots, start, j := 0, 5, 0, 0;
    var tokens := new Bytes[slots](_ => []);
    if len == 0 {
      return Some([]);
    }
    ghost var text, mark, cut := s[..len], sep[..seplen], [];
    while j < len - (seplen - 1)
      invariant slots == tokens.Length && fresh(tokens) && elements + 1 <= slots
      invariant tokens[..elements] == cut
      invariant Scanned(text, cut, start, j, mark)
      decreases len - j
    {
      if slots < elements + 2 {
        slots := slots * 2;
        tokens := Grow(tokens, elements);
      }
      SliceOfSlice(s, 0, len, j, j + seplen);
      assert s[0..len] == text;
      if (seplen == 1 && s[j] == sep[0]) || s[j..j + seplen] == sep[..seplen] {
        assert MatchesAt(text, j, mark) by {
          assert seplen == 1 ==> s[j..j + 1] == [s[j]];
        }
        ScanHit(text, cut, start, j, mark);
        tokens[elements] := s[start..j];
        SliceOfSlice(s, 0, len, start, j);
        cut := cut + [text[start..j]];
        elements := elements + 1;
        start := j + seplen;
        j := j + seplen - 1;
      } else {
        ScanMiss(text, cut, start, j, mark);
      }
      j := j + 1;
    }
    ScanEnd(text, cut, start, j, mark);
    tokens[elements] := s[start..len];
    assert tokens[elements] == text[start..];
    elements := elements + 1;
    assert tokens[..elements] == cut + [text[start..]];
    result := Some(tokens[..elements]);
  }

  /** The joiner. */
  method JoinSds(argv: seq<Bytes>, sep: Bytes) returns (join: Sds)
    requires Allocatable(|Terminated(argv, sep)|)
    ensures join.Valid() && join.Contents() == Join(argv, sep)
  {
    join := Sds.Empty();
    for j := 0 to |argv|
      invariant join.Valid() && fresh(join) && fresh(join.buf)
      invariant join.Contents() == if j < |argv| then Terminated(argv[..j], sep) else Join(argv, sep)
    {
      TerminatedPrefix(argv, j, sep);
      JoinStep(argv, j, sep);
      join.CatLen(argv[j]);
      if j != |argv| - 1 {
        join.CatLen(sep);
      }
    }
  }

  lemma JoinStep(argv: seq<Bytes>, j: nat, sep: Bytes)
    requires j < |argv|
    ensures j < |argv| - 1 ==> Terminated(argv[..j], sep) + argv[j] + sep == Terminated(argv[..j + 1], sep)
    ensures j == |argv| - 1 ==> Terminated(argv[..j], sep) + argv[j] == Join(argv, sep)
  {
    assert argv[..j + 1] == argv[..j] + [argv[j]];
    TerminatedAppend(argv[..j], argv[j], sep);
    if j == |argv| - 1 {
      JoinTerminated(argv[..j], argv[j], sep);
      assert argv == argv[..j] + [argv[j]];
    }
  }

  lemma {:induction false} TerminatedPrefix(parts: seq<Bytes>, j: nat, sep: Bytes)
    requires j < |parts|
    ensures |Terminated(parts[..j], sep)| + |parts[j]| + |sep| <= |Terminated(parts, sep)|
  {
    if j > 0 {
      TerminatedPrefix(parts[1..], j - 1, sep);
      assert parts[..j][1..] == parts[1..][..j - 1];
    }
  }

  /** Joining what splitting returns gives the string back. */
  method SplitThenJoin(s: Bytes, sep: Bytes) returns (join: Sds)
    requires |sep| >= 1 && Allocatable(|s| + |sep|)
    ensures join.Valid() && join.Contents() == s
  {
    var tokens := SplitLen(s, |s|, sep, |sep|);
    assert s[..|s|] == s && sep[..|sep|] == sep;
    TerminatedLength(tokens.value, sep);
    join := JoinSds(tokens.value, sep);
  }

  lemma {:induction false} TerminatedLength(parts: seq<Bytes>, sep: Bytes)
    ensures |Terminated(parts, sep)| <= |Join(parts, sep)| + |sep|
  {
    if |parts| > 1 {
      TerminatedLength(parts[1..], sep);
    } else if |parts| == 1 {
      assert Terminated(parts[1..], sep) == [];
    }
  }
}
