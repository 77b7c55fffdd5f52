/** Which texts the validator accepts, position by position: what may stand where is decided
    by the backslashes right before it. */
module RegexValidity {
  import opened RegexSyntax
  import opened RegexParse

  /** How many backslashes stand right before position `k`. */
  function Backslashes(s: string, k: nat): (n: nat)
    requires k <= |s|
    ensures n <= k
  {
    if k == 0 || s[k - 1] != '\\' then 0 else 1 + Backslashes(s, k - 1)
  }

  /** An odd number of backslashes right before it escapes a character. */
  predicate Escaped(s: string, k: nat)
    requires k <= |s|
  {
    Backslashes(s, k) % 2 == 1
  }

  /** A ?, * or + may follow the character: it is escaped, or it is no anchor and no repeat
      itself. */
  predicate CanRepeat(s: string, k: nat)
    requires k < |s|
  {
    Escaped(s, k) || s[k] !in "^$?*+"
  }

  /** What the syntax allows at position `k`. */
  predicate AllowedAt(s: string, k: nat)
    requires k < |s|
  {
    if Escaped(s, k) then
      s[k] in "^-!\"#$%&'()*+,./:;<=>?@[\\]_`{|}~" || s[k] in "dDfnrsStvwW"
    else
      && (s[k] == '\\' ==> k + 1 < |s|)
      && (s[k] == '^' ==> k == 0)
      && (s[k] == '$' ==> k + 1 == |s|)
      && s[k] !in "()[]{}|"
      && (s[k] in "?*+" ==> k > 0 && CanRepeat(s, k - 1))
  }

  lemma {:induction false} BackslashesShift(s: string, n: nat, j: nat)
    requires n + j <= |s| && Backslashes(s, n) % 2 == 0
    ensures Escaped(s, n + j) <==> Escaped(s[n..], j)
    decreases j
  {
    if j > 0 {
      assert s[n..][j - 1] == s[n + j - 1];
      BackslashesShift(s, n, j - 1);
    }
  }

  /** From a position that is not escaped on, everything is allowed. */
  predicate AllowedFrom(s: string, n: nat) {
    forall k | n <= k < |s| :: AllowedAt(s, k)
  }

  lemma {:induction false} ValidFrom(s: string, n: nat)
    requires IsCString(s) && n <= |s| && !Escaped(s, n)
    ensures ValidRest(s[n..], n == 0, n > 0 && CanRepeat(s, n - 1)) <==> AllowedFrom(s, n)
    decreases |s| - n
  {
    if n < |s| {
      assert Backslashes(s, n + 1) == if s[n] == '\\' then 1 + Backslashes(s, n) else 0;
      if s[n] == '\\' {
        if n + 1 < |s| {
          EscapedTurn(s, n);
          ValidFrom(s, n + 2);
        } else {
          assert !AllowedAt(s, n);
        }
      } else {
        PlainTurn(s, n);
        ValidFrom(s, n + 1);
      }
    }
  }

  lemma EscapedTurn(s: string, n: nat)
    requires IsCString(s) && n + 1 < |s| && !Escaped(s, n) && s[n] == '\\'
    ensures !Escaped(s, n + 2) && CanRepeat(s, n + 1)
    ensures AllowedFrom(s, n) <==> AllowedAt(s, n + 1) && AllowedFrom(s, n + 2)
    ensures ValidRest(s[n..], n == 0, n > 0 && CanRepeat(s, n - 1)) <==>
            AllowedAt(s, n + 1) && ValidRest(s[n + 2..], false, true)
  {
    assert Backslashes(s, n + 1) == 1 + Backslashes(s, n);
    assert Escaped(s, n + 1);
    OpensEscape(s, n);
    Escapes(s, n + 1);
    assert s[n..][2..] == s[n + 2..];
  }

  lemma OpensEscape(s: string, n: nat)
    requires n + 1 < |s| && !Escaped(s, n) && s[n] == '\\'
    ensures AllowedAt(s, n)
  {
  }

  /** The escapes, listed. */
  lemma Escapes(s: string, k: nat)
    requires IsCString(s) && k < |s| && Escaped(s, k)
    ensures AllowedAt(s, k) <==> IsValidEscape(s[k])
  {
  }

  lemma PlainTurn(s: string, n: nat)
    requires IsCString(s) && n < |s| && !Escaped(s, n) && s[n] != '\\'
    ensures !Escaped(s, n + 1)
    ensures AllowedFrom(s, n) <==> AllowedAt(s, n) && AllowedFrom(s, n + 1)
    ensures ValidRest(s[n..], n == 0, n > 0 && CanRepeat(s, n - 1)) <==>
            AllowedAt(s, n) && ValidRest(s[n + 1..], false, CanRepeat(s, n))
  {
    assert s[n..][1..] == s[n + 1..];
  }

  /** The validator accepts a text exactly when every character stands where it may. */
  lemma ValidExactlyWhen(s: string)
    requires IsCString(s)
    ensures IsValid(s) <==> forall k | 0 <= k < |s| :: AllowedAt(s, k)
  {
    assert s[0..] == s;
    ValidFrom(s, 0);
  }
}
