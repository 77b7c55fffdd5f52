/** Printing integers in decimal: the two-digits-at-a-time printer of the utilities and the
    reversing printer of the string library, both against one definition of the text. */
module Decimal {

  /** A byte of memory. */
  type Byte = x: int | 0 <= x < 256

  const ZERO: Byte := 48
  const MINUS: Byte := 45
  const TWO_64 := 0x1_0000_0000_0000_0000
  const TWO_63 := 0x8000_0000_0000_0000

  /** The decimal text of a natural number. */
  function Digits(v: nat): (text: seq<Byte>)
    ensures text != []
  {
    (if v < 10 then [] else Digits(v / 10)) + [ZERO + v % 10]
  }

  /** The decimal text of an integer. */
  function Text(value: int): seq<Byte> {
    if value < 0 then [MINUS] + Digits(-value) else Digits(value)
  }

  /** Reads a text back. */
  function ParseNat(text: seq<Byte>): int {
    if text == [] then 0
    else 10 * ParseNat(text[..|text| - 1]) + (text[|text| - 1] - ZERO)
  }

  function ParseInt(text: seq<Byte>): int {
    if text != [] && text[0] == MINUS then -ParseNat(text[1..]) else ParseNat(text)
  }

  lemma {:induction false} ParseDigits(v: nat)
    ensures ParseNat(Digits(v)) == v
    ensures forall k | 0 <= k < |Digits(v)| :: ZERO <= Digits(v)[k] < ZERO + 10
    ensures v > 0 ==> Digits(v)[0] > ZERO
  {
    if v < 10 {
      assert Digits(v) == [ZERO + v];
      assert ParseNat([]) == 0;
    } else {
      ParseDigits(v / 10);
      assert Digits(v)[..|Digits(v)| - 1] == Digits(v / 10);
    }
  }

  lemma ParseSign(digits: seq<Byte>)
    requires digits != [] && digits[0] != MINUS
    ensures ParseInt([MINUS] + digits) == -ParseNat(digits)
    ensures ParseInt(digits) == ParseNat(digits)
  {
    assert ([MINUS] + digits)[1..] == digits;
  }

  /** The text of every integer reads back as that integer. */
  lemma ParseText(value: int)
    ensures ParseInt(Text(value)) == value
  {
    var v := if value < 0 then -value else value;
    ParseDigits(v);
    var digits := Digits(v);
    assert digits[0] >= ZERO;
    ParseSign(digits);
  }

  /** The text character by character. */
  lemma TextCharacters(v: nat)
    ensures v > 0 ==> Text(0 - v) == ['-' as int] + Text(v)
    ensures v < 10 ==> Text(v) == ["0123456789"[v] as int]
    ensures v >= 10 ==> Text(v) == Text(v / 10) + ["0123456789"[v % 10] as int]
  {
    assert "0123456789"[v % 10] as int == 48 + v % 10;
  }

  // ---- counting digits ----

  /** The number of decimal digits, by comparisons and twelve digits at a time. */
  function Digits10(v: nat): nat {
    if v < 10 then 1
    else if v < 100 then 2
    else if v < 1000 then 3
    else if v < 1000000000000 then
      if v < 100000000 then
        if v < 1000000 then
          if v < 10000 then 4 else 5 + (if v >= 100000 then 1 else 0)
        else 7 + (if v >= 10000000 then 1 else 0)
      else if v < 10000000000 then 9 + (if v >= 1000000000 then 1 else 0)
      else 11 + (if v >= 100000000000 then 1 else 0)
    else 12 + Digits10(v / 1000000000000)
  }

  function Pow10(k: nat): nat {
    if k == 0 then 1 else 10 * Pow10(k - 1)
  }

  lemma {:induction false} DigitsLength(v: nat, k: nat)
    requires k > 0 && v < Pow10(k) && (k == 1 || v >= Pow10(k - 1))
    ensures |Digits(v)| == k
  {
    if k > 1 {
      assert Pow10(k) == 10 * Pow10(k - 1) && Pow10(k - 1) == 10 * Pow10(k - 2);
      DigitsLength(v / 10, k - 1);
    }
  }

  lemma DigitsShift(v: nat)
    requires v >= 10
    ensures |Digits(v)| == 1 + |Digits(v / 10)|
  {
  }

  lemma DigitsShift2(v: nat)
    requires v >= 100
    ensures |Digits(v)| == 2 + |Digits(v / 100)|
  {
    DigitsShift(v);
    DigitsShift(v / 10);
    assert v / 10 / 10 == v / 100;
  }

  lemma DigitsShift3(v: nat)
    requires v >= 1000
    ensures |Digits(v)| == 3 + |Digits(v / 1000)|
  {
    DigitsShift(v);
    DigitsShift(v / 10);
    DigitsShift(v / 10 / 10);
    assert v / 10 / 10 / 10 == v / 1000;
  }

  lemma DigitsShift12(v: nat)
    requires v >= 1000000000000
    ensures |Digits(v)| == 12 + |Digits(v / 1000000000000)|
  {
    DigitsShift3(v);
    DigitsShift3(v / 1000);
    assert v / 1000 / 1000 == v / 1000000;
    DigitsShift3(v / 1000000);
    assert v / 1000000 / 1000 == v / 1000000000;
    DigitsShift3(v / 1000000000);
    assert v / 1000000000 / 1000 == v / 1000000000000;
  }

  lemma Powers()
    ensures Pow10(1) == 10 && Pow10(2) == 100 && Pow10(3) == 1000 && Pow10(4) == 10000
    ensures Pow10(5) == 100000 && Pow10(6) == 1000000 && Pow10(7) == 10000000 && Pow10(8) == 100000000
    ensures Pow10(9) == 1000000000 && Pow10(10) == 10000000000 && Pow10(11) == 100000000000
    ensures Pow10(12) == 1000000000000
  {
    assert Pow10(3) == 1000;
    assert Pow10(6) == 1000000;
    assert Pow10(9) == 1000000000;
  }

  /** The digit count is exact for every natural number. */
  lemma {:induction false} Digits10Exact(v: nat)
    ensures Digits10(v) == |Digits(v)|
  {
    if v < 1000000000000 {
      Powers();
      DigitsLength(v, Digits10(v));
    } else {
      DigitsShift12(v);
      Digits10Exact(v / 1000000000000);
    }
  }

  lemma {:induction false} DigitsMonotone(v: nat, w: nat)
    requires v <= w
    ensures |Digits(v)| <= |Digits(w)|
  {
    if v >= 10 {
      DigitsMonotone(v / 10, w / 10);
    }
  }

  /** A 64-bit number has at most twenty digits, so its text fits the 21-byte buffers. */
  lemma TextFits(value: int)
    requires -TWO_63 <= value < TWO_64
    ensures |Text(value)| <= 20
  {
    var v := if value < 0 then -value else value;
    if value < 0 {
      assert Digits10(TWO_63) == 19;
      Digits10Exact(TWO_63);
      DigitsMonotone(v, TWO_63);
    } else {
      assert Digits10(TWO_64) == 20;
      Digits10Exact(TWO_64);
      DigitsMonotone(v, TWO_64);
    }
  }

  // ---- two digits at a time ----

  /** Byte `i` of the two-digit table "000102...99". */
  function PairByte(i: nat): Byte
    requires i < 200
  {
    ZERO + if i % 2 == 0 then i / 20 else i / 2 % 10
  }

  lemma DigitsPair(v: nat)
    requires v >= 100
    ensures Digits(v) == Digits(v / 100) + [PairByte(v % 100 * 2), PairByte(v % 100 * 2 + 1)]
  {
    assert v / 10 / 10 == v / 100;
    assert v / 10 % 10 == v % 100 / 10;
    assert v % 10 == v % 100 % 10;
    assert Digits(v) == Digits(v / 10) + [ZERO + v % 10];
    assert Digits(v / 10) == Digits(v / 100) + [ZERO + v / 10 % 10];
  }

  lemma DigitsLastPair(v: nat)
    requires 10 <= v < 100
    ensures Digits(v) == [PairByte(v * 2), PairByte(v * 2 + 1)]
  {
    assert Digits(v / 10) == [ZERO + v / 10];
  }

  /** The digits of `v` above its last two. */
  function Above(v: nat): seq<Byte> {
    if v >= 100 then Digits(v / 100) else []
  }

  /** Writes the last two digits of `v` from the table, ending at index `next`. */
  method PutPair(dst: array<Byte>, next: nat, v: nat, ghost end: nat)
    requires 10 <= v && 1 <= next < end <= dst.Length
    modifies dst
    ensures Above(v) + dst[next - 1..end] == Digits(v) + old(dst[next + 1..end])
    ensures forall k | 0 <= k < dst.Length && k != next && k != next - 1 :: dst[k] == old(dst[k])
  {
    ghost var tail := dst[next + 1..end];
    var i := v % 100 * 2;
    dst[next] := PairByte(i + 1);
    dst[next - 1] := PairByte(i);
    ghost var pair := [PairByte(i), PairByte(i + 1)];
    assert dst[next + 1..end] == tail;
    assert dst[next - 1..end] == [dst[next - 1], dst[next]] + dst[next + 1..end] == pair + tail;
    LastPair(v);
    Regroup(Above(v), pair, tail);
  }

  lemma LastPair(v: nat)
    requires v >= 10
    ensures Digits(v) == Above(v) + [PairByte(v % 100 * 2), PairByte(v % 100 * 2 + 1)]
  {
    if v >= 100 {
      DigitsPair(v);
    } else {
      assert v % 100 == v;
      DigitsLastPair(v);
    }
  }

  lemma Regroup(a: seq<Byte>, b: seq<Byte>, c: seq<Byte>)
    ensures (a + b) + c == a + (b + c)
  {
  }

  /** The last one or two digits. */
  method PutLast(dst: array<Byte>, next: nat, v: nat, ghost end: nat)
    requires v < 100 && |Digits(v)| <= next + 1 <= end <= dst.Length
    modifies dst
    ensures dst[next + 1 - |Digits(v)|..end] == Digits(v) + old(dst[next + 1..end])
    ensures forall k | 0 <= k < dst.Length && !(next + 1 - |Digits(v)| <= k <= next) :: dst[k] == old(dst[k])
  {
    if v < 10 {
      ghost var tail := dst[next + 1..end];
      dst[next] := ZERO + v;
      assert dst[next..end] == Digits(v) + tail;
    } else {
      DigitsShift(v);
      PutPair(dst, next, v, end);
      assert Above(v) + dst[next - 1..end] == dst[next - 1..end];
    }
  }

  /** The pair loop: all digits but the last one or two, from the right. */
  method PutPairs(dst: array<Byte>, end: nat, value: nat) returns (rest: nat, next: int)
    requires |Digits(value)| <= end <= dst.Length
    modifies dst
    ensures rest < 100 && end - |Digits(value)| <= next < end
    ensures Digits(rest) + dst[next + 1..end] == Digits(value)
    ensures forall k | 0 <= k < dst.Length && !(next < k < end) :: dst[k] == old(dst[k])
  {
    ghost var text := Digits(value);
    rest, next := value, end - 1;
    while rest >= 100
      invariant end - |text| <= next < end
      invariant Digits(rest) + dst[next + 1..end] == text
      invariant forall k | 0 <= k < dst.Length && !(next < k < end) :: dst[k] == old(dst[k])
    {
      ghost var done := dst[next + 1..end];
      RoomForPair(rest, done, text);
      PutPair(dst, next, rest, end);
      PairDone(rest, done, dst[next - 1..end], text);
      rest := rest / 100;
      next := next - 2;
    }
  }

  /** The pair loop and the last one or two digits: the text of `value` right before
      index `end`. */
  method FillDigits(dst: array<Byte>, end: nat, value: nat)
    requires |Digits(value)| <= end <= dst.Length
    modifies dst
    ensures dst[end - |Digits(value)|..end] == Digits(value)
    ensures forall k | 0 <= k < dst.Length && !(end - |Digits(value)| <= k < end) :: dst[k] == old(dst[k])
  {
    var rest, next := PutPairs(dst, end, value);
    assert |Digits(rest)| == |Digits(value)| - |dst[next + 1..end]|;
    PutLast(dst, next, rest, end);
  }

  lemma RoomForPair(rest: nat, done: seq<Byte>, text: seq<Byte>)
    requires rest >= 100 && Digits(rest) + done == text
    ensures |done| + 3 <= |text|
  {
    DigitsShift2(rest);
  }

  lemma PairDone(rest: nat, done: seq<Byte>, done': seq<Byte>, text: seq<Byte>)
    requires rest >= 100 && Digits(rest) + done == text && Above(rest) + done' == Digits(rest) + done
    ensures Digits(rest / 100) + done' == text
  {
  }

  /** Fills the buffer from the right; returns 0 and leaves it alone if the text and its
      terminator do not fit. */
  method Ll2String(dst: array<Byte>, svalue: int) returns (length: nat)
    requires -TWO_63 <= svalue < TWO_63
    modifies dst
    ensures |Text(svalue)| >= dst.Length ==> length == 0 && dst[..] == old(dst[..])
    ensures |Text(svalue)| < dst.Length ==>
              && length == |Text(svalue)|
              && dst[..length] == Text(svalue)
              && dst[length] == 0
              && dst[length + 1..] == old(dst[length + 1..])
  {
    var negative, value := 0, svalue;
    if svalue < 0 {
      negative, value := 1, -svalue;
    }
    Digits10Exact(value);
    length := Digits10(value) + negative;
    if length >= dst.Length {
      return 0;
    }
    dst[length] := 0;
    FillDigits(dst, length, value);
    if negative == 1 {
      dst[0] := MINUS;
      assert dst[..length] == [MINUS] + dst[1..length];
    }
  }

  // ---- the reversing printers ----

  function Reversed(s: seq<Byte>): (r: seq<Byte>)
    ensures |r| == |s| && forall k | 0 <= k < |s| :: r[k] == s[|s| - 1 - k]
  {
    seq(|s|, k requires 0 <= k < |s| => s[|s| - 1 - k])
  }

  lemma ReversedAppend(s: seq<Byte>, t: seq<Byte>)
    ensures Reversed(s + t) == Reversed(t) + Reversed(s)
  {
  }

  /** The digits of `v` from the last to the first. */
  method PutReversed(buf: array<Byte>, v: nat) returns (p: nat)
    requires |Digits(v)| <= buf.Length
    modifies buf
    ensures p == |Digits(v)| && buf[..p] == Reversed(Digits(v))
    ensures forall k | p <= k < buf.Length :: buf[k] == old(buf[k])
  {
    var rest := v;
    p := 0;
    while true
      invariant p + |Digits(rest)| == |Digits(v)| <= buf.Length
      invariant buf[..p] + Reversed(Digits(rest)) == Reversed(Digits(v))
      invariant forall k | p <= k < buf.Length :: buf[k] == old(buf[k])
      decreases rest
    {
      ghost var front := buf[..p];
      ReversedAppend(if rest < 10 then [] else Digits(rest / 10), [ZERO + rest % 10]);
      assert Reversed([ZERO + rest % 10]) == [ZERO + rest % 10];
      buf[p] := ZERO + rest % 10;
      p := p + 1;
      assert buf[..p] == front + [ZERO + rest % 10];
      Regroup(front, [ZERO + rest % 10], if rest < 10 then [] else Reversed(Digits(rest / 10)));
      rest := rest / 10;
      if rest == 0 {
        break;
      }
    }
  }

  method ReverseInPlace(buf: array<Byte>, l: nat)
    requires l <= buf.Length
    modifies buf
    ensures buf[..l] == Reversed(old(buf[..l]))
    ensures forall k | l <= k < buf.Length :: buf[k] == old(buf[k])
  {
    var s, p := 0, l - 1;
    while s < p
      invariant 0 <= s <= l && p == l - 1 - s && s <= p + 2
      invariant forall k | 0 <= k < s :: buf[k] == old(buf[l - 1 - k]) && buf[l - 1 - k] == old(buf[k])
      invariant forall k | s <= k <= p :: buf[k] == old(buf[k])
      invariant forall k | l <= k < buf.Length :: buf[k] == old(buf[k])
    {
      var aux := buf[s];
      buf[s] := buf[p];
      buf[p] := aux;
      s, p := s + 1, p - 1;
    }
  }

  /** The signed printer of the string library; the text of every 64-bit value and its
      terminator fit the 21-byte buffers it is given. */
  method SdsLl2Str(buf: array<Byte>, value: int) returns (l: nat)
    requires -TWO_63 <= value < TWO_63 && buf.Length >= 21
    modifies buf
    ensures l == |Text(value)| <= 20 && buf[..l] == Text(value) && buf[l] == 0
  {
    TextFits(value);
    var v := if value < 0 then -value else value;
    l := PutReversed(buf, v);
    if value < 0 {
      buf[l] := MINUS;
      ReversedAppend([MINUS], Digits(v));
      l := l + 1;
      assert buf[..l] == Reversed(Text(value));
    }
    buf[l] := 0;
    assert buf[..l] == Reversed(Text(value));
    ReverseInPlace(buf, l);
    assert Reversed(Reversed(Text(value))) == Text(value);
  }

  method SdsUll2Str(buf: array<Byte>, v: nat) returns (l: nat)
    requires v < TWO_64 && buf.Length >= 21
    modifies buf
    ensures l == |Text(v)| <= 20 && buf[..l] == Text(v) && buf[l] == 0
  {
    TextFits(v);
    l := PutReversed(buf, v);
    buf[l] := 0;
    assert buf[..l] == Reversed(Text(v));
    ReverseInPlace(buf, l);
    assert Reversed(Reversed(Text(v))) == Text(v);
  }

  /** The two printers agree: given room, they produce the same bytes and length, and the
      bytes read back as the value. */
  method PrintersAgree(value: int, dst: array<Byte>, buf: array<Byte>) returns (n: nat, l: nat)
    requires -TWO_63 <= value < TWO_63 && dst.Length >= 21 && buf.Length >= 21 && dst != buf
    modifies dst, buf
    ensures n == l <= 20 && dst[..n] == buf[..l] && ParseInt(dst[..n]) == value
  {
    TextFits(value);
    n := Ll2String(dst, value);
    l := SdsLl2Str(buf, value);
    ParseText(value);
  }
}
