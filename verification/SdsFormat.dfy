/** The small formatter of the string library. */
module SdsFormat {
  import opened Decimal
  import opened SdsString
  import opened SdsSplit

  const PERCENT: Byte := 37

  /** One variable argument, by the type the directives read it with. */
  datatype Arg =
    | CString(bytes: Bytes)
    | SdsValue(bytes: Bytes)
    | Int(signed: int)
    | LongLong(signed: int)
    | UInt(unsigned: nat)
    | ULongLong(unsigned: nat)

  /** The value is in the range of its C type; a C string holds no NUL. */
  predicate InRange(a: Arg) {
    match a
    case CString(b) => 0 !in b
    case SdsValue(_) => true
    case Int(v) => -0x8000_0000 <= v < 0x8000_0000
    case LongLong(v) => -TWO_63 <= v < TWO_63
    case UInt(v) => v < TWO_32
    case ULongLong(v) => v < TWO_64
  }

  predicate IsDirective(c: Byte) {
    c == 115 || c == 83 || c == 105 || c == 73 || c == 117 || c == 85
  }

  /** The argument has the type the directive reads: %s %S %i %I %u %U. */
  predicate Fits(c: Byte, a: Arg) {
    match a
    case CString(_) => c == 115
    case SdsValue(_) => c == 83
    case Int(_) => c == 105
    case LongLong(_) => c == 73
    case UInt(_) => c == 117
    case ULongLong(_) => c == 85
  }

  function Show(a: Arg): Bytes {
    match a
    case CString(b) => b
    case SdsValue(b) => b
    case Int(v) => Text(v)
    case LongLong(v) => Text(v)
    case UInt(v) => Text(v)
    case ULongLong(v) => Text(v)
  }

  /** How many bytes of the format the next directive or plain byte takes. */
  function Width(fmt: Bytes): (n: nat)
    requires fmt != []
  {
    if fmt[0] == PERCENT then 2 else 1
  }

  /** How many arguments it takes. */
  function Takes(fmt: Bytes): nat
    requires fmt != []
  {
    if fmt[0] == PERCENT && |fmt| >= 2 && IsDirective(fmt[1]) then 1 else 0
  }

  /** The format does not begin with a lone % at its end, and a directive at its beginning
      finds an argument of its type. */
  predicate Begins(fmt: Bytes, args: seq<Arg>)
    requires fmt != []
  {
    && |fmt| >= Width(fmt)
    && (Takes(fmt) == 1 ==> args != [] && Fits(fmt[1], args[0]) && InRange(args[0]))
  }

  /** What it stands for; %% and any other %c stand for the byte after the %. */
  function Head(fmt: Bytes, args: seq<Arg>): Bytes
    requires fmt != [] && Begins(fmt, args)
  {
    if Takes(fmt) == 1 then Show(args[0]) else [fmt[Width(fmt) - 1]]
  }

  /** The format does not end in a lone % and its directives match the arguments. */
  predicate Matches(fmt: Bytes, args: seq<Arg>) {
    fmt == [] || (Begins(fmt, args) && Matches(fmt[Width(fmt)..], args[Takes(fmt)..]))
  }

  /** The concatenation of the rendered directives and plain bytes. */
  function Rendered(fmt: Bytes, args: seq<Arg>): Bytes
    requires Matches(fmt, args)
  {
    if fmt == [] then []
    else Head(fmt, args) + Rendered(fmt[Width(fmt)..], args[Takes(fmt)..])
  }

  /** How many arguments a format reads. */
  function Consumed(fmt: Bytes): nat {
    if fmt == [] || |fmt| < Width(fmt) then 0
    else Takes(fmt) + Consumed(fmt[Width(fmt)..])
  }

  /** Copies bytes behind the end without terminating the string. */
  method CatRaw(s: Sds, t: Bytes)
    requires s.Shape() && s.Kind() != SDS_TYPE_5 && Allocatable(s.Len() + |t|)
    modifies s, s.buf
    ensures s.Shape() && s.Kind() != SDS_TYPE_5 && (s.buf == old(s.buf) || fresh(s.buf))
    ensures s.Contents() == old(s.Contents()) + t
  {
    var i := s.Len();
    if s.Avail() < |t| {
      s.MakeRoomFor(|t|);
    }
    assert s.buf[..i] == s.buf[..i + 1][..i] == old(s.Contents());
    CopyInto(s.buf, i, t);
    s.IncLen(|t|);
  }

  /** Stores one byte behind the end without looking for room: the caller has made it. */
  method PutByte(s: Sds, b: Byte)
    requires s.Shape() && s.Kind() != SDS_TYPE_5 && s.Avail() >= 1
    modifies s, s.buf
    ensures s.Shape() && s.Kind() != SDS_TYPE_5 && s.buf == old(s.buf)
    ensures s.Contents() == old(s.Contents()) + [b]
  {
    var i := s.Len();
    s.buf[i] := b;
    s.IncLen(1);
    assert s.buf[..i + 1] == s.buf[..i] + [b];
  }

  /** Renders one directive's argument. */
  method CatArg(s: Sds, a: Arg)
    requires s.Shape() && s.Kind() != SDS_TYPE_5 && Allocatable(s.Len() + |Show(a)|) && InRange(a)
    modifies s, s.buf
    ensures s.Shape() && s.Kind() != SDS_TYPE_5 && (s.buf == old(s.buf) || fresh(s.buf))
    ensures s.Contents() == old(s.Contents()) + Show(a)
  {
    match a {
      case CString(b) => CatRaw(s, b);
      case SdsValue(b) => CatRaw(s, b);
      case Int(v) =>
        var buf := new Byte[21];
        var l := SdsLl2Str(buf, v);
        CatRaw(s, buf[..l]);
      case LongLong(v) =>
        var buf := new Byte[21];
        var l := SdsLl2Str(buf, v);
        CatRaw(s, buf[..l]);
      case UInt(v) =>
        var buf := new Byte[21];
        var l := SdsUll2Str(buf, v);
        CatRaw(s, buf[..l]);
      case ULongLong(v) =>
        var buf := new Byte[21];
        var l := SdsUll2Str(buf, v);
        CatRaw(s, buf[..l]);
    }
  }

  /** At position `f` of the format: what has been appended and what the rest renders as
      make up the whole. */
  ghost predicate Rendering(done: Bytes, fmt: Bytes, f: nat, args: seq<Arg>, a: nat, whole: Bytes) {
    && f <= |fmt| && a <= |args|
    && Matches(fmt[f..], args[a..])
    && done + Rendered(fmt[f..], args[a..]) == whole
  }

  lemma RenderingBegins(done: Bytes, fmt: Bytes, args: seq<Arg>)
    requires Matches(fmt, args)
    ensures Rendering(done, fmt, 0, args, 0, done + Rendered(fmt, args))
  {
    assert fmt[0..] == fmt && args[0..] == args;
  }

  lemma RenderingEnds(done: Bytes, fmt: Bytes, args: seq<Arg>, a: nat, whole: Bytes)
    requires Rendering(done, fmt, |fmt|, args, a, whole)
    ensures done == whole
  {
    assert fmt[|fmt|..] == [] && done + [] == done;
  }

  lemma StepRenders(done: Bytes, fmt: Bytes, f: nat, args: seq<Arg>, a: nat, whole: Bytes)
    requires f < |fmt| && Rendering(done, fmt, f, args, a, whole)
    ensures var rest := fmt[f..];
            && Begins(rest, args[a..])
            && |done| + |Head(rest, args[a..])| <= |whole|
            && Rendering(done + Head(rest, args[a..]), fmt, f + Width(rest), args, a + Takes(rest), whole)
  {
    var rest := fmt[f..];
    var f', a' := f + Width(rest), a + Takes(rest);
    assert rest[Width(rest)..] == fmt[f'..];
    assert args[a..][Takes(rest)..] == args[a'..];
    Regroup(done, Head(rest, args[a..]), Rendered(fmt[f'..], args[a'..]));
  }

  /** The room for one byte that is made at the top of the loop. */
  method RoomForByte(s: Sds)
    requires s.Shape() && Allocatable(s.Len() + 1)
    modifies s
    ensures s.Shape() && s.Kind() != SDS_TYPE_5 && s.Avail() >= 1 && (s.buf == old(s.buf) || fresh(s.buf))
    ensures s.Contents() == old(s.Contents())
  {
    if s.Avail() == 0 {
      ghost var before := s.Contents();
      s.MakeRoomFor(1);
      assert s.Contents() == s.buf[..s.Len() + 1][..s.Len()] == before;
    }
  }

  /** What a turn of the loop stores at a byte of the format, and how far it moves. Plain
      bytes and unknown directives rely on the room made at the top of the loop. */
  method CatStep(s: Sds, fmt: Bytes, f: nat, args: seq<Arg>, a: nat) returns (f': nat, a': nat)
    requires s.Shape() && s.Kind() != SDS_TYPE_5 && s.Avail() >= 1
    requires f < |fmt| && a <= |args| && Begins(fmt[f..], args[a..])
    requires Allocatable(s.Len() + |Head(fmt[f..], args[a..])|)
    modifies s, s.buf
    ensures s.Shape() && (s.buf == old(s.buf) || fresh(s.buf))
    ensures f' == f + Width(fmt[f..]) && a' == a + Takes(fmt[f..])
    ensures s.Contents() == old(s.Contents()) + Head(fmt[f..], args[a..])
  {
    a' := a;
    if fmt[f] == PERCENT {
      var next := fmt[f + 1];
      f' := f + 2;
      if IsDirective(next) {
        CatArg(s, args[a]);
        a' := a + 1;
      } else {
        PutByte(s, next);
      }
    } else {
      f' := f + 1;
      PutByte(s, fmt[f]);
    }
  }

  /** One turn of the loop. */
  method CatTurn(s: Sds, fmt: Bytes, f: nat, args: seq<Arg>, a: nat, ghost done: Bytes, ghost whole: Bytes)
    returns (f': nat, a': nat)
    requires s.Shape() && done == s.Contents() && f < |fmt| && Rendering(done, fmt, f, args, a, whole)
    requires Allocatable(|whole| + 1)
    modifies s, s.buf
    ensures s.Shape() && (s.buf == old(s.buf) || fresh(s.buf))
    ensures f < f' && Rendering(s.Contents(), fmt, f', args, a', whole)
  {
    StepRenders(done, fmt, f, args, a, whole);
    RoomForByte(s);
    assert s.Len() == |done|;
    f', a' := CatStep(s, fmt, f, args, a);
  }

  method Terminate(s: Sds)
    requires s.Shape()
    modifies s.buf
    ensures s.Valid() && s.Contents() == old(s.Contents())
  {
    s.buf[s.Len()] := 0;
  }

  /** Appends the rendered format, a C string. The write position of the source is the stored
      length throughout, and stays within the capacity. */
  method CatVFmt(s: Sds, fmt: Bytes, args: seq<Arg>)
    requires 0 !in fmt && Matches(fmt, args)
    requires s.Valid() && Allocatable(s.Len() + |Rendered(fmt, args)| + 1)
    modifies s, s.buf
    ensures s.Valid() && (s.buf == old(s.buf) || fresh(s.buf))
    ensures s.Contents() == old(s.Contents()) + Rendered(fmt, args)
  {
    var f, a := 0, 0;
    ghost var whole := s.Contents() + Rendered(fmt, args);
    RenderingBegins(s.Contents(), fmt, args);
    while f < |fmt|
      invariant s.Shape() && (s.buf == old(s.buf) || fresh(s.buf))
      invariant 0 <= f <= |fmt| && 0 <= a && Rendering(s.Contents(), fmt, f, args, a, whole)
      decreases |fmt| - f
    {
      f, a := CatTurn(s, fmt, f, args, a, s.Contents(), whole);
    }
    RenderingEnds(s.Contents(), fmt, args, a, whole);
    Terminate(s);
  }

  lemma {:induction false} PlainFormat(fmt: Bytes, args: seq<Arg>)
    requires PERCENT !in fmt
    ensures Matches(fmt, args) && Rendered(fmt, args) == fmt
  {
    if fmt != [] {
      PlainFormat(fmt[1..], args);
      assert args[0..] == args;
      assert [fmt[0]] + fmt[1..] == fmt;
    }
  }

  lemma BeginsAppend(fmt: Bytes, args: seq<Arg>, fmt': Bytes, args': seq<Arg>)
    requires fmt != [] && Begins(fmt, args)
    ensures Width(fmt + fmt') == Width(fmt) && Takes(fmt + fmt') == Takes(fmt) && Begins(fmt + fmt', args + args')
    ensures Head(fmt + fmt', args + args') == Head(fmt, args)
    ensures Takes(fmt) <= |args| ==> (args + args')[Takes(fmt)..] == args[Takes(fmt)..] + args'
    ensures (fmt + fmt')[Width(fmt)..] == fmt[Width(fmt)..] + fmt'
  {
  }

  /** Formats compose: a format followed by another renders as the two renderings, one
      after the other. */
  lemma {:induction false} FormatsCompose(fmt: Bytes, args: seq<Arg>, fmt': Bytes, args': seq<Arg>)
    requires Matches(fmt, args) && Matches(fmt', args') && Consumed(fmt) == |args|
    ensures Matches(fmt + fmt', args + args')
    ensures Rendered(fmt + fmt', args + args') == Rendered(fmt, args) + Rendered(fmt', args')
    decreases |fmt|
  {
    if fmt == [] {
      assert fmt + fmt' == fmt' && args + args' == args';
    } else {
      var n, m := Width(fmt), Takes(fmt);
      BeginsAppend(fmt, args, fmt', args');
      FormatsCompose(fmt[n..], args[m..], fmt', args');
      Regroup(Head(fmt, args), Rendered(fmt[n..], args[m..]), Rendered(fmt', args'));
    }
  }
}
