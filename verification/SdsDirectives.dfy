/** What each directive of the formatter stands for, and with that every rendering. */
module SdsDirectives {
  import opened Decimal
  import opened SdsSplit
  import opened SdsFormat

  /** "%s" and "%S" render the bytes they are given. */
  lemma StringDirectives(b: Bytes)
    ensures 0 !in b ==> Matches([37, 115], [CString(b)]) && Rendered([37, 115], [CString(b)]) == b
    ensures Matches([37, 83], [SdsValue(b)]) && Rendered([37, 83], [SdsValue(b)]) == b
  {
    DirectiveAlone(115, CString(b), b);
    DirectiveAlone(83, SdsValue(b), b);
  }

  lemma DirectiveAlone(c: Byte, a: Arg, text: Bytes)
    requires IsDirective(c) && Show(a) == text
    ensures Fits(c, a) && InRange(a) ==> Matches([37, c], [a]) && Rendered([37, c], [a]) == text
  {
    var fmt, args := [37, c], [a];
    assert fmt[2..] == [] && args[1..] == [];
    assert text + [] == text;
  }

  /** The text is the decimal text of the value: it reads back as the value and has as many
      bytes as it has digits and sign. */
  predicate IsTextOf(text: Bytes, v: int) {
    text == Text(v) && ParseInt(text) == v && |text| == |Text(v)|
  }

  /** "%i" and "%I" render signed integers. */
  lemma SignedDirectives(v: int)
    ensures -0x8000_0000 <= v < 0x8000_0000 ==>
              Matches([37, 105], [Int(v)]) && IsTextOf(Rendered([37, 105], [Int(v)]), v)
    ensures -0x8000_0000_0000_0000 <= v < 0x8000_0000_0000_0000 ==>
              Matches([37, 73], [LongLong(v)]) && IsTextOf(Rendered([37, 73], [LongLong(v)]), v)
  {
    ParseText(v);
    DirectiveAlone(105, Int(v), Text(v));
    DirectiveAlone(73, LongLong(v), Text(v));
  }

  /** "%u" and "%U" render unsigned integers. */
  lemma UnsignedDirectives(v: nat)
    ensures v < 0x1_0000_0000 ==>
              Matches([37, 117], [UInt(v)]) && IsTextOf(Rendered([37, 117], [UInt(v)]), v)
    ensures v < 0x1_0000_0000_0000_0000 ==>
              Matches([37, 85], [ULongLong(v)]) && IsTextOf(Rendered([37, 85], [ULongLong(v)]), v)
  {
    ParseText(v);
    DirectiveAlone(117, UInt(v), Text(v));
    DirectiveAlone(85, ULongLong(v), Text(v));
  }

  /** "%%" renders a percent sign, and any other byte behind one renders itself. */
  lemma OtherDirectives(c: Byte)
    requires c !in {115, 83, 105, 73, 117, 85}
    ensures Matches([37, c], []) && Rendered([37, c], []) == [c]
    ensures c != 37 ==> Matches([c], []) && Rendered([c], []) == [c]
  {
    var fmt, args: seq<Arg> := [37, c], [];
    assert fmt[2..] == [] && args[0..] == args && [c][1..] == [];
    assert [c] + [] == [c];
  }

  // ---- every format ----

  /** What a format is made of. */
  datatype Piece =
    | Plain(byte: Byte)
    | Escaped(byte: Byte)
    | CText(bytes: Bytes)
    | SdsText(bytes: Bytes)
    | I32(value: int)
    | I64(value: int)
    | U32(size: nat)
    | U64(size: nat)

  predicate IsPiece(p: Piece) {
    match p
    case Plain(c) => c != 37
    case Escaped(c) => c !in {115, 83, 105, 73, 117, 85}
    case CText(b) => 0 !in b
    case SdsText(_) => true
    case I32(v) => -0x8000_0000 <= v < 0x8000_0000
    case I64(v) => -0x8000_0000_0000_0000 <= v < 0x8000_0000_0000_0000
    case U32(v) => v < 0x1_0000_0000
    case U64(v) => v < 0x1_0000_0000_0000_0000
  }

  function PieceFormat(p: Piece): Bytes {
    match p
    case Plain(c) => [c]
    case Escaped(c) => [37, c]
    case CText(_) => [37, 115]
    case SdsText(_) => [37, 83]
    case I32(_) => [37, 105]
    case I64(_) => [37, 73]
    case U32(_) => [37, 117]
    case U64(_) => [37, 85]
  }

  function PieceArgs(p: Piece): seq<Arg> {
    match p
    case Plain(_) => []
    case Escaped(_) => []
    case CText(b) => [CString(b)]
    case SdsText(b) => [SdsValue(b)]
    case I32(v) => [Int(v)]
    case I64(v) => [LongLong(v)]
    case U32(v) => [UInt(v)]
    case U64(v) => [ULongLong(v)]
  }

  function PieceText(p: Piece): Bytes {
    match p
    case Plain(c) => [c]
    case Escaped(c) => [c]
    case CText(b) => b
    case SdsText(b) => b
    case I32(v) => Text(v)
    case I64(v) => Text(v)
    case U32(v) => Text(v)
    case U64(v) => Text(v)
  }

  lemma PieceRenders(p: Piece)
    requires IsPiece(p)
    ensures Matches(PieceFormat(p), PieceArgs(p)) && Rendered(PieceFormat(p), PieceArgs(p)) == PieceText(p)
  {
    match p
    case Plain(c) =>
      assert [c][1..] == [] && [c] + [] == [c];
    case Escaped(c) => OtherDirectives(c);
    case CText(b) => StringDirectives(b);
    case SdsText(b) => StringDirectives(b);
    case I32(v) => SignedDirectives(v);
    case I64(v) => SignedDirectives(v);
    case U32(v) => UnsignedDirectives(v);
    case U64(v) => UnsignedDirectives(v);
  }

  lemma PieceConsumes(p: Piece)
    requires IsPiece(p)
    ensures Consumed(PieceFormat(p)) == |PieceArgs(p)|
  {
    var fmt := PieceFormat(p);
    assert fmt[Width(fmt)..] == [];
    assert Consumed([]) == 0;
  }

  function FormatOf(ps: seq<Piece>): Bytes {
    if ps == [] then [] else PieceFormat(ps[0]) + FormatOf(ps[1..])
  }

  function ArgsOf(ps: seq<Piece>): seq<Arg> {
    if ps == [] then [] else PieceArgs(ps[0]) + ArgsOf(ps[1..])
  }

  function TextOf(ps: seq<Piece>): Bytes {
    if ps == [] then [] else PieceText(ps[0]) + TextOf(ps[1..])
  }

  /** The rendering of a format made of pieces is the pieces' texts one after another. */
  lemma {:induction false} PiecesRender(ps: seq<Piece>)
    requires forall p <- ps :: IsPiece(p)
    ensures Matches(FormatOf(ps), ArgsOf(ps)) && Rendered(FormatOf(ps), ArgsOf(ps)) == TextOf(ps)
    decreases |ps|
  {
    if ps != [] {
      PiecesRender(ps[1..]);
      PieceRenders(ps[0]);
      PieceConsumes(ps[0]);
      FormatsCompose(PieceFormat(ps[0]), PieceArgs(ps[0]), FormatOf(ps[1..]), ArgsOf(ps[1..]));
    }
  }

  /** The first piece of a format. */
  function FirstPiece(fmt: Bytes, args: seq<Arg>): Piece
    requires fmt != [] && Begins(fmt, args)
  {
    if fmt[0] != 37 then Plain(fmt[0])
    else if Takes(fmt) == 0 then Escaped(fmt[1])
    else
      match args[0]
      case CString(b) => CText(b)
      case SdsValue(b) => SdsText(b)
      case Int(v) => I32(v)
      case LongLong(v) => I64(v)
      case UInt(v) => U32(v)
      case ULongLong(v) => U64(v)
  }

  lemma FirstPieceBegins(fmt: Bytes, args: seq<Arg>)
    requires fmt != [] && Begins(fmt, args)
    ensures var p := FirstPiece(fmt, args);
            && IsPiece(p)
            && fmt == PieceFormat(p) + fmt[Width(fmt)..]
            && Takes(fmt) <= |args|
            && args == PieceArgs(p) + args[Takes(fmt)..]
  {
  }

  /** Every format the formatter accepts is made of pieces, so the texts of its pieces are
      all it can append. */
  lemma {:induction false} EveryFormatHasPieces(fmt: Bytes, args: seq<Arg>) returns (ps: seq<Piece>)
    requires Matches(fmt, args)
    ensures forall p <- ps :: IsPiece(p)
    ensures FormatOf(ps) == fmt && ArgsOf(ps) <= args
    ensures Rendered(fmt, args) == TextOf(ps)
    decreases |fmt|
  {
    if fmt == [] {
      ps := [];
    } else {
      FirstPieceBegins(fmt, args);
      var p := FirstPiece(fmt, args);
      var more := EveryFormatHasPieces(fmt[Width(fmt)..], args[Takes(fmt)..]);
      ps := [p] + more;
      assert ps[1..] == more;
      HeadIsPieceText(fmt, args);
    }
  }

  lemma HeadIsPieceText(fmt: Bytes, args: seq<Arg>)
    requires fmt != [] && Begins(fmt, args)
    ensures Head(fmt, args) == PieceText(FirstPiece(fmt, args))
  {
  }
}
