/** Dynamic strings: a header of one of five widths before a growable buffer that always
    ends in a NUL byte after the contents. */
module SdsString {
  import opened Decimal

  const SDS_TYPE_5: Byte := 0
  const SDS_TYPE_8: Byte := 1
  const SDS_TYPE_16: Byte := 2
  const SDS_TYPE_32: Byte := 3
  const SDS_TYPE_64: Byte := 4
  const SDS_MAX_PREALLOC := 1024 * 1024
  const TWO_32 := 0x1_0000_0000

  /** One more than the largest length a header type can hold. */
  function Width(kind: Byte): nat {
    if kind == SDS_TYPE_5 then 32
    else if kind == SDS_TYPE_8 then 256
    else if kind == SDS_TYPE_16 then 65536
    else if kind == SDS_TYPE_32 then TWO_32
    else TWO_64
  }

  /** A length as the field of a header type stores it. */
  function Stored(n: int, kind: Byte): (r: nat)
    ensures 0 <= n < Width(kind) ==> r == n
    ensures r < Width(kind)
  {
    if kind == SDS_TYPE_5 then n % 32
    else if kind == SDS_TYPE_8 then n % 256
    else if kind == SDS_TYPE_16 then n % 65536
    else if kind == SDS_TYPE_32 then n % TWO_32
    else n % TWO_64
  }

  function ReqType(size: nat): (kind: Byte)
    requires size < TWO_64
    ensures kind <= SDS_TYPE_64 && size < Width(kind)
    ensures forall k: Byte | k < kind :: size >= Width(k)
  {
    if size < 32 then SDS_TYPE_5
    else if size < 256 then SDS_TYPE_8
    else if size < 65536 then SDS_TYPE_16
    else if size < TWO_32 then SDS_TYPE_32
    else SDS_TYPE_64
  }

  /** The capacity asked for when `needed` bytes do not fit. */
  function Prealloc(needed: nat): nat {
    if needed < SDS_MAX_PREALLOC then needed * 2 else needed + SDS_MAX_PREALLOC
  }

  /** The capacity after room for `addlen` more bytes has been made. */
  function Room(len: nat, alloc: nat, addlen: nat): nat
    requires len <= alloc
  {
    if alloc - len >= addlen then alloc else Prealloc(len + addlen)
  }

  /** Sizes whose grown buffer still has a 64-bit length. */
  predicate Allocatable(size: nat) {
    size + SDS_MAX_PREALLOC + 32 < TWO_64
  }

  /** What a new string is initialised from: bytes, zeros, or nothing at all. */
  datatype Init = Bytes(bytes: seq<Byte>) | Null | NoInit

  function Zeros(n: nat): (zs: seq<Byte>)
    ensures |zs| == n && forall k | 0 <= k < n :: zs[k] == 0
  {
    seq(n, _ => 0)
  }

  /** A length shifted into the five high bits of the flags byte leaves the type bits zero
      and reads back modulo 32. */
  lemma ShiftedLength(newlen: nat)
    ensures newlen * 8 % 256 % 8 == 0
    ensures newlen * 8 % 256 / 8 == newlen % 32
  {
    var q, r := newlen / 32, newlen % 32;
    assert newlen * 8 == 256 * q + 8 * r;
    assert newlen * 8 % 256 == 8 * r;
  }

  lemma ByteOfLength(n: nat)
    ensures n % 256 % 32 == n % 32
  {
    assert n == n / 256 * 8 * 32 + n % 256;
  }

  /** The bounds that the source asserts before it changes a length: the five-bit type by
      the width of the length, the others by the capacity, and all but the widest after
      cutting a decrease, and the 32-bit type also an increase, to 32 bits. */
  predicate IncrAsserted(kind: Byte, len: nat, alloc: nat, incr: int) {
    var cut := if kind == SDS_TYPE_64 then -incr else -incr % TWO_32;
    if kind == SDS_TYPE_5 then
      (incr > 0 && len + incr < 32) || (incr < 0 && len >= cut)
    else if kind == SDS_TYPE_32 then
      (incr >= 0 && alloc - len >= incr % TWO_32) || (incr < 0 && len >= cut)
    else
      (incr >= 0 && alloc - len >= incr) || (incr < 0 && len >= cut)
  }

  /** For changes below 2^31 the assertion says what it seems to: the new length is within
      the capacity, or for the five-bit type within its width and different. */
  lemma AssertedExactlyWhen(kind: Byte, len: nat, alloc: nat, incr: int)
    requires kind <= SDS_TYPE_64 && len <= alloc < Width(kind) && -0x8000_0000 < incr < 0x8000_0000
    ensures kind != SDS_TYPE_5 ==> (IncrAsserted(kind, len, alloc, incr) <==> 0 <= len + incr <= alloc)
    ensures kind == SDS_TYPE_5 ==> (IncrAsserted(kind, len, alloc, incr) <==> incr != 0 && 0 <= len + incr < 32)
  {
    assert incr >= 0 ==> incr % TWO_32 == incr;
    assert incr <= 0 ==> -incr % TWO_32 == -incr;
  }

  /** A multiple of 2^32 does not show in a field of at most 32 bits. */
  lemma StoredWraps(x: nat, q: int, kind: Byte)
    requires SDS_TYPE_5 < kind < SDS_TYPE_64 && x < Width(kind)
    ensures Stored(x + q * TWO_32, kind) == x
  {
    var n := x + q * TWO_32;
    if kind == SDS_TYPE_8 {
      assert n == x + 256 * (q * 16777216);
      assert n / 256 == q * 16777216;
    } else if kind == SDS_TYPE_16 {
      assert n == x + 65536 * (q * 65536);
      assert n / 65536 == q * 65536;
    } else {
      assert n / TWO_32 == q;
    }
  }

  /** Under the assertion the stored length of the wider types stays within the capacity:
      what the cut removes, the width of the field removes as well. */
  lemma IncrStored(kind: Byte, len: nat, alloc: nat, incr: int)
    requires SDS_TYPE_5 < kind <= SDS_TYPE_64 && len <= alloc < Width(kind)
    requires IncrAsserted(kind, len, alloc, incr)
    ensures Stored(len + incr, kind) <= alloc
  {
    if kind < SDS_TYPE_64 && incr < 0 {
      var q, cut := -incr / TWO_32, -incr % TWO_32;
      assert len + incr == (len - cut) + -q * TWO_32;
      StoredWraps(len - cut, -q, kind);
    } else if kind == SDS_TYPE_32 {
      StoredWraps(len + incr % TWO_32, incr / TWO_32, kind);
    }
  }

  /** What the assertion leaves to know: a small change of a wider type fits the free
      space, and that of a five-bit type fits the width of its length. */
  lemma IncrFacts(kind: Byte, len: nat, alloc: nat, incr: int)
    requires kind <= SDS_TYPE_64 && len <= alloc < Width(kind) && IncrAsserted(kind, len, alloc, incr)
    ensures kind != SDS_TYPE_5 ==> Stored(len + incr, kind) <= alloc
    ensures kind != SDS_TYPE_5 && -TWO_32 < incr < TWO_32 ==> incr <= alloc - len
    ensures kind == SDS_TYPE_5 && -TWO_32 < incr ==> 0 <= len + incr < 32 && incr != 0
    ensures kind == SDS_TYPE_5 && 0 <= len + incr ==> len + incr < 32
  {
    if kind != SDS_TYPE_5 {
      IncrStored(kind, len, alloc, incr);
    }
  }

  lemma ShiftedChange(len: int)
    ensures len * 8 % 256 % 8 == 0
    ensures len * 8 % 256 / 8 == len % 32
  {
    var q, r := len / 32, len % 32;
    assert len * 8 == 256 * q + 8 * r;
    assert len * 8 % 256 == 8 * r;
  }

  /** `memcpy` of `t` to index `at`. */
  method CopyInto(buf: array<Byte>, at: nat, t: seq<Byte>)
    requires at + |t| <= buf.Length
    modifies buf
    ensures buf[at..at + |t|] == t
    ensures buf[..at + |t|] == old(buf[..at]) + t
    ensures forall k | 0 <= k < buf.Length && !(at <= k < at + |t|) :: buf[k] == old(buf[k])
  {
    for k := 0 to |t|
      invariant forall i | 0 <= i < k :: buf[at + i] == t[i]
      invariant forall i | 0 <= i < buf.Length && !(at <= i < at + k) :: buf[i] == old(buf[i])
    {
      buf[at + k] := t[k];
    }
  }

  /** The buffer of a new string of `initlen` bytes, terminated. */
  method InitialMemory(init: Init, initlen: nat) returns (mem: array<Byte>)
    requires init.Bytes? ==> initlen <= |init.bytes|
    ensures fresh(mem) && mem.Length == initlen + 1 && mem[initlen] == 0
    ensures init.Bytes? ==> mem[..initlen] == init.bytes[..initlen]
    ensures init.Null? ==> mem[..initlen] == Zeros(initlen)
  {
    mem := new Byte[initlen + 1];
    if init.Null? {
      CopyInto(mem, 0, Zeros(initlen + 1));
      assert mem[..initlen] == mem[..initlen + 1][..initlen] == Zeros(initlen);
    }
    if init.Bytes? && initlen > 0 {
      CopyInto(mem, 0, init.bytes[..initlen]);
    }
    mem[initlen] := 0;
  }

  class Sds {
    /** The type in the low three bits; for type 5 the length in the high five. */
    var flags: Byte
    /** The two header fields of the wider types. */
    var headerLen: nat
    var headerAlloc: nat
    var buf: array<Byte>

    function Kind(): Byte
      reads this
    {
      flags % 8
    }

    function Len(): nat
      reads this
    {
      if Kind() == SDS_TYPE_5 then flags / 8
      else if Kind() <= SDS_TYPE_64 then headerLen
      else 0
    }

    function Alloc(): nat
      reads this
    {
      if Kind() == SDS_TYPE_5 then flags / 8
      else if Kind() <= SDS_TYPE_64 then headerAlloc
      else 0
    }

    function Avail(): int
      reads this
    {
      if Kind() == SDS_TYPE_5 then 0
      else if Kind() <= SDS_TYPE_64 then headerAlloc - headerLen
      else 0
    }

    /** The header and the buffer fit together, whatever the byte after the contents is. */
    ghost predicate Shape()
      reads this
    {
      && Kind() <= SDS_TYPE_64
      && (Kind() != SDS_TYPE_5 ==> headerLen <= headerAlloc < Width(Kind()))
      && Alloc() < buf.Length
    }

    ghost predicate Valid()
      reads this, buf
    {
      Shape() && buf[Len()] == 0
    }

    ghost function Contents(): seq<Byte>
      reads this, buf
      requires Shape()
    {
      buf[..Len()]
    }

    /** Stores a length in the header, truncated to the width of its field. */
    method SetLen(newlen: nat)
      requires Kind() <= SDS_TYPE_64
      modifies this`flags, this`headerLen
      ensures Kind() == old(Kind())
      ensures Len() == Stored(newlen, Kind())
      ensures Kind() != SDS_TYPE_5 ==> flags == old(flags)
    {
      var kind := flags % 8;
      if kind == SDS_TYPE_5 {
        ShiftedLength(newlen);
        flags := SDS_TYPE_5 + newlen * 8 % 256;
      } else {
        headerLen := Stored(newlen, kind);
      }
    }

    /** Adds to the length in the header, truncated to the width of its field. */
    method IncLen(inc: nat)
      requires Kind() <= SDS_TYPE_64
      modifies this`flags, this`headerLen
      ensures Kind() == old(Kind())
      ensures Len() == Stored(old(Len()) + inc, Kind())
      ensures Kind() != SDS_TYPE_5 ==> flags == old(flags)
    {
      var kind := flags % 8;
      if kind == SDS_TYPE_5 {
        var newlen := (flags / 8 + inc) % 256;
        ShiftedLength(newlen);
        ByteOfLength(flags / 8 + inc);
        flags := SDS_TYPE_5 + newlen * 8 % 256;
      } else {
        headerLen := Stored(headerLen + inc, kind);
      }
    }

    /** Stores a capacity in the header; type 5 has nowhere to store it. */
    method SetAlloc(newlen: nat)
      requires Kind() <= SDS_TYPE_64
      modifies this`headerAlloc
      ensures Kind() != SDS_TYPE_5 ==> Alloc() == Stored(newlen, Kind())
    {
      if flags % 8 != SDS_TYPE_5 {
        headerAlloc := Stored(newlen, flags % 8);
      }
    }

    /** A new string of `initlen` bytes. Empty strings get a type 8 header, since they are
        usually made to be appended to. */
    constructor NewLen(init: Init, initlen: nat)
      requires initlen + 32 < TWO_64 && (init.Bytes? ==> initlen <= |init.bytes|)
      ensures Valid() && fresh(buf)
      ensures Len() == Alloc() == initlen && buf.Length == initlen + 1
      ensures Kind() == if initlen == 0 then SDS_TYPE_8 else ReqType(initlen)
      ensures init.Bytes? ==> Contents() == init.bytes[..initlen]
      ensures init.Null? ==> Contents() == Zeros(initlen)
    {
      var kind := ReqType(initlen);
      if kind == SDS_TYPE_5 && initlen == 0 {
        kind := SDS_TYPE_8;
      }
      var mem := InitialMemory(init, initlen);
      headerLen, headerAlloc := 0, 0;
      if kind == SDS_TYPE_5 {
        flags := kind + initlen * 8;
      } else {
        headerLen, headerAlloc, flags := initlen, initlen, kind;
      }
      buf := mem;
    }

    static method Empty() returns (s: Sds)
      ensures fresh(s) && fresh(s.buf) && s.Valid()
      ensures s.Contents() == [] && s.Len() == s.Alloc() == 0
    {
      s := new Sds.NewLen(Init.Bytes([]), 0);
    }

    /** Moves the string to a new buffer of the given capacity under a header of the given
        type, rewriting the header only if the type changes. */
    method Reallocate(kind: Byte, newlen: nat)
      requires Shape() && Len() <= newlen < Width(kind) && kind <= SDS_TYPE_64
      requires kind == SDS_TYPE_5 ==> newlen == Len()
      modifies this
      ensures Shape() && Kind() == kind
      ensures Len() == old(Len()) && Alloc() == newlen
      ensures fresh(buf) && buf[..Len() + 1] == old(buf[..Len() + 1])
    {
      var len := Len();
      var mem := new Byte[newlen + 1];
      CopyInto(mem, 0, buf[..len + 1]);
      buf := mem;
      if flags % 8 != kind {
        flags := kind;
        SetLen(len);
      }
      SetAlloc(newlen);
    }

    /** Makes room for `addlen` more bytes and the terminator; the contents and the byte
        after them stay. */
    method MakeRoomFor(addlen: nat)
      requires Shape() && Allocatable(Len() + addlen)
      modifies this
      ensures Shape() && Len() == old(Len())
      ensures Avail() >= addlen
      ensures buf[..Len() + 1] == old(buf[..Len() + 1])
      ensures Alloc() == Room(old(Len()), old(Alloc()), addlen)
      ensures buf == old(buf) || fresh(buf)
      ensures old(Avail()) >= addlen ==> buf == old(buf) && flags == old(flags)
      ensures old(Avail()) < addlen ==>
                Kind() == if ReqType(Alloc()) == SDS_TYPE_5 then SDS_TYPE_8 else ReqType(Alloc())
    {
      if Avail() >= addlen {
        return;
      }
      var newlen := Len() + addlen;
      if newlen < SDS_MAX_PREALLOC {
        newlen := newlen * 2;
      } else {
        newlen := newlen + SDS_MAX_PREALLOC;
      }
      var kind := ReqType(newlen);
      if kind == SDS_TYPE_5 {
        kind := SDS_TYPE_8;
      }
      Reallocate(kind, newlen);
    }

    /** Reallocates the string without free space, under the smallest header that is worth
        a move. */
    method RemoveFreeSpace()
      requires Valid()
      modifies this
      ensures Valid() && fresh(buf)
      ensures Contents() == old(Contents())
      ensures Alloc() == Len()
      ensures Kind() == if ReqType(Len()) > SDS_TYPE_8 then old(Kind()) else ReqType(Len())
    {
      var oldtype, len := flags % 8, Len();
      var kind := ReqType(len);
      ghost var before := buf[..len + 1];
      if oldtype == kind || kind > SDS_TYPE_8 {
        Reallocate(oldtype, len);
      } else {
        Reallocate(kind, len);
      }
      assert before[len] == 0 && Contents() == before[..len];
    }

    /** Changes the length in the header and returns where the source puts the terminator:
        at the stored length, but for a five-bit string at the sum itself. */
    method MoveEnd(incr: int) returns (len: int)
      requires Shape() && (Kind() != SDS_TYPE_5 ==> Stored(Len() + incr, Kind()) <= Alloc())
      modifies this`flags, this`headerLen
      ensures Kind() == old(Kind()) && Len() == Stored(old(Len()) + incr, Kind())
      ensures len == if Kind() == SDS_TYPE_5 then old(Len()) + incr else Len()
      ensures Kind() != SDS_TYPE_5 ==> Len() <= Alloc() == old(Alloc())
    {
      if flags % 8 == SDS_TYPE_5 {
        len := Len() + incr;
        ShiftedChange(len);
        flags := SDS_TYPE_5 + len * 8 % 256;
      } else {
        headerLen := Stored(headerLen + incr, flags % 8);
        len := headerLen;
      }
    }

    /** Moves the end of the string by `incr`, after the caller has written into the free
        space or to trim on the right. The source asserts some bounds first and then stores
        the terminator; `inBounds` says whether that store is inside the buffer. A five-bit
        string has no free space, but the assertion looks at the width of its length only. */
    method IncrLen(incr: int) returns (inBounds: bool)
      requires Shape() && -TWO_63 <= incr < TWO_63 && IncrAsserted(Kind(), Len(), Alloc(), incr)
      modifies this, buf
      ensures Kind() == old(Kind()) && buf == old(buf)
      ensures Len() == Stored(old(Len()) + incr, Kind())
      ensures inBounds <==> Kind() != SDS_TYPE_5 || 0 <= old(Len()) + incr < buf.Length
      ensures inBounds ==> Valid() && Contents() == old(buf[..])[..Len()]
      ensures buf.Length == old(Alloc()) + 1 ==>
                (inBounds <==> Kind() != SDS_TYPE_5 || (0 <= old(Len()) + incr && incr <= old(Avail())))
      ensures buf.Length == old(Alloc()) + 1 && -TWO_32 < incr < TWO_32 ==> (inBounds <==> incr <= old(Avail()))
    {
      IncrFacts(Kind(), Len(), Alloc(), incr);
      var len := MoveEnd(incr);
      inBounds := 0 <= len < buf.Length;
      if inBounds {
        buf[len] := 0;
      }
    }

    /** Grows the string with zero bytes to length `len`; a no-op if it is that long. */
    method GrowZero(len: nat)
      requires Valid() && Allocatable(len)
      modifies this, buf
      ensures Valid() && (buf == old(buf) || fresh(buf))
      ensures Contents() == old(Contents()) + if len <= old(Len()) then [] else Zeros(len - old(Len()))
    {
      var curlen := Len();
      if len <= curlen {
        return;
      }
      MakeRoomFor(len - curlen);
      CopyInto(buf, curlen, Zeros(len - curlen + 1));
      SetLen(len);
      assert buf[..curlen] == old(Contents());
      assert buf[curlen..len] == buf[curlen..len + 1][..len - curlen] == Zeros(len - curlen);
      assert buf[..len] == buf[..curlen] + buf[curlen..len];
    }

    /** Appends bytes. */
    method CatLen(t: seq<Byte>)
      requires Valid() && Allocatable(Len() + |t|)
      modifies this, buf
      ensures Valid() && (buf == old(buf) || fresh(buf))
      ensures Contents() == old(Contents()) + t
      ensures Alloc() == Room(old(Len()), old(Alloc()), |t|)
    {
      var curlen := Len();
      MakeRoomFor(|t|);
      assert buf[..curlen] == buf[..curlen + 1][..curlen] == old(Contents());
      CopyInto(buf, curlen, t);
      SetLen(curlen + |t|);
      buf[curlen + |t|] := 0;
    }

    /** Overwrites the string. */
    method CpyLen(t: seq<Byte>)
      requires Valid() && Allocatable(|t|)
      modifies this, buf
      ensures Valid() && (buf == old(buf) || fresh(buf))
      ensures Contents() == t
    {
      if Alloc() < |t| {
        MakeRoomFor(|t| - Len());
      }
      CopyInto(buf, 0, t);
      assert buf[..|t|] == t;
      buf[|t|] := 0;
      SetLen(|t|);
    }
  }

  /** The assertion accepts an input for which the terminator is stored behind the buffer:
      "abc" in a five-bit string, moved by one. */
  method IncrPastEnd() returns (s: Sds, inBounds: bool)
    ensures s.Kind() == SDS_TYPE_5 && s.Len() == s.buf.Length == 4 && !inBounds
  {
    s := new Sds.NewLen(Bytes([97, 98, 99]), 3);
    inBounds := s.IncrLen(1);
  }

  /** Cut to 32 bits, a decrease by 2^32 is none, and the terminator is stored far before the
      buffer. */
  method IncrBeforeStart() returns (s: Sds, inBounds: bool)
    ensures s.Kind() == SDS_TYPE_5 && s.Len() == 3 && s.buf.Length == 4 && !inBounds
  {
    s := new Sds.NewLen(Bytes([97, 98, 99]), 3);
    inBounds := s.IncrLen(-TWO_32);
  }
}
