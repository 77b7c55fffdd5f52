/** How often a string that is appended to byte by byte is reallocated. */
module SdsGrowth {
  import opened Decimal
  import opened SdsString

  /** Length, capacity, and how often the buffer has grown. */
  datatype Growth = Growth(len: nat, alloc: nat, times: nat)

  function AppendByte(g: Growth): Growth
    requires g.len <= g.alloc
  {
    var alloc := Room(g.len, g.alloc, 1);
    Growth(g.len + 1, alloc, if alloc == g.alloc then g.times else g.times + 1)
  }

  function AfterAppends(n: nat): (g: Growth)
    ensures g.len == n <= g.alloc
  {
    if n == 0 then Growth(0, 0, 0) else AppendByte(AfterAppends(n - 1))
  }

  function Pow2(k: nat): nat {
    if k == 0 then 1 else 2 * Pow2(k - 1)
  }

  /** The capacity after a number of reallocations: doubling up to twenty times, then a
      megabyte and a byte more each time. */
  function Capacity(times: nat): int {
    if times <= 20 then Pow2(times + 1) - 2
    else 2 * SDS_MAX_PREALLOC - 2 + (times - 20) * (SDS_MAX_PREALLOC + 1)
  }

  lemma Doublings()
    ensures Pow2(20) == SDS_MAX_PREALLOC && Pow2(21) == 2 * SDS_MAX_PREALLOC
  {
    assert Pow2(4) == 16;
    assert Pow2(8) == 256;
    assert Pow2(12) == 4096;
    assert Pow2(16) == 65536;
    assert Pow2(20) == SDS_MAX_PREALLOC;
  }

  /** The length fields of the five header types have 5, 8, 16, 32 and 64 bits. */
  lemma FieldWidths()
    ensures Width(0) == Pow2(5) && Width(1) == Pow2(8) && Width(2) == Pow2(16)
    ensures Width(3) == Pow2(32) && Width(4) == Pow2(64)
  {
    Doublings();
    assert Pow2(24) == 0x100_0000;
    assert Pow2(32) == 0x1_0000_0000;
    assert Pow2(40) == 0x100_0000_0000;
    assert Pow2(48) == 0x1_0000_0000_0000;
    assert Pow2(56) == 0x100_0000_0000_0000;
    assert Pow2(64) == 0x1_0000_0000_0000_0000;
  }

  lemma {:induction false} Pow2Monotone(j: nat, k: nat)
    requires j <= k
    ensures Pow2(j) <= Pow2(k)
    decreases k
  {
    if j < k {
      Pow2Monotone(j, k - 1);
    }
  }

  /** A full buffer grows to the next capacity. */
  lemma GrowsToNext(times: nat)
    ensures Capacity(times) >= 0
    ensures Prealloc(Capacity(times) + 1) == Capacity(times + 1) > Capacity(times)
  {
    Doublings();
    if times < 20 {
      assert Pow2(times + 2) == 2 * Pow2(times + 1);
      Pow2Monotone(0, times + 1);
      Pow2Monotone(times + 1, 20);
    }
  }

  /** Exactly as many reallocations as it takes to reach the first capacity that holds the
      bytes appended. */
  lemma {:induction false} GrowthExact(n: nat)
    ensures var g := AfterAppends(n);
            && g.alloc == Capacity(g.times)
            && (g.times > 0 ==> Capacity(g.times - 1) < n)
  {
    if n > 0 {
      GrowthExact(n - 1);
      var g := AfterAppends(n - 1);
      GrowsToNext(g.times);
    } else {
      assert Pow2(1) == 2;
    }
  }

  lemma CapacityBeyond(times: nat)
    requires times >= 20
    ensures Capacity(times) == 2 * SDS_MAX_PREALLOC - 2 + (times - 20) * (SDS_MAX_PREALLOC + 1)
  {
    if times == 20 {
      Doublings();
    }
  }

  lemma Quotient(t: int, n: nat)
    requires n > 2 * SDS_MAX_PREALLOC - 2 + (t - 21) * (SDS_MAX_PREALLOC + 1)
    ensures t <= 20 || t - 20 <= (n + SDS_MAX_PREALLOC - 1) / SDS_MAX_PREALLOC
  {
    if t > 20 {
      assert (t - 20) * SDS_MAX_PREALLOC <= n + SDS_MAX_PREALLOC - 1;
    }
  }

  /** Hence at most twenty doublings and one reallocation per megabyte. */
  lemma GrowthBound(n: nat)
    ensures AfterAppends(n).times <= 20 + (n + SDS_MAX_PREALLOC - 1) / SDS_MAX_PREALLOC
  {
    var t := AfterAppends(n).times;
    if t > 20 {
      assert n > Capacity(t - 1) by {
        GrowthExact(n);
      }
      CapacityBeyond(t - 1);
      Quotient(t, n);
    }
  }

  /** Appends one byte and tells whether the buffer has grown. */
  method AppendOne(s: Sds, b: Byte, ghost g: Growth) returns (grew: bool)
    requires s.Valid() && Allocatable(s.Len() + 1) && g.len == s.Len() && g.alloc == s.Alloc()
    modifies s, s.buf
    ensures s.Valid() && (s.buf == old(s.buf) || fresh(s.buf))
    ensures s.Contents() == old(s.Contents()) + [b]
    ensures AppendByte(g) == Growth(s.Len(), s.Alloc(), g.times + if grew then 1 else 0)
  {
    var alloc := s.Alloc();
    ghost var before := s.Contents();
    s.CatLen([b]);
    assert s.Len() == |before + [b]|;
    grew := s.Alloc() != alloc;
  }

  lemma AppendsStep(k: nat)
    ensures AfterAppends(k + 1) == AppendByte(AfterAppends(k))
  {
  }

  /** Appending byte by byte to an empty string reallocates as often as counted. */
  method AppendAll(bytes: seq<Byte>) returns (s: Sds, grown: nat)
    requires Allocatable(|bytes|)
    ensures s.Valid() && s.Contents() == bytes
    ensures grown == AfterAppends(|bytes|).times
    ensures grown <= 20 + (|bytes| + SDS_MAX_PREALLOC - 1) / SDS_MAX_PREALLOC
  {
    s := Sds.Empty();
    grown := 0;
    for k := 0 to |bytes|
      invariant s.Valid() && fresh(s) && fresh(s.buf)
      invariant s.Contents() == bytes[..k]
      invariant Growth(s.Len(), s.Alloc(), grown) == AfterAppends(k)
    {
      var grew := AppendOne(s, bytes[k], AfterAppends(k));
      AppendsStep(k);
      assert bytes[..k + 1] == bytes[..k] + [bytes[k]];
      if grew {
        grown := grown + 1;
      }
    }
    GrowthBound(|bytes|);
  }
}
