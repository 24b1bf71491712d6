// The persistent page map: one bit per page, most significant bit first; 0 is free, 1 allocated.
module SpaceMap {

  /** 1 << (7 - k) */
  function BitMask(k: nat): bv8
    requires k < 8
  {
    if k == 0 then 0x80 else if k == 1 then 0x40 else if k == 2 then 0x20 else if k == 3 then 0x10
    else if k == 4 then 0x08 else if k == 5 then 0x04 else if k == 6 then 0x02 else 0x01
  }

  /** Bit k of a byte, counted from the most significant end. */
  predicate BitOf(b: bv8, k: nat)
    requires k < 8
  {
    Has(b, BitMask(k))
  }

  predicate Has(b: bv8, m: bv8) {
    b & m != 0
  }

  function With(b: bv8, m: bv8): bv8 {
    b | m
  }

  function Without(b: bv8, m: bv8): bv8 {
    b & !m
  }

  /** Masking is shifting the bit down, as the source reads it. */
  lemma BitOfIsShift(b: bv8)
    ensures BitOf(b, 0) <==> (b >> 7) & 1 == 1
    ensures BitOf(b, 1) <==> (b >> 6) & 1 == 1
    ensures BitOf(b, 2) <==> (b >> 5) & 1 == 1
    ensures BitOf(b, 3) <==> (b >> 4) & 1 == 1
    ensures BitOf(b, 4) <==> (b >> 3) & 1 == 1
    ensures BitOf(b, 5) <==> (b >> 2) & 1 == 1
    ensures BitOf(b, 6) <==> (b >> 1) & 1 == 1
    ensures BitOf(b, 7) <==> b & 1 == 1
  {
  }

  predicate OneHot(m: bv8) {
    m != 0 && m & (m - 1) == 0
  }

  lemma OneBit(b: bv8, m: bv8, n: bv8)
    requires OneHot(m) && OneHot(n)
    ensures Has(With(b, m), n) <==> m == n || Has(b, n)
    ensures Has(Without(b, m), n) <==> m != n && Has(b, n)
  {
  }

  lemma Masks(k: nat, j: nat)
    requires k < 8 && j < 8
    ensures OneHot(BitMask(k)) && (k == j <==> BitMask(k) == BitMask(j))
  {
  }

  lemma BitLaws(b: bv8, k: nat, j: nat)
    requires k < 8 && j < 8
    ensures BitOf(With(b, BitMask(k)), j) <==> k == j || BitOf(b, j)
    ensures BitOf(Without(b, BitMask(k)), j) <==> k != j && BitOf(b, j)
  {
    hide BitMask, Has, With, Without, OneHot;
    Masks(k, j);
    Masks(j, k);
    OneBit(b, BitMask(k), BitMask(j));
  }

  predicate Allocated(mask: seq<bv8>, n: nat)
    requires n < 8 * |mask|
  {
    BitOf(mask[n / 8], n % 8)
  }

  lemma OneByteChanges(mask: seq<bv8>, n: nat, m: nat)
    requires n < 8 * |mask| && m < 8 * |mask|
    ensures var b := mask[n / 8];
            && (Allocated(mask[n / 8 := With(b, BitMask(n % 8))], m) <==> m == n || Allocated(mask, m))
            && (Allocated(mask[n / 8 := Without(b, BitMask(n % 8))], m) <==> m != n && Allocated(mask, m))
  {
    hide BitOf, BitMask, With, Without;
    if n / 8 == m / 8 {
      BitLaws(mask[n / 8], n % 8, m % 8);
    }
  }

  class PageMap {
    const mask: array<bv8>

    constructor (bytes: nat)
      ensures mask.Length == bytes && fresh(mask)
      ensures forall n :: 0 <= n < 8 * bytes ==> !Allocated(mask[..], n)
    {
      mask := new bv8[bytes](i => 0);
      new;
      forall n | 0 <= n < 8 * bytes ensures !Allocated(mask[..], n) {
        assert mask[..][n / 8] == 0;
      }
    }

    /** The free pages, page by page. */
    ghost function Free(): (f: seq<bool>)
      reads mask
      ensures |f| == 8 * mask.Length
      ensures forall n :: 0 <= n < |f| ==> (f[n] <==> !Allocated(mask[..], n))
    {
      seq(8 * mask.Length, n requires 0 <= n < 8 * mask.Length reads mask => !Allocated(mask[..], n))
    }

    method IsFree(n: nat) returns (free: bool)
      requires n < 8 * mask.Length
      ensures free == Free()[n]
    {
      free := !BitOf(mask[n / 8], n % 8);
    }

    method SetBit(n: nat)
      requires n < 8 * mask.Length
      modifies mask
      ensures Free() == old(Free())[n := false]
    {
      hide BitOf, BitMask, With, Without;
      ghost var b := mask[..];
      mask[n / 8] := With(mask[n / 8], BitMask(n % 8));
      assert mask[..] == b[n / 8 := With(b[n / 8], BitMask(n % 8))];
      forall m | 0 <= m < 8 * mask.Length ensures Free()[m] == old(Free())[n := false][m] {
        OneByteChanges(b, n, m);
      }
    }

    method FreeBit(n: nat)
      requires n < 8 * mask.Length
      modifies mask
      ensures Free() == old(Free())[n := true]
    {
      hide BitOf, BitMask, With, Without;
      ghost var b := mask[..];
      mask[n / 8] := Without(mask[n / 8], BitMask(n % 8));
      assert mask[..] == b[n / 8 := Without(b[n / 8], BitMask(n % 8))];
      forall m | 0 <= m < 8 * mask.Length ensures Free()[m] == old(Free())[n := true][m] {
        OneByteChanges(b, n, m);
      }
    }

    /** Marks the pages [lo, lo + n) as allocated, or as free. */
    method Mark(lo: nat, n: nat, free: bool)
      requires lo + n <= 8 * mask.Length
      modifies mask
      ensures Free() == Marked(old(Free()), lo, n, free)
    {
      var p := lo;
      while p < lo + n
        invariant lo <= p <= lo + n
        invariant Free() == Marked(old(Free()), lo, p - lo, free)
      {
        if free { FreeBit(p); } else { SetBit(p); }
        p := p + 1;
      }
    }
  }

  /** f with the pages [lo, lo + n) set to free. */
  ghost function Marked(f: seq<bool>, lo: int, n: nat, free: bool): (g: seq<bool>)
    ensures |g| == |f| && forall p :: 0 <= p < |f| ==> g[p] == if lo <= p < lo + n then free else f[p]
  {
    seq(|f|, p requires 0 <= p < |f| => if lo <= p < lo + n then free else f[p])
  }
}
