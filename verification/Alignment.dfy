/**
 * The mask-based alignment macros of src/test_mck/src/test_mck.h, for unsigned words of w bits, and
 * the probe loop of src/test_mck/src/mem_large_page/000.c that relies on them.
 */
module Alignment {
  import opened Prelude

  function Pow2(k: nat): (r: nat)
    ensures r >= 1
  {
    if k == 0 then 1 else 2 * Pow2(k - 1)
  }

  /** Bitwise and of two w-bit words. */
  function And(a: nat, b: nat, w: nat): nat {
    if w == 0 then 0 else (if a % 2 == 1 && b % 2 == 1 then 1 else 0) + 2 * And(a / 2, b / 2, w - 1)
  }

  /** Bitwise complement of a w-bit word. */
  function Not(a: nat, w: nat): int {
    Pow2(w) - 1 - a
  }

  lemma {:induction false} PowMonotone(k: nat, w: nat)
    requires k <= w
    ensures Pow2(k) <= Pow2(w)
  {
    if k < w {
      PowMonotone(k, w - 1);
    }
  }

  /** align_down for a size of 2^k: addr & ~(size - 1). */
  function AlignDown(addr: nat, k: nat, w: nat): nat
    requires k <= w
  {
    PowMonotone(k, w);
    And(addr, Not(Pow2(k) - 1, w), w)
  }

  /** align_up: the macro rounds addr + size - 1 down. */
  function AlignUp(addr: nat, k: nat, w: nat): nat
    requires k <= w
  {
    AlignDown(addr + Pow2(k) - 1, k, w)
  }

  lemma {:induction false} AndOnes(a: nat, w: nat)
    requires a < Pow2(w)
    ensures And(a, Pow2(w) - 1, w) == a
  {
    if w > 0 {
      AndOnes(a / 2, w - 1);
      assert (Pow2(w) - 1) / 2 == Pow2(w - 1) - 1;
    }
  }

  /** A mask with its lowest bit clear. */
  lemma {:induction false} AndEven(a: nat, c: nat, w: nat)
    requires w > 0
    ensures And(a, 2 * c, w) == 2 * And(a / 2, c, w - 1)
  {
    assert 2 * c % 2 == 0 && 2 * c / 2 == c;
  }

  /** a with its k low bits cleared. */
  function ClearLow(a: nat, k: nat): nat {
    if k == 0 then a else 2 * ClearLow(a / 2, k - 1)
  }

  /** Masking with the complement of 2^k - 1 clears the k low bits and nothing else. */
  lemma {:induction false} MaskClears(a: nat, k: nat, w: nat)
    requires k <= w && a < Pow2(w)
    ensures AlignDown(a, k, w) == ClearLow(a, k)
  {
    PowMonotone(k, w);
    if k == 0 {
      AndOnes(a, w);
    } else {
      PowMonotone(k - 1, w - 1);
      AndEven(a, Pow2(w - 1) - Pow2(k - 1), w);
      MaskClears(a / 2, k - 1, w - 1);
    }
  }

  /** y is m times 2^k. */
  predicate IsMultiple(y: nat, m: nat, k: nat) {
    y == m * Pow2(k)
  }

  /** The cleared number is a multiple of 2^k, less than 2^k below the original. */
  lemma {:induction false} ClearLowIs(a: nat, k: nat) returns (m: nat)
    ensures IsMultiple(ClearLow(a, k), m, k)
    ensures ClearLow(a, k) <= a < ClearLow(a, k) + Pow2(k)
  {
    if k == 0 {
      m := a;
    } else {
      m := ClearLowIs(a / 2, k - 1);
      assert 2 * (m * Pow2(k - 1)) == m * (2 * Pow2(k - 1));
    }
  }

  lemma {:induction false} MulLess(m: nat, n: nat, s: nat)
    requires m < n
    ensures m * s + s <= n * s
  {
    var d := n - m - 1;
    assert n * s == m * s + d * s + s;
    assert d * s >= 0;
  }

  /** align_up gives the least multiple of 2^k at or above the address, when no sum leaves the word. */
  lemma {:induction false} UpIsLeast(addr: nat, k: nat, w: nat)
    requires k <= w && addr + Pow2(k) - 1 < Pow2(w)
    ensures exists m :: IsMultiple(AlignUp(addr, k, w), m, k)
    ensures addr <= AlignUp(addr, k, w) < addr + Pow2(k)
    ensures forall y, n :: y >= addr && IsMultiple(y, n, k) ==> AlignUp(addr, k, w) <= y
  {
    MaskClears(addr + Pow2(k) - 1, k, w);
    var m := ClearLowIs(addr + Pow2(k) - 1, k);
    forall y, n | y >= addr && IsMultiple(y, n, k)
      ensures AlignUp(addr, k, w) <= y
    {
      if n < m {
        MulLess(n, m, Pow2(k));
      } else if m < n {
        MulLess(m, n, Pow2(k));
      }
    }
  }

  // ----- the probe of a large page

  /**
   * The probe loop over a mapping of two large pages at addr, a large page being 2^k bytes or `pages`
   * small pages.  It stores to the first byte of each small page of the first whole large page of the
   * mapping, stopping early when the page-size check (answers[i] for the i-th store) fails.  Every
   * store falls inside the mapping.
   */
  method Probe(addr: nat, k: nat, w: nat, pages: nat, answers: seq<bool>) returns (stores: seq<nat>, largePage: bool)
    requires k <= w && addr + Pow2(k) - 1 < Pow2(w) && Pow2(k) == pages * PAGE_SIZE && |answers| == pages
    ensures stores != [] && |stores| <= pages
    ensures forall i :: 0 <= i < |stores| ==>
              && stores[i] == AlignUp(addr, k, w) + i * PAGE_SIZE
              && addr <= stores[i] < addr + 2 * Pow2(k)
    ensures largePage <==> forall i :: 0 <= i < pages ==> answers[i]
    ensures largePage ==> |stores| == pages
  {
    UpIsLeast(addr, k, w);
    var start := AlignUp(addr, k, w);
    ghost var first := start;
    var end := start + 2 * Pow2(k) / 2;
    stores := [];
    largePage := true;
    while start < end
      invariant start == first + |stores| * PAGE_SIZE <= end
      invariant forall i :: 0 <= i < |stores| ==> stores[i] == first + i * PAGE_SIZE
      invariant largePage && forall i :: 0 <= i < |stores| ==> answers[i]
    {
      stores := stores + [start];
      largePage := answers[|stores| - 1];
      if !largePage {
        break;
      }
      start := start + PAGE_SIZE;
    }
  }

  /** The numbers of the x86 build: a large page of 2^21 bytes is 512 small ones. */
  lemma {:induction false} LargePageIs512()
    ensures Pow2(21) == 512 * PAGE_SIZE
  {
    assert Pow2(10) == 1024;
  }
}
