/*
 * The bit helpers of include/qpl/algorithm.hpp, instantiated at qpl::u32 (bv32),
 * with the u64 significant_bit at bv64 and the rotations at qpl::u8 (bv8).
 * Bit positions are bit-vectors too; a shift by the full width or more is
 * undefined in C++, so positions are required to be below the width.
 */
module BitAlgorithms {

  datatype Option<T> = None | Some(value: T)

  // ---------------------------------------------------------------------
  // significant_bit
  // ---------------------------------------------------------------------

  /** The generic significant_bit (algorithm.hpp:51-54) at u32: n ? 1 + significant_bit(n >> 1) : 0. */
  function BitLength32(n: bv32): bv32
    decreases n
  {
    if n == 0 then 0 else 1 + BitLength32(n >> 1)
  }

  /** r is the bit length of n: 0 for 0, otherwise bit r - 1 is the highest set bit. */
  predicate HasBitLength32(n: bv32, r: bv32)
  {
    (n == 0 && r == 0) || (1 <= r <= 32 && n >> (r - 1) == 1)
  }

  lemma BitLength32Unique(n: bv32, r1: bv32, r2: bv32)
    requires HasBitLength32(n, r1) && HasBitLength32(n, r2)
    ensures r1 == r2
  {
  }

  /** The recursive bit length is the position of the highest set bit plus one, and at most k when n < 2^k. */
  lemma {:induction false} BitLength32Meaning(n: bv32, k: bv32)
    requires k <= 32 && n >> k == 0
    ensures HasBitLength32(n, BitLength32(n)) && BitLength32(n) <= k
    decreases k
  {
    if n != 0 {
      BitLength32Meaning(n >> 1, k - 1);
    }
  }

  /**
   * The branch-free significant_bit for u32 (algorithm.hpp:55-76): a binary search over the
   * masks 0xffff0000, 0xff00ff00, ... that computes the recursive bit length.
   */
  method SignificantBit32(n0: bv32) returns (r: bv32)
    ensures r == BitLength32(n0)
  {
    var n := n0;
    var y: bv32 := 0;
    var result: bv32 := 0;
    y := n & 0xffff_0000;
    if y != 0 { result := result | 0x10; n := y; }
    y := n & 0xff00_ff00;
    if y != 0 { result := result | 0x8; n := y; }
    y := n & 0xf0f0_f0f0;
    if y != 0 { result := result | 0x4; n := y; }
    y := n & 0xcccc_cccc;
    if y != 0 { result := result | 0x2; n := y; }
    if n & 0xaaaa_aaaa != 0 { result := result | 0x1; }
    if n != 0 {
      result := result + 1;
    }
    r := result;
    assert HasBitLength32(n0, r);
    BitLength32Meaning(n0, 32);
    BitLength32Unique(n0, r, BitLength32(n0));
  }

  /**
   * The search of significant_bit_ignore_last_bit, stage by stage: each of the four masks
   * keeps the bits of n it covers when there are any and records its bit in the result;
   * then the odd-bit test, then the final increment when n is non-zero. Started on a value
   * whose bit 31 is clear, it ends at the bit length.
   */
  lemma IgnoreLastBitStages(n0: bv32, n1: bv32, r1: bv32, n2: bv32, r2: bv32, n3: bv32, r3: bv32,
                            n4: bv32, r4: bv32, r5: bv32, r: bv32)
    requires n0 < 0x8000_0000
    requires n1 == (if n0 & 0x7fff_0000 != 0 then n0 & 0x7fff_0000 else n0)
    requires r1 == (if n0 & 0x7fff_0000 != 0 then 0x10 else 0)
    requires n2 == (if n1 & 0x7f00_ff00 != 0 then n1 & 0x7f00_ff00 else n1)
    requires r2 == (if n1 & 0x7f00_ff00 != 0 then r1 | 0x8 else r1)
    requires n3 == (if n2 & 0x70f0_f0f0 != 0 then n2 & 0x70f0_f0f0 else n2)
    requires r3 == (if n2 & 0x70f0_f0f0 != 0 then r2 | 0x4 else r2)
    requires n4 == (if n3 & 0x4ccc_cccc != 0 then n3 & 0x4ccc_cccc else n3)
    requires r4 == (if n3 & 0x4ccc_cccc != 0 then r3 | 0x2 else r3)
    requires r5 == (if n4 & 0x2aaa_aaaa != 0 then r4 | 0x1 else r4)
    requires r == (if n4 != 0 then r5 + 1 else r5)
    ensures r == BitLength32(n0)
  {
    assert HasBitLength32(n0, r);
    BitLength32Meaning(n0, 32);
    BitLength32Unique(n0, r, BitLength32(n0));
  }

  /**
   * With bit 31 set and some other bit set too, no mask covers bit 31, so the search ends
   * at the bit length of the other 31 bits.
   */
  lemma IgnoreLastBitTopStages(n0: bv32, n1: bv32, r1: bv32, n2: bv32, r2: bv32, n3: bv32, r3: bv32,
                               n4: bv32, r4: bv32, r5: bv32, r: bv32)
    requires n0 > 0x8000_0000
    requires n1 == (if n0 & 0x7fff_0000 != 0 then n0 & 0x7fff_0000 else n0)
    requires r1 == (if n0 & 0x7fff_0000 != 0 then 0x10 else 0)
    requires n2 == (if n1 & 0x7f00_ff00 != 0 then n1 & 0x7f00_ff00 else n1)
    requires r2 == (if n1 & 0x7f00_ff00 != 0 then r1 | 0x8 else r1)
    requires n3 == (if n2 & 0x70f0_f0f0 != 0 then n2 & 0x70f0_f0f0 else n2)
    requires r3 == (if n2 & 0x70f0_f0f0 != 0 then r2 | 0x4 else r2)
    requires n4 == (if n3 & 0x4ccc_cccc != 0 then n3 & 0x4ccc_cccc else n3)
    requires r4 == (if n3 & 0x4ccc_cccc != 0 then r3 | 0x2 else r3)
    requires r5 == (if n4 & 0x2aaa_aaaa != 0 then r4 | 0x1 else r4)
    requires r == (if n4 != 0 then r5 + 1 else r5)
    ensures r == BitLength32(n0 & 0x7fff_ffff)
  {
    var m0 := n0 & 0x7fff_ffff;
    assert HasBitLength32(m0, r);
    BitLength32Meaning(m0, 32);
    BitLength32Unique(m0, r, BitLength32(m0));
  }

  /** 2^31 alone: no mask keeps anything, yet n is still non-zero, so the final increment gives 1. */
  lemma IgnoreLastBitOnlyTop(n0: bv32, n1: bv32, r1: bv32, n2: bv32, r2: bv32, n3: bv32, r3: bv32,
                             n4: bv32, r4: bv32, r5: bv32, r: bv32)
    requires n0 == 0x8000_0000
    requires n1 == (if n0 & 0x7fff_0000 != 0 then n0 & 0x7fff_0000 else n0)
    requires r1 == (if n0 & 0x7fff_0000 != 0 then 0x10 else 0)
    requires n2 == (if n1 & 0x7f00_ff00 != 0 then n1 & 0x7f00_ff00 else n1)
    requires r2 == (if n1 & 0x7f00_ff00 != 0 then r1 | 0x8 else r1)
    requires n3 == (if n2 & 0x70f0_f0f0 != 0 then n2 & 0x70f0_f0f0 else n2)
    requires r3 == (if n2 & 0x70f0_f0f0 != 0 then r2 | 0x4 else r2)
    requires n4 == (if n3 & 0x4ccc_cccc != 0 then n3 & 0x4ccc_cccc else n3)
    requires r4 == (if n3 & 0x4ccc_cccc != 0 then r3 | 0x2 else r3)
    requires r5 == (if n4 & 0x2aaa_aaaa != 0 then r4 | 0x1 else r4)
    requires r == (if n4 != 0 then r5 + 1 else r5)
    ensures r == 1
  {
  }

  /**
   * significant_bit_ignore_last_bit (algorithm.hpp:94-106): the search of significant_bit
   * with bit 31 left out of every mask. With bit 31 clear it is the bit length. With bit 31
   * set it is the bit length of the other 31 bits, except for 2^31 alone, where it is 1.
   */
  method SignificantBitIgnoreLastBit(n0: bv32) returns (r: bv32)
    ensures n0 < 0x8000_0000 ==> r == BitLength32(n0)
    ensures n0 == 0x8000_0000 ==> r == 1
    ensures n0 > 0x8000_0000 ==> r == BitLength32(n0 & 0x7fff_ffff)
  {
    var n := n0;
    var y: bv32 := 0;
    var result: bv32 := 0;
    y := n & 0x7fff_0000;
    if y != 0 { result := result | 0x10; n := y; }
    ghost var n1, r1 := n, result;
    y := n & 0x7f00_ff00;
    if y != 0 { result := result | 0x8; n := y; }
    ghost var n2, r2 := n, result;
    y := n & 0x70f0_f0f0;
    if y != 0 { result := result | 0x4; n := y; }
    ghost var n3, r3 := n, result;
    y := n & 0x4ccc_cccc;
    if y != 0 { result := result | 0x2; n := y; }
    ghost var r4 := result;
    if n & 0x2aaa_aaaa != 0 { result := result | 0x1; }
    ghost var r5 := result;
    if n != 0 {
      result := result + 1;
    }
    r := result;
    if n0 < 0x8000_0000 {
      IgnoreLastBitStages(n0, n1, r1, n2, r2, n3, r3, n, r4, r5, r);
    } else if n0 == 0x8000_0000 {
      IgnoreLastBitOnlyTop(n0, n1, r1, n2, r2, n3, r3, n, r4, r5, r);
    } else {
      IgnoreLastBitTopStages(n0, n1, r1, n2, r2, n3, r3, n, r4, r5, r);
    }
  }

  /** The generic significant_bit (algorithm.hpp:51-54) at u64, counted as a nat. */
  function BitLength64(n: bv64): nat
    decreases n
  {
    if n == 0 then 0 else 1 + BitLength64(n >> 1)
  }
  /** Removing the lowest h bits of a number that keeps a bit above them removes h from its bit length. */
  lemma BitLength64Split1(n: bv64)
    requires n >> 1 != 0
    ensures BitLength64(n) == 1 + BitLength64(n >> 1)
  {
  }
  /**
   * The state of the u64 search: n is m moved up to bit position low, m has fewer than
   * width bits, and low is a multiple of width, so every set bit of n lies in
   * [low, low + width).
   */
  predicate Window64(n: bv64, m: bv64, low: bv64, width: bv64)
  {
    low < 64 && low & (width - 1) == 0 && (width < 64 ==> m >> width == 0) && n == m << low
  }
  /** Or-ing a bit that is clear in a small position adds it. */
  lemma OrAddsBit(low: bv64, bit: bv64)
    requires low < 64 && bit < 64 && low & bit == 0
    ensures (low | bit) as int == low as int + bit as int
  {
  }

  lemma BitLength64Split2(n: bv64)
    requires n >> 2 != 0
    ensures BitLength64(n) == 2 + BitLength64(n >> 2)
  {
    assert (n >> 1) >> 1 == n >> 2;
    BitLength64Split1(n);
    BitLength64Split1(n >> 1);
  }
  lemma BitLength64Split4(n: bv64)
    requires n >> 4 != 0
    ensures BitLength64(n) == 4 + BitLength64(n >> 4)
  {
    assert (n >> 2) >> 2 == n >> 4;
    BitLength64Split2(n);
    BitLength64Split2(n >> 2);
  }
  lemma BitLength64Split8(n: bv64)
    requires n >> 8 != 0
    ensures BitLength64(n) == 8 + BitLength64(n >> 8)
  {
    assert (n >> 4) >> 4 == n >> 8;
    BitLength64Split4(n);
    BitLength64Split4(n >> 4);
  }
  lemma BitLength64Split16(n: bv64)
    requires n >> 16 != 0
    ensures BitLength64(n) == 16 + BitLength64(n >> 16)
  {
    assert (n >> 8) >> 8 == n >> 16;
    BitLength64Split8(n);
    BitLength64Split8(n >> 8);
  }
  lemma BitLength64Split32(n: bv64)
    requires n >> 32 != 0
    ensures BitLength64(n) == 32 + BitLength64(n >> 32)
  {
    assert (n >> 16) >> 16 == n >> 32;
    BitLength64Split16(n);
    BitLength64Split16(n >> 16);
  }
  /** Each mask of the search tests the upper half of the window and leaves a window half as wide. */
  lemma Window64Halves64(n: bv64, m: bv64, low: bv64)
    requires Window64(n, m, low, 64)
    ensures (n & 0xffffffff00000000 != 0) == (m >> 32 != 0)
    ensures low < 64 && low & 32 == 0
    ensures n & 0xffffffff00000000 != 0 ==> Window64(n & 0xffffffff00000000, m >> 32, low | 32, 32)
    ensures n & 0xffffffff00000000 == 0 ==> Window64(n, m, low, 32)
  {
  }
  lemma Window64Halves32(n: bv64, m: bv64, low: bv64)
    requires Window64(n, m, low, 32)
    ensures (n & 0xffff0000ffff0000 != 0) == (m >> 16 != 0)
    ensures low < 64 && low & 16 == 0
    ensures n & 0xffff0000ffff0000 != 0 ==> Window64(n & 0xffff0000ffff0000, m >> 16, low | 16, 16)
    ensures n & 0xffff0000ffff0000 == 0 ==> Window64(n, m, low, 16)
  {
  }
  lemma Window64Halves16(n: bv64, m: bv64, low: bv64)
    requires Window64(n, m, low, 16)
    ensures (n & 0xff00ff00ff00ff00 != 0) == (m >> 8 != 0)
    ensures low < 64 && low & 8 == 0
    ensures n & 0xff00ff00ff00ff00 != 0 ==> Window64(n & 0xff00ff00ff00ff00, m >> 8, low | 8, 8)
    ensures n & 0xff00ff00ff00ff00 == 0 ==> Window64(n, m, low, 8)
  {
  }
  lemma Window64Halves8(n: bv64, m: bv64, low: bv64)
    requires Window64(n, m, low, 8)
    ensures (n & 0xf0f0f0f0f0f0f0f0 != 0) == (m >> 4 != 0)
    ensures low < 64 && low & 4 == 0
    ensures n & 0xf0f0f0f0f0f0f0f0 != 0 ==> Window64(n & 0xf0f0f0f0f0f0f0f0, m >> 4, low | 4, 4)
    ensures n & 0xf0f0f0f0f0f0f0f0 == 0 ==> Window64(n, m, low, 4)
  {
  }
  lemma Window64Halves4(n: bv64, m: bv64, low: bv64)
    requires Window64(n, m, low, 4)
    ensures (n & 0xcccccccccccccccc != 0) == (m >> 2 != 0)
    ensures low < 64 && low & 2 == 0
    ensures n & 0xcccccccccccccccc != 0 ==> Window64(n & 0xcccccccccccccccc, m >> 2, low | 2, 2)
    ensures n & 0xcccccccccccccccc == 0 ==> Window64(n, m, low, 2)
  {
  }
  lemma Window64Halves2(n: bv64, m: bv64, low: bv64)
    requires Window64(n, m, low, 2)
    ensures (n & 0xaaaaaaaaaaaaaaaa != 0) == (m >> 1 != 0)
    ensures low < 64 && low & 1 == 0
    ensures (n != 0) == (m != 0)
  {
  }
  /** Moving the window to its upper half moves the count of m's bits into the result. */
  lemma Window64Count64(n: bv64, m: bv64, low: bv64)
    requires (n & 0xffffffff00000000 != 0) == (m >> 32 != 0) && low < 64 && low & 32 == 0
    ensures n & 0xffffffff00000000 != 0 ==> (low | 32) as int + BitLength64(m >> 32) == low as int + BitLength64(m)
  {
    if n & 0xffffffff00000000 != 0 {
      BitLength64Split32(m);
      OrAddsBit(low, 32);
    }
  }
  lemma Window64Count32(n: bv64, m: bv64, low: bv64)
    requires (n & 0xffff0000ffff0000 != 0) == (m >> 16 != 0) && low < 64 && low & 16 == 0
    ensures n & 0xffff0000ffff0000 != 0 ==> (low | 16) as int + BitLength64(m >> 16) == low as int + BitLength64(m)
  {
    if n & 0xffff0000ffff0000 != 0 {
      BitLength64Split16(m);
      OrAddsBit(low, 16);
    }
  }
  lemma Window64Count16(n: bv64, m: bv64, low: bv64)
    requires (n & 0xff00ff00ff00ff00 != 0) == (m >> 8 != 0) && low < 64 && low & 8 == 0
    ensures n & 0xff00ff00ff00ff00 != 0 ==> (low | 8) as int + BitLength64(m >> 8) == low as int + BitLength64(m)
  {
    if n & 0xff00ff00ff00ff00 != 0 {
      BitLength64Split8(m);
      OrAddsBit(low, 8);
    }
  }
  lemma Window64Count8(n: bv64, m: bv64, low: bv64)
    requires (n & 0xf0f0f0f0f0f0f0f0 != 0) == (m >> 4 != 0) && low < 64 && low & 4 == 0
    ensures n & 0xf0f0f0f0f0f0f0f0 != 0 ==> (low | 4) as int + BitLength64(m >> 4) == low as int + BitLength64(m)
  {
    if n & 0xf0f0f0f0f0f0f0f0 != 0 {
      BitLength64Split4(m);
      OrAddsBit(low, 4);
    }
  }
  lemma Window64Count4(n: bv64, m: bv64, low: bv64)
    requires (n & 0xcccccccccccccccc != 0) == (m >> 2 != 0) && low < 64 && low & 2 == 0
    ensures n & 0xcccccccccccccccc != 0 ==> (low | 2) as int + BitLength64(m >> 2) == low as int + BitLength64(m)
  {
    if n & 0xcccccccccccccccc != 0 {
      BitLength64Split2(m);
      OrAddsBit(low, 2);
    }
  }
  lemma IncrementSmall(x: bv64)
    requires x < 64
    ensures (x + 1) as int == x as int + 1
  {
  }
  /** The last two steps (result |= 1 when bit 1 of the window is set, then ++result when n != 0) count the bits left in m. */
  lemma LastStepHigh64(n: bv64, m: bv64, low: bv64)
    requires Window64(n, m, low, 2) && n & 0xaaaa_aaaa_aaaa_aaaa != 0
    ensures ((low | 1) + 1) as int == low as int + BitLength64(m)
  {
    Window64Halves2(n, m, low);
    assert m >> 1 == 1;
    assert BitLength64(m >> 1) == 1;
    BitLength64Split1(m);
    OrAddsBit(low, 1);
    IncrementSmall(low | 1);
  }
  lemma LastStepLow64(n: bv64, m: bv64, low: bv64)
    requires Window64(n, m, low, 2) && n & 0xaaaa_aaaa_aaaa_aaaa == 0
    ensures n != 0 ==> (low + 1) as int == low as int + BitLength64(m)
    ensures n == 0 ==> BitLength64(m) == 0
  {
    Window64Halves2(n, m, low);
    if n != 0 {
      assert m == 1;
      assert BitLength64(m) == 1;
      IncrementSmall(low);
    }
  }
  /**
   * if ((y = (n & mask))) { result |= bit; n = y; } of the u64 significant_bit, one method per
   * mask so that each step of the search is proved on its own; m and count are the proof's
   * view of the window.
   */
  method Narrow64To32(n: bv64, result: bv64, ghost m: bv64, ghost count: nat)
    returns (n': bv64, result': bv64, ghost m': bv64, ghost count': nat)
    requires Window64(n, m, result, 64) && result as int == count
    ensures Window64(n', m', result', 32) && result' as int == count'
    ensures count' + BitLength64(m') == count + BitLength64(m)
  {
    Window64Halves64(n, m, result);
    Window64Count64(n, m, result);
    n', result', m', count' := n, result, m, count;
    var y := n & 0xffffffff00000000;
    if y != 0 {
      result' := result | 0x20;
      n' := y;
      m' := m >> 32;
      count' := count + 32;
    }
  }
  method Narrow64To16(n: bv64, result: bv64, ghost m: bv64, ghost count: nat)
    returns (n': bv64, result': bv64, ghost m': bv64, ghost count': nat)
    requires Window64(n, m, result, 32) && result as int == count
    ensures Window64(n', m', result', 16) && result' as int == count'
    ensures count' + BitLength64(m') == count + BitLength64(m)
  {
    Window64Halves32(n, m, result);
    Window64Count32(n, m, result);
    n', result', m', count' := n, result, m, count;
    var y := n & 0xffff0000ffff0000;
    if y != 0 {
      result' := result | 0x10;
      n' := y;
      m' := m >> 16;
      count' := count + 16;
    }
  }
  method Narrow64To8(n: bv64, result: bv64, ghost m: bv64, ghost count: nat)
    returns (n': bv64, result': bv64, ghost m': bv64, ghost count': nat)
    requires Window64(n, m, result, 16) && result as int == count
    ensures Window64(n', m', result', 8) && result' as int == count'
    ensures count' + BitLength64(m') == count + BitLength64(m)
  {
    Window64Halves16(n, m, result);
    Window64Count16(n, m, result);
    n', result', m', count' := n, result, m, count;
    var y := n & 0xff00ff00ff00ff00;
    if y != 0 {
      result' := result | 0x8;
      n' := y;
      m' := m >> 8;
      count' := count + 8;
    }
  }
  method Narrow64To4(n: bv64, result: bv64, ghost m: bv64, ghost count: nat)
    returns (n': bv64, result': bv64, ghost m': bv64, ghost count': nat)
    requires Window64(n, m, result, 8) && result as int == count
    ensures Window64(n', m', result', 4) && result' as int == count'
    ensures count' + BitLength64(m') == count + BitLength64(m)
  {
    Window64Halves8(n, m, result);
    Window64Count8(n, m, result);
    n', result', m', count' := n, result, m, count;
    var y := n & 0xf0f0f0f0f0f0f0f0;
    if y != 0 {
      result' := result | 0x4;
      n' := y;
      m' := m >> 4;
      count' := count + 4;
    }
  }
  method Narrow64To2(n: bv64, result: bv64, ghost m: bv64, ghost count: nat)
    returns (n': bv64, result': bv64, ghost m': bv64, ghost count': nat)
    requires Window64(n, m, result, 4) && result as int == count
    ensures Window64(n', m', result', 2) && result' as int == count'
    ensures count' + BitLength64(m') == count + BitLength64(m)
  {
    Window64Halves4(n, m, result);
    Window64Count4(n, m, result);
    n', result', m', count' := n, result, m, count;
    var y := n & 0xcccccccccccccccc;
    if y != 0 {
      result' := result | 0x2;
      n' := y;
      m' := m >> 2;
      count' := count + 2;
    }
  }
  /** The tail of the u64 significant_bit: the 0xaaaa... test and the final ++result. */
  method FinishSearch64(n: bv64, result: bv64, ghost m: bv64, ghost count: nat) returns (r: bv64)
    requires Window64(n, m, result, 2) && result as int == count
    ensures r as int == count + BitLength64(m)
  {
    r := result;
    if n & 0xaaaa_aaaa_aaaa_aaaa != 0 {
      LastStepHigh64(n, m, result);
      r := r | 0x1;
    } else {
      LastStepLow64(n, m, result);
    }
    if n != 0 {
      r := r + 1;
    }
  }
  /** The branch-free significant_bit for u64 (algorithm.hpp:77-93): it computes the generic bit length. */
  method SignificantBit64(n0: bv64) returns (r: bv64)
    ensures r as int == BitLength64(n0)
  {
    var n := n0;
    var result: bv64 := 0;
    ghost var m, count := n0, 0;
    n, result, m, count := Narrow64To32(n, result, m, count);
    n, result, m, count := Narrow64To16(n, result, m, count);
    n, result, m, count := Narrow64To8(n, result, m, count);
    n, result, m, count := Narrow64To4(n, result, m, count);
    n, result, m, count := Narrow64To2(n, result, m, count);
    r := FinishSearch64(n, result, m, count);
  }

  // ---------------------------------------------------------------------
  // single bits
  // ---------------------------------------------------------------------

  /** get_bit (algorithm.hpp:108-111): value & (1 << position) is non-zero. */
  function GetBit(value: bv32, position: bv32): bool
    requires position < 32
  {
    value & (1 << position) != 0
  }

  /** get_bit reads bit position of the value: the lowest bit of value >> position. */
  lemma GetBitIsShiftedBit(value: bv32, position: bv32)
    requires position < 32
    ensures GetBit(value, position) <==> (value >> position) & 1 == 1
  {
  }

  lemma DistinctMasks(p: bv32, q: bv32)
    requires p < 32 && q < 32 && p != q
    ensures (1 << p) & (1 << q) == 0 as bv32
  {
  }

  lemma OrDisjoint(v: bv32, m: bv32, n: bv32)
    requires m & n == 0
    ensures (v | m) & n == v & n
  {
  }

  lemma AndNotDisjoint(v: bv32, m: bv32, n: bv32)
    requires m & n == 0
    ensures (v & !m) & n == v & n
  {
  }

  /** m has exactly one bit set. */
  predicate SingleBit(m: bv32)
  {
    m != 0 && m & (m - 1) == 0
  }

  lemma OneShifted(q: bv32)
    requires q < 32
    ensures SingleBit(1 << q)
  {
  }

  lemma NotOnBit(v: bv32, m: bv32)
    requires SingleBit(m)
    ensures (!v & m != 0) <==> !(v & m != 0)
  {
  }

  /** The mask ~0 << position holds bit q exactly when q >= position. */
  lemma HighMask(position: bv32, q: bv32)
    requires position < 32 && q < 32
    ensures q >= position ==> (1 as bv32 << q) & (!(0 as bv32) << position) == 1 as bv32 << q
    ensures q < position ==> (1 as bv32 << q) & (!(0 as bv32) << position) == 0
  {
  }

  /** Blending v under mask big with ~v outside it, read at a single bit m. */
  lemma Blend(v: bv32, big: bv32, m: bv32)
    requires SingleBit(m)
    ensures m & big == m ==> (((v & big) | (!v & !big)) & m != 0 <==> v & m != 0)
    ensures m & big == 0 ==> (((v & big) | (!v & !big)) & m != 0 <==> v & m == 0)
  {
  }

  /** No bit at or above the bit length is set. */
  lemma AboveTopClear(value: bv32, top: bv32, q: bv32)
    requires HasBitLength32(value, top) && top <= q < 32
    ensures !GetBit(value, q)
  {
  }

  /** Setting a bit leaves every other bit as it was. */
  lemma SettingKeepsOtherBit(value: bv32, p: bv32, q: bv32)
    requires p < 32 && q < 32 && q != p
    ensures GetBit(value | (1 << p), q) == GetBit(value, q)
  {
    DistinctMasks(p, q);
    OrDisjoint(value, 1 << p, 1 << q);
  }

  /** Clearing a bit leaves every other bit as it was. */
  lemma ClearingKeepsOtherBit(value: bv32, p: bv32, q: bv32)
    requires p < 32 && q < 32 && q != p
    ensures GetBit(value & !(1 << p), q) == GetBit(value, q)
  {
    DistinctMasks(p, q);
    AndNotDisjoint(value, 1 << p, 1 << q);
  }

  /** set_bit_copied (algorithm.hpp:116-119): the value with bit position set to flag. */
  function SetBitCopied(value: bv32, position: bv32, flag: bool): (r: bv32)
    requires position < 32
    ensures GetBit(r, position) == flag
  {
    if flag then value | (1 << position) else value & !(1 << position)
  }

  /** set_bit changes no bit other than the one at position. */
  lemma SetBitKeepsOtherBits(value: bv32, position: bv32, flag: bool, q: bv32)
    requires position < 32 && q < 32 && q != position
    ensures GetBit(SetBitCopied(value, position, flag), q) == GetBit(value, q)
  {
    if flag {
      SettingKeepsOtherBit(value, position, q);
    } else {
      ClearingKeepsOtherBit(value, position, q);
    }
  }

  /** set_bit (algorithm.hpp:112-115), on the value its reference parameter holds. */
  method SetBit(value: bv32, position: bv32, flag: bool) returns (updated: bv32)
    requires position < 32
    ensures updated == SetBitCopied(value, position, flag)
  {
    updated := if flag then value | (1 << position) else value & !(1 << position);
  }

  /** The value toggle_bit (algorithm.hpp:122-125) stores: bit position cleared if set, set if clear. */
  function ToggledBit(value: bv32, position: bv32): (r: bv32)
    requires position < 32
    ensures GetBit(r, position) == !GetBit(value, position)
  {
    if value & (1 << position) != 0 then value & !(1 << position) else value | (1 << position)
  }

  /** toggle_bit changes no bit other than the one at position. */
  lemma ToggleKeepsOtherBits(value: bv32, position: bv32, q: bv32)
    requires position < 32 && q < 32 && q != position
    ensures GetBit(ToggledBit(value, position), q) == GetBit(value, q)
  {
    if GetBit(value, position) {
      ClearingKeepsOtherBit(value, position, q);
    } else {
      SettingKeepsOtherBit(value, position, q);
    }
  }

  /** Toggling the same bit twice restores the value. */
  lemma ToggleTwice(value: bv32, position: bv32)
    requires position < 32
    ensures ToggledBit(ToggledBit(value, position), position) == value
  {
  }

  /** toggle_bit (algorithm.hpp:122-125), on the value its reference parameter holds. */
  method ToggleBit(value: bv32, position: bv32) returns (updated: bv32)
    requires position < 32
    ensures updated == ToggledBit(value, position)
  {
    updated := if value & (1 << position) != 0 then value & !(1 << position) else value | (1 << position);
  }

  // ---------------------------------------------------------------------
  // flipping bits
  // ---------------------------------------------------------------------

  /** flipped_bits (algorithm.hpp:131-134): ~value. */
  function FlippedBits(value: bv32): bv32
  {
    !value
  }

  /** flipped_bits inverts every bit. */
  lemma FlippedBitsInvertsEachBit(value: bv32, q: bv32)
    requires q < 32
    ensures GetBit(FlippedBits(value), q) == !GetBit(value, q)
  {
    OneShifted(q);
    NotOnBit(value, 1 << q);
  }

  /** flip_bits (algorithm.hpp:127-130), on the value its reference parameter holds. */
  method FlipBits(value: bv32) returns (updated: bv32)
    ensures updated == FlippedBits(value)
  {
    updated := !value;
  }

  /**
   * flipped_bits_until (algorithm.hpp:139-142): the bits at and above position are kept
   * through the mask ~0 << position, the bits below are taken from ~value.
   */
  function FlippedBitsUntil(value: bv32, position: bv32): bv32
    requires position < 32
  {
    (value & (!0 << position)) | (!value & !(!0 << position))
  }

  /** flipped_bits_until inverts exactly the bits below position. */
  lemma FlippedBitsUntilBits(value: bv32, position: bv32, q: bv32)
    requires position < 32 && q < 32
    ensures GetBit(FlippedBitsUntil(value, position), q) == if q < position then !GetBit(value, q) else GetBit(value, q)
  {
    OneShifted(q);
    HighMask(position, q);
    Blend(value, !0 << position, 1 << q);
  }

  /** flip_bits_until (algorithm.hpp:135-138), on the value its reference parameter holds. */
  method FlipBitsUntil(value: bv32, position: bv32) returns (updated: bv32)
    requires position < 32
    ensures updated == FlippedBitsUntil(value, position)
  {
    updated := (value & (!0 << position)) | (!value & !(!0 << position));
  }

  /**
   * flipped_bits_until_msb (algorithm.hpp:147-150) as written: flipped_bits_until at
   * significant_bit(value). When bit 31 is set that position is 32, and ~0u << 32 is
   * undefined; None stands for that case.
   */
  function FlippedBitsUntilMsbAsWritten(value: bv32): Option<bv32>
  {
    var top := BitLength32(value);
    BitLength32Meaning(value, 32);
    if top < 32 then Some(FlippedBitsUntil(value, top)) else None
  }

  /** Every value with bit 31 set drives flipped_bits_until_msb into a shift by 32. */
  lemma FlipUntilMsbShiftsByWidth(value: bv32)
    requires value >= 0x8000_0000
    ensures BitLength32(value) == 32
    ensures FlippedBitsUntilMsbAsWritten(value) == None
  {
    BitLength32Meaning(value, 32);
  }

  /** The smallest such input: 2^31. */
  lemma FlipUntilMsbCounterexample()
    ensures FlippedBitsUntilMsbAsWritten(0x8000_0000) == None
  {
    FlipUntilMsbShiftsByWidth(0x8000_0000);
  }

  /**
   * flipped_bits_until_msb as evidently intended: every bit up to and including the most
   * significant set bit is inverted, which for a value with bit 31 set is ~value.
   */
  function FlippedBitsUntilMsb(value: bv32): bv32
  {
    var top := BitLength32(value);
    BitLength32Meaning(value, 32);
    if top < 32 then FlippedBitsUntil(value, top) else !value
  }

  /** Below the top bit every bit is inverted; the top bit and all above it end up clear. */
  lemma FlippedBitsUntilMsbBits(value: bv32, q: bv32)
    requires q < 32
    ensures GetBit(FlippedBitsUntilMsb(value), q) == (q < BitLength32(value) && !GetBit(value, q))
  {
    BitLength32Meaning(value, 32);
    var top := BitLength32(value);
    if top < 32 {
      FlippedBitsUntilBits(value, top, q);
      if q >= top {
        AboveTopClear(value, top, q);
      }
    } else {
      FlippedBitsInvertsEachBit(value, q);
    }
  }

  /** Wherever the source is defined, the corrected flip computes the same value. */
  lemma FlippedBitsUntilMsbAgrees(value: bv32)
    requires value < 0x8000_0000
    ensures FlippedBitsUntilMsbAsWritten(value) == Some(FlippedBitsUntilMsb(value))
  {
    BitLength32Meaning(value, 31);
  }

  /** flip_bits_until_msb (algorithm.hpp:143-146) as evidently intended, on the value its reference parameter holds. */
  method FlipBitsUntilMsb(value: bv32) returns (updated: bv32)
    ensures updated == FlippedBitsUntilMsb(value)
  {
    var top := SignificantBit32(value);
    BitLength32Meaning(value, 32);
    if top < 32 {
      updated := FlipBitsUntil(value, top);
    } else {
      updated := FlipBits(value);
    }
  }

  // ---------------------------------------------------------------------
  // reversing and rotating
  // ---------------------------------------------------------------------

  /**
   * reverse_bits for u32 (algorithm.hpp:155-162): swaps neighbouring bits, then pairs,
   * nibbles, bytes and half-words, which mirrors the word: bit q moves to bit 31 - q.
   */
  method ReverseBits32(value0: bv32) returns (value: bv32)
    ensures forall q: bv32 :: q < 32 ==> GetBit(value, q) == GetBit(value0, 31 - q)
  {
    value := value0;
    value := ((value >> 1) & 0x5555_5555) | ((value & 0x5555_5555) << 1);
    value := ((value >> 2) & 0x3333_3333) | ((value & 0x3333_3333) << 2);
    value := ((value >> 4) & 0x0f0f_0f0f) | ((value & 0x0f0f_0f0f) << 4);
    value := ((value >> 8) & 0x00ff_00ff) | ((value & 0x00ff_00ff) << 8);
    value := ((value >> 16) & 0xffff) | ((value & 0xffff) << 16);
  }

  /**
   * rotate_left on u8 (algorithm.hpp:484-487): a rotation of 8 or more is first reduced
   * modulo 8; otherwise (val << rotation) | (val >> (8 - rotation)), truncated to 8 bits.
   * The amount is a qpl::size, an unsigned 64-bit integer.
   */
  function RotateLeft8(val: bv8, rotation: bv64): (r: bv8)
    ensures r == val.RotateLeft((rotation % 8) as nat)
  {
    if rotation >= 8 then RotateLeft8(val, rotation % 8) else ShiftLeftAround(val, rotation as bv8)
  }

  /** rotate_right on u8 (algorithm.hpp:488-491): the mirror image of rotate_left. */
  function RotateRight8(val: bv8, rotation: bv64): (r: bv8)
    ensures r == val.RotateRight((rotation % 8) as nat)
  {
    if rotation >= 8 then RotateRight8(val, rotation % 8) else ShiftRightAround(val, rotation as bv8)
  }

  /** The shift formula of rotate_left for an amount below 8. */
  function ShiftLeftAround(val: bv8, k: bv8): (r: bv8)
    requires k < 8
    ensures r == val.RotateLeft(k as nat)
  {
    (val << k) | (val >> (8 - k))
  }

  /** The shift formula of rotate_right for an amount below 8. */
  function ShiftRightAround(val: bv8, k: bv8): (r: bv8)
    requires k < 8
    ensures r == val.RotateRight(k as nat)
  {
    (val >> k) | (val << (8 - k))
  }

  /** Rotating right undoes rotating left by the same amount. */
  lemma RotateRightUndoesLeft(val: bv8, rotation: bv64)
    ensures RotateRight8(RotateLeft8(val, rotation), rotation) == val
  {
    var k := (rotation % 8) as bv8;
    LeftReduces(val, rotation);
    RightReduces(ShiftLeftAround(val, k), rotation);
    ShiftsCancel(val, k);
  }

  lemma LeftReduces(val: bv8, rotation: bv64)
    ensures RotateLeft8(val, rotation) == ShiftLeftAround(val, (rotation % 8) as bv8)
  {
    assert RotateLeft8(val, rotation) == RotateLeft8(val, rotation % 8);
  }

  lemma RightReduces(val: bv8, rotation: bv64)
    ensures RotateRight8(val, rotation) == ShiftRightAround(val, (rotation % 8) as bv8)
  {
    assert RotateRight8(val, rotation) == RotateRight8(val, rotation % 8);
  }

  /** The two shift formulas with the same amount below 8 undo each other. */
  lemma ShiftsCancel(val: bv8, k: bv8)
    requires k < 8
    ensures ShiftRightAround(ShiftLeftAround(val, k), k) == val
  {
  }
}
