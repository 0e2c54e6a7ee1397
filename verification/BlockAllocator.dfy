/**
 One memory span of LibAlloc's coarse allocator: a buffer tiled by allocated and free blocks, with
 splitting driven by the requested alignment and coalescing on free. Addresses and sizes are byte
 counts; an alignment is a power of two 1 << k. The block trees, ordered by size and by address, are
 maps from a block's address to its size.
 */
module BlockAllocator {

  import opened Wrappers
  import opened Arith

  const ALLOCATED_HEADER: nat := 32
  const ALIGNED_HEADER: nat := 48
  const MINIMUM_BLOCK: nat := 96

  // ----- where an allocation goes in a free block -----

  /** x rounded up to a multiple of 1 << k */
  function AlignUp(x: nat, k: nat): nat {
    if Low(x, k) == 0 then x else Shl(Shr(x, k) + 1, k)
  }

  /** computeWorstCaseAlignedSize: the free block size that is taken to suffice for a request. */
  function PaddedSize(size: nat, k: nat): nat {
    if k >= 5 then size + Shl(1, k) + ALIGNED_HEADER else size + ALLOCATED_HEADER
  }

  /** findFirstAlignedAddressAfterHeaderSpace */
  function ReturnAddress(base: nat, k: nat): nat {
    if Low(base + ALLOCATED_HEADER, k) == 0 then base + ALLOCATED_HEADER else AlignUp(base + ALIGNED_HEADER, k)
  }

  /** The header of the allocated block: just below the returned address, or at the base if too little is left below. */
  function HeaderAddress(base: nat, ret: nat): int {
    var header := (ret - ALLOCATED_HEADER) / 16 * 16;
    if header - base < MINIMUM_BLOCK then base else header
  }

  /** The end of the allocated block before it is extended over a leftover that is too small. */
  function EndAddress(base: nat, ret: nat, size: nat): int {
    (Max(ret + size, HeaderAddress(base, ret) + MINIMUM_BLOCK) + 15) / 16 * 16
  }

  function Max(a: int, b: int): int { if a >= b then a else b }

  /** For alignments above 16, the low bits of a multiple of 16 are a multiple of 16. */
  lemma LowOfSixteen(x: nat, k: nat)
    requires k >= 4
    ensures Low(x, k) == x % 16 + 16 * Low(x / 16, k - 4) && Shl(1, k) == 16 * Shl(1, k - 4)
  {
    assert Low(x, k) == x % 2 + 2 * Low(x / 2, k - 1);
    assert Low(x / 2, k - 1) == x / 2 % 2 + 2 * Low(x / 2 / 2, k - 2);
    assert Low(x / 2 / 2, k - 2) == x / 2 / 2 % 2 + 2 * Low(x / 2 / 2 / 2, k - 3);
    assert Low(x / 2 / 2 / 2, k - 3) == x / 2 / 2 / 2 % 2 + 2 * Low(x / 2 / 2 / 2 / 2, k - 4);
    assert x / 2 / 2 / 2 / 2 == x / 16;
    assert Shl(1, k) == 2 * Shl(1, k - 1) && Shl(1, k - 1) == 2 * Shl(1, k - 2);
    assert Shl(1, k - 2) == 2 * Shl(1, k - 3) && Shl(1, k - 3) == 2 * Shl(1, k - 4);
  }

  lemma LowModSixteen(x: nat, k: nat)
    requires k >= 4
    ensures Low(x, k) % 16 == x % 16 && Shl(1, k) % 16 == 0
  {
    LowOfSixteen(x, k);
    SixteenTimes(x % 16, Low(x / 16, k - 4));
    SixteenTimes(0, Shl(1, k - 4));
  }

  lemma SixteenTimes(a: nat, n: nat)
    requires a < 16
    ensures (a + 16 * n) % 16 == a
  {
  }

  lemma {:induction false} LowZeroDown(x: nat, k: nat, m: nat)
    requires k <= m && Low(x, m) == 0
    ensures Low(x, k) == 0
  {
    if k > 0 {
      LowZeroDown(x / 2, k - 1, m - 1);
    }
  }

  /** Small alignments divide 16. */
  lemma LowOfSmallAlignment(x: nat, k: nat)
    requires k <= 4 && x % 16 == 0
    ensures Low(x, k) == 0
  {
    LowOfSixteen(x, 4);
    LowZeroDown(x, k, 4);
  }

  /** What rounding up does, in terms of the multiple below and the distance from it. */
  lemma AlignUpParts(x: nat, k: nat) returns (floor: nat, low: nat)
    ensures x == floor + low && low == Low(x, k) < Shl(1, k)
    ensures forall y :: floor < y <= floor + Shl(1, k) ==> AlignUp(y, k) == floor + Shl(1, k)
    ensures low == 0 ==> AlignUp(x, k) == x
    ensures Low(floor + Shl(1, k), k) == 0
  {
    var q := Shr(x, k);
    floor, low := Shl(q, k), Low(x, k);
    ShrLow(x, k);
    ShlAdd(q, 1, k);
    ShlJoin(q + 1, 0, k);
    forall y | floor < y <= floor + Shl(1, k) ensures AlignUp(y, k) == floor + Shl(1, k) {
      if y < floor + Shl(1, k) {
        ShlJoin(q, y - floor, k);
      }
    }
  }

  /** The address to return when one is not aligned, and the longer header moves it on. */
  lemma MovedReturn(x: nat, k: nat)
    requires x % 16 == 0 && Low(x, k) > 0
    ensures k >= 5
    ensures var ret := AlignUp(x + 16, k); ret % 16 == 0 && Low(ret, k) == 0 && x + 16 <= ret <= x + Shl(1, k) - 16
  {
    UnalignedIsLarge(x, k);
    MovedUp(x, k, AlignUp(x + 16, k));
  }

  lemma UnalignedIsLarge(x: nat, k: nat)
    requires x % 16 == 0 && Low(x, k) > 0
    ensures k >= 5
  {
    if k <= 4 {
      LowOfSmallAlignment(x, k);
    }
  }

  /** How far into the block the returned address can lie. */
  lemma ReturnBounds(base: nat, k: nat)
    requires base % 16 == 0
    ensures var ret := ReturnAddress(base, k);
      && ret % 16 == 0 && Low(ret, k) == 0
      && (ret == base + ALLOCATED_HEADER || (k >= 5 && base + ALIGNED_HEADER <= ret <= base + Shl(1, k) + 16))
  {
    var x := base + ALLOCATED_HEADER;
    assert x % 16 == 0;
    if Low(x, k) > 0 {
      MovedReturn(x, k);
    }
  }

  /** The next aligned address after a header that is 16 bytes longer. */
  lemma MovedUp(x: nat, k: nat, ret: nat)
    requires k >= 5 && x % 16 == 0 && Low(x, k) > 0 && ret == AlignUp(x + 16, k)
    ensures ret % 16 == 0 && Low(ret, k) == 0 && x + 16 <= ret <= x + Shl(1, k) - 16
  {
    var align := Shl(1, k);
    var floor, low := AlignUpParts(x, k);
    LowModSixteen(x, k);
    AlignedAbove(x, floor, low, align);
  }

  lemma AlignedAbove(x: int, floor: int, low: int, align: int)
    requires x == floor + low && 0 < low < align && x % 16 == 0 && low % 16 == 0 && align % 16 == 0
    ensures floor < x + 16 <= floor + align <= x + align - 16 && (floor + align) % 16 == 0
  {
  }

  /** What an allocated block cut out of a free block looks like. */
  predicate WellCut(base: nat, free: nat, size: nat, ret: nat) {
    var header, end := HeaderAddress(base, ret), EndAddress(base, ret, size);
    && header % 16 == 0 && end % 16 == 0
    && (header == base || header - base >= MINIMUM_BLOCK)
    && (ret == header + ALLOCATED_HEADER || ret >= header + ALIGNED_HEADER)
    && ret + size <= end && header + MINIMUM_BLOCK <= end <= base + free
  }

  /** The requests for which every block of the padded size suffices. */
  predicate InScope(size: nat, k: nat) {
    size >= 17 || k <= 6
  }

  lemma CutFits(base: nat, free: nat, size: nat, k: nat)
    requires base % 16 == 0 && free % 16 == 0 && free >= MINIMUM_BLOCK && free >= PaddedSize(size, k) && InScope(size, k)
    ensures WellCut(base, free, size, ReturnAddress(base, k))
  {
    ReturnBounds(base, k);
    if k >= 5 {
      assert k <= 6 ==> Shl(1, k) <= 64 by { SmallAlignments(); }
      CutFitsLarge(base, free, size, ReturnAddress(base, k), Shl(1, k));
    } else {
      CutFitsSmall(base, free, size);
    }
  }

  lemma SmallAlignments()
    ensures Shl(1, 5) == 32 && Shl(1, 6) == 64
  {
    assert Shl(1, 5) == 2 * Shl(1, 4) == 4 * Shl(1, 3) == 8 * Shl(1, 2) == 16 * Shl(1, 1);
  }

  lemma CutFitsSmall(base: nat, free: nat, size: nat)
    requires base % 16 == 0 && free % 16 == 0 && free >= MINIMUM_BLOCK && free >= size + ALLOCATED_HEADER
    ensures WellCut(base, free, size, base + ALLOCATED_HEADER)
  {
  }

  lemma CutFitsLarge(base: nat, free: nat, size: nat, ret: nat, align: nat)
    requires base % 16 == 0 && free % 16 == 0 && free >= MINIMUM_BLOCK && free >= size + align + ALIGNED_HEADER
    requires ret % 16 == 0 && (ret == base + ALLOCATED_HEADER || base + ALIGNED_HEADER <= ret <= base + align + 16)
    requires size >= 17 || align <= 64
    ensures WellCut(base, free, size, ret)
  {
    var header := HeaderAddress(base, ret);
    assert header == (if ret - ALLOCATED_HEADER - base < MINIMUM_BLOCK then base else ret - ALLOCATED_HEADER) by {
      WholeSixteens(ret - ALLOCATED_HEADER);
    }
    SixteenAbove(Max(ret + size, header + MINIMUM_BLOCK), base + free);
  }

  lemma WholeSixteens(x: int)
    requires x % 16 == 0
    ensures x / 16 * 16 == x
  {
  }

  lemma SixteenAbove(x: nat, bound: nat)
    requires bound % 16 == 0 && x <= bound
    ensures x <= (x + 15) / 16 * 16 <= bound && (x + 15) / 16 * 16 % 16 == 0
  {
  }

  /** And they are all such requests: a smaller one with a larger alignment is cut past the end of some block. */
  lemma OutOfScopeEscapes(size: nat, k: nat) returns (base: nat, free: nat)
    requires !InScope(size, k)
    ensures base % 16 == 0 && free % 16 == 0 && free >= MINIMUM_BLOCK && free >= PaddedSize(size, k)
    ensures EndAddress(base, ReturnAddress(base, k), size) > base + free
  {
    var align := Shl(1, k);
    ShlOneMono(7, k);
    assert Shl(1, 7) == 2 * Shl(1, 6) by { SmallAlignments(); }
    SmallAlignments();
    LowModSixteen(0, k);
    base, free := align - 16, align + 64;
    EscapingReturn(k);
    assert ReturnAddress(base, k) == 2 * align;
  }

  lemma EscapingReturn(k: nat)
    requires k >= 7 && Shl(1, k) >= 128
    ensures ReturnAddress(Shl(1, k) - 16, k) == 2 * Shl(1, k)
  {
    var align := Shl(1, k);
    ShlJoin(1, 16, k);
    ShlJoin(1, 32, k);
    ShlAdd(1, 1, k);
    assert align - 16 + ALLOCATED_HEADER == align + 16 && align - 16 + ALIGNED_HEADER == align + 32;
  }
}
