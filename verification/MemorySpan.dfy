/**
 The operations of one memory span of LibAlloc's coarse allocator on its blocks. The trees of free
 blocks, by size and by address, and the tree of allocated blocks are maps from address to size.
 */
module MemorySpan {

  import opened Wrappers
  import opened Arith
  import opened BlockAllocator
  import opened BlockTiling

  /** A block is a multiple of 16 bytes at a multiple of 16, and no smaller than the minimum. */
  predicate SizeOk(a: nat, size: nat) {
    a % 16 == 0 && size % 16 == 0 && size >= MINIMUM_BLOCK
  }

  ghost predicate SizesOk(blocks: Blocks) {
    forall a {:trigger SizeOk(a, blocks[a])} :: a in blocks ==> SizeOk(a, blocks[a])
  }

  const SIZE_LIMIT: nat := 0x1_0000_0000

  /** size(): the field masked with a 32-bit constant, which drops the two low bits and all bits above the 32nd. */
  function ReadSize(sizeAndColor: nat): nat {
    var low := sizeAndColor % SIZE_LIMIT;
    low - low % 4
  }

  /** Exactly the sizes below 4 GiB are read back as they were written. */
  lemma ReadSizeExact(size: nat)
    requires size % 16 == 0
    ensures ReadSize(size) == size <==> size < SIZE_LIMIT
  {
    var q := size / 16;
    assert size == 4 * (4 * q);
    assert size < SIZE_LIMIT ==> size % SIZE_LIMIT == size;
  }

  ghost predicate Readable(blocks: Blocks) {
    forall a {:trigger ReadSize(blocks[a])} :: a in blocks ==> ReadSize(blocks[a]) == blocks[a]
  }

  lemma FreeReadable(free: Blocks, used: Blocks, start: nat, end: nat)
    requires Shared(free, used, start, end) && SizesOk(free) && end - start < SIZE_LIMIT
    ensures Readable(free)
  {
    forall a | a in free ensures ReadSize(free[a]) == free[a] {
      assert SizeOk(a, free[a]) && BlockOk(free + used, start, end, a);
      ReadSizeExact(free[a]);
    }
  }

  lemma UsedReadable(free: Blocks, used: Blocks, start: nat, end: nat)
    requires Shared(free, used, start, end) && SizesOk(used) && end - start < SIZE_LIMIT
    ensures Readable(used)
  {
    forall a | a in used ensures ReadSize(used[a]) == used[a] {
      assert SizeOk(a, used[a]) && BlockOk(free + used, start, end, a);
      ReadSizeExact(used[a]);
    }
  }

  /** No free block ends where another begins. */
  ghost predicate Lonely(free: Blocks, a: nat)
    requires a in free
  {
    a + free[a] !in free
  }

  ghost predicate NoneAdjacent(free: Blocks) {
    forall a {:trigger Lonely(free, a)} :: a in free ==> Lonely(free, a)
  }

  /** The largest size, 0 when there is no block. */
  ghost predicate IsLargest(blocks: Blocks, size: nat) {
    (forall a :: a in blocks ==> blocks[a] <= size) && (if blocks == map[] then size == 0 else exists a :: a in blocks && blocks[a] == size)
  }

  lemma LargestWith(blocks: Blocks, a: nat, size: nat, largest: nat)
    requires IsLargest(blocks, largest) && a !in blocks
    ensures IsLargest(blocks[a := size], if size > largest then size else largest)
  {
    var more := blocks[a := size];
    assert a in more;
    if blocks != map[] {
      var b :| b in blocks && blocks[b] == largest;
      assert b in more && more[b] == largest;
    }
  }

  lemma LargestWithout(blocks: Blocks, a: nat, largest: nat)
    requires IsLargest(blocks, largest) && a in blocks && blocks[a] != largest
    ensures IsLargest(blocks - {a}, largest)
  {
    var b :| b in blocks && blocks[b] == largest;
    assert b in blocks - {a};
  }

  /** The order of the tree of free blocks: by size, then by address. */
  predicate Precedes(blocks: Blocks, a: nat, b: nat)
    requires a in blocks && b in blocks
  {
    blocks[a] < blocks[b] || (blocks[a] == blocks[b] && a <= b)
  }

  predicate IsCeil(blocks: Blocks, size: nat, a: nat) {
    a in blocks && size <= blocks[a]
    && forall b {:trigger Precedes(blocks, a, b)} :: b in blocks && size <= blocks[b] ==> Precedes(blocks, a, b)
  }

  lemma {:induction false} CeilExists(blocks: Blocks, size: nat, some: nat) returns (a: nat)
    requires some in blocks && size <= blocks[some]
    ensures IsCeil(blocks, size, a)
    decreases |blocks|
  {
    var rest := blocks - {some};
    a := some;
    if other :| other in rest && size <= rest[other] {
      var b := CeilExists(rest, size, other);
      if Precedes(blocks, b, some) {
        a := b;
      }
      forall c | c in blocks && size <= blocks[c] ensures Precedes(blocks, a, c) {
        assert c != some ==> Precedes(rest, b, c);
      }
    } else {
      assert forall c :: c in rest ==> rest[c] == blocks[c] < size;
      forall c | c in blocks && size <= blocks[c] ensures Precedes(blocks, a, c) {
        assert c == some || c in rest;
      }
    }
  }

  ghost predicate Partitioned(free: Blocks, used: Blocks, start: nat, end: nat) {
    Shared(free, used, start, end) && SizesOk(free) && SizesOk(used) && NoneAdjacent(free)
  }

  lemma {:induction false} LargestExists(blocks: Blocks) returns (a: nat)
    requires blocks != map[]
    ensures a in blocks && IsLargest(blocks, blocks[a])
    decreases |blocks|
  {
    a :| a in blocks;
    var rest := blocks - {a};
    if rest != map[] {
      var b := LargestExists(rest);
      assert forall c :: c in blocks && c != a ==> c in rest && rest[c] == blocks[c];
      if blocks[b] > blocks[a] {
        a := b;
      }
    } else {
      assert forall c :: c in blocks ==> c == a || c in rest;
    }
  }

  // ----- allocation -----

  /** A free block cut at most twice, so that a piece of it begins at header and ends at next. */
  function CutTwice(free: Blocks, base: nat, header: nat, next: nat): Blocks
    requires base in free && base <= header < next <= base + free[base]
  {
    var one := if header != base then Cut(free, base, header) else free;
    if next != base + free[base] then Cut(one, header, next) else one
  }

  lemma CutTwiceShared(free: Blocks, used: Blocks, start: nat, end: nat, base: nat, header: nat, next: nat)
    requires Shared(free, used, start, end) && base in free && base <= header < next <= base + free[base]
    ensures var cut := CutTwice(free, base, header, next);
      && Shared(cut, used, start, end) && Total(cut) == Total(free) && header in cut && cut[header] == next - header
      && (header != base ==> header !in free) && (next != base + free[base] ==> next !in free && next != end && next !in used)
  {
    var one := free;
    if header != base {
      CutShared(free, used, start, end, base, header);
      CutTotal(free, base, header);
      one := Cut(free, base, header);
    }
    if next != base + free[base] {
      CutShared(free, used, start, end, base, next);
      CutShared(one, used, start, end, header, next);
      CutTotal(one, header, next);
      assert BlockOk(free + used, start, end, base);
    }
  }

  lemma CutTwiceSizes(free: Blocks, base: nat, header: nat, next: nat)
    requires SizesOk(free) && base in free && base <= header < next <= base + free[base]
    requires SizeOk(header, next - header) && (header == base || header - base >= MINIMUM_BLOCK)
    requires next == base + free[base] || base + free[base] - next >= MINIMUM_BLOCK
    ensures SizesOk(CutTwice(free, base, header, next))
  {
    var cut := CutTwice(free, base, header, next);
    assert SizeOk(base, free[base]);
    PieceSizes(base, free[base], header, next);
    forall a | a in cut ensures SizeOk(a, cut[a]) {
      if a != base && a != header && a != next {
        assert SizeOk(a, free[a]);
      }
    }
  }

  lemma PieceSizes(base: nat, free: nat, header: nat, next: nat)
    requires SizeOk(base, free) && base <= header < next <= base + free && SizeOk(header, next - header)
    ensures header - base >= MINIMUM_BLOCK ==> SizeOk(base, header - base)
    ensures base + free - next >= MINIMUM_BLOCK ==> SizeOk(next, base + free - next)
  {
    SixteenApart(header, base);
    var size := next - header;
    assert next == header + size;
    SixteenApart(base + free, next);
  }

  lemma SixteenApart(x: int, y: int)
    requires x % 16 == 0 && y % 16 == 0
    ensures (x - y) % 16 == 0
  {
  }

  /** Without the piece that is taken, no two free blocks touch. */
  lemma CutTwiceLonely(free: Blocks, used: Blocks, start: nat, end: nat, base: nat, header: nat, next: nat)
    requires Shared(free, used, start, end) && NoneAdjacent(free) && base in free && base <= header < next <= base + free[base]
    requires header != base ==> header !in free
    requires next != base + free[base] ==> next !in free && next != end && next !in used
    ensures NoneAdjacent(CutTwice(free, base, header, next) - {header})
  {
    var rest := CutTwice(free, base, header, next) - {header};
    assert Lonely(free, base);
    forall a | a in rest ensures Lonely(rest, a) {
      if a != base && a != next {
        assert Lonely(free, a) && BlockOk(free + used, start, end, a);
      }
    }
  }

  lemma AllocationKeeps(free: Blocks, used: Blocks, start: nat, end: nat, base: nat, header: nat, next: nat)
    requires Partitioned(free, used, start, end) && base in free && base <= header < next <= base + free[base]
    requires SizeOk(header, next - header) && (header == base || header - base >= MINIMUM_BLOCK)
    requires next == base + free[base] || base + free[base] - next >= MINIMUM_BLOCK
    ensures var rest := CutTwice(free, base, header, next) - {header};
      && Partitioned(rest, used[header := next - header], start, end) && header !in used
      && Total(rest) == Total(free) - (next - header)
  {
    var cut := CutTwice(free, base, header, next);
    CutTwiceShared(free, used, start, end, base, header, next);
    TakeShared(cut, used, start, end, header);
    TotalWithout(cut, header);
    CutTwiceSizes(free, base, header, next);
    CutTwiceLonely(free, used, start, end, base, header, next);
    SizesWithout(cut, header);
    SizesWith(used, header, next - header);
  }

  lemma SizesWithout(blocks: Blocks, a: nat)
    requires SizesOk(blocks)
    ensures SizesOk(blocks - {a})
  {
    var rest := blocks - {a};
    forall b | b in rest ensures SizeOk(b, rest[b]) {
      assert SizeOk(b, blocks[b]);
    }
  }

  lemma SizesWith(blocks: Blocks, a: nat, size: nat)
    requires SizesOk(blocks) && SizeOk(a, size)
    ensures SizesOk(blocks[a := size])
  {
    var more := blocks[a := size];
    forall b | b in more ensures SizeOk(b, more[b]) {
      assert b != a ==> SizeOk(b, blocks[b]);
    }
  }

  /** The free blocks without one of them but with the leftovers on both sides of the piece taken from it. */
  function Leftovers(rest: Blocks, base: nat, header: nat, next: nat, last: nat): Blocks
    requires base <= header < next <= last
  {
    var below := if header != base then rest[base := header - base] else rest;
    if next != last then below[next := last - next] else below
  }

  lemma LeftoversAreCuts(free: Blocks, base: nat, header: nat, next: nat)
    requires base in free && base <= header < next <= base + free[base]
    requires header != base ==> header !in free
    ensures Leftovers(free - {base}, base, header, next, base + free[base]) == CutTwice(free, base, header, next) - {header}
  {
  }

  lemma LeftoversKeep(free: Blocks, used: Blocks, start: nat, end: nat, base: nat, header: nat, next: nat)
    requires Partitioned(free, used, start, end) && base in free && base <= header < next <= base + free[base]
    requires SizeOk(header, next - header) && (header == base || header - base >= MINIMUM_BLOCK)
    requires next == base + free[base] || base + free[base] - next >= MINIMUM_BLOCK
    ensures header !in used && (next != base + free[base] ==> next !in free)
    ensures var rest := Leftovers(free - {base}, base, header, next, base + free[base]);
      Partitioned(rest, used[header := next - header], start, end) && Total(rest) == Total(free) - (next - header)
  {
    AllocationKeeps(free, used, start, end, base, header, next);
    CutTwiceShared(free, used, start, end, base, header, next);
    LeftoversAreCuts(free, base, header, next);
  }

  // ----- coalescing -----

  lemma JoinSizes(free: Blocks, a: nat)
    requires SizesOk(free) && a in free && a + free[a] in free
    ensures SizesOk(Join(free, a))
  {
    var joined := Join(free, a);
    assert SizeOk(a, free[a]) && SizeOk(a + free[a], free[a + free[a]]);
    forall b | b in joined ensures SizeOk(b, joined[b]) {
      if b != a {
        assert SizeOk(b, free[b]);
      }
    }
  }

  /** The free blocks with the one at a and its free neighbours made one. */
  function Coalesced(free: Blocks, a: nat, before: Option<nat>, after: bool): Blocks
    requires a in free && (after ==> a + free[a] in free && free[a] > 0)
    requires before.Some? ==> before.value in free && before.value + free[before.value] == a && free[before.value] > 0
  {
    var one := if after then Join(free, a) else free;
    if before.Some? then Join(one, before.value) else one
  }

  lemma CoalescedShared(free: Blocks, used: Blocks, start: nat, end: nat, a: nat, before: Option<nat>, after: bool)
    requires Shared(free, used, start, end) && SizesOk(free) && a in free && (after ==> a + free[a] in free && free[a] > 0)
    requires before.Some? ==> before.value in free && before.value + free[before.value] == a && free[before.value] > 0
    ensures var joined := Coalesced(free, a, before, after);
      Shared(joined, used, start, end) && SizesOk(joined) && Total(joined) == Total(free)
  {
    var one := if after then Join(free, a) else free;
    assert Shared(one, used, start, end) && SizesOk(one) && Total(one) == Total(free) by {
      if after {
        JoinKeeps(free, used, start, end, a);
      }
    }
    if before.Some? {
      assert before.value in one && one[before.value] == free[before.value] && a in one;
      JoinKeeps(one, used, start, end, before.value);
    }
  }

  lemma JoinKeeps(free: Blocks, used: Blocks, start: nat, end: nat, a: nat)
    requires Shared(free, used, start, end) && SizesOk(free) && a in free && a + free[a] in free
    ensures Shared(Join(free, a), used, start, end) && SizesOk(Join(free, a)) && Total(Join(free, a)) == Total(free)
  {
    JoinShared(free, used, start, end, a);
    JoinSizes(free, a);
    JoinTotal(free, a);
  }

  /** When only the block at a may touch other free blocks, and it is joined with those it touches, none touch. */
  lemma CoalescedLonely(free: Blocks, used: Blocks, start: nat, end: nat, a: nat, before: Option<nat>, after: bool)
    requires Shared(free, used, start, end) && a in free && NoneAdjacent(free - {a})
    requires after <==> a + free[a] in free
    requires after ==> free[a] > 0
    requires before.Some? ==> before.value in free && before.value + free[before.value] == a && free[before.value] > 0
    requires before.None? ==> forall b :: b in free ==> b + free[b] != a
    ensures NoneAdjacent(Coalesced(free, a, before, after))
  {
    var joined, rest := Coalesced(free, a, before, after), free - {a};
    assert BlockOk(free + used, start, end, a);
    if after {
      assert Lonely(rest, a + free[a]) && BlockOk(free + used, start, end, a + free[a]);
    }
    forall c | c in joined ensures Lonely(joined, c) {
      if c in rest {
        assert Lonely(rest, c) && BlockOk(free + used, start, end, c);
        if before.Some? && c + free[c] == a {
          EndsTogether(free + used, start, end, c, before.value);
        }
      }
    }
  }

  /** Two blocks do not end at the same address. */
  lemma EndsTogether(blocks: Blocks, start: nat, end: nat, b: nat, c: nat)
    requires Tiled(blocks, start, end) && b in blocks && c in blocks && b + blocks[b] == c + blocks[c]
    ensures b == c
  {
    assert Disjoint(blocks, b, c) && Disjoint(blocks, c, b) && BlockOk(blocks, start, end, b) && BlockOk(blocks, start, end, c);
  }

  lemma CoalesceKeeps(free: Blocks, used: Blocks, start: nat, end: nat, a: nat, before: Option<nat>, after: bool)
    requires Shared(free, used, start, end) && SizesOk(free) && SizesOk(used) && a in free && NoneAdjacent(free - {a})
    requires after <==> a + free[a] in free
    requires before.Some? ==> before.value in free && before.value + free[before.value] == a
    requires before.None? ==> forall b :: b in free ==> b + free[b] != a
    ensures free[a] > 0 && (before.Some? ==> free[before.value] > 0)
    ensures var joined := Coalesced(free, a, before, after);
      Partitioned(joined, used, start, end) && Total(joined) == Total(free)
  {
    assert SizeOk(a, free[a]) && (before.Some? ==> SizeOk(before.value, free[before.value]));
    CoalescedShared(free, used, start, end, a, before, after);
    CoalescedLonely(free, used, start, end, a, before, after);
  }

  /** Where in a free block a request goes: the header and the end of the allocated block, its leftovers absorbed if too small. */
  lemma Placed(base: nat, free: nat, size: nat, ret: nat, header: int, next: int)
    requires SizeOk(base, free) && WellCut(base, free, size, ret) && header == HeaderAddress(base, ret)
    requires next == if base + free - EndAddress(base, ret, size) < MINIMUM_BLOCK then base + free else EndAddress(base, ret, size)
    ensures base <= header < next <= base + free && SizeOk(header, next - header) && (header == base || header - base >= MINIMUM_BLOCK)
    ensures ret == header + ALLOCATED_HEADER || ret >= header + ALIGNED_HEADER
    ensures ret + size <= next && (next == base + free || base + free - next >= MINIMUM_BLOCK)
  {
    PlacedInts(base, free, size, ret, header, EndAddress(base, ret, size), next);
  }

  lemma PlacedInts(base: nat, free: nat, size: nat, ret: nat, header: int, end: int, next: int)
    requires SizeOk(base, free) && header % 16 == 0 && end % 16 == 0 && (header == base || header - base >= MINIMUM_BLOCK)
    requires ret + size <= end && header + MINIMUM_BLOCK <= end <= base + free
    requires next == if base + free - end < MINIMUM_BLOCK then base + free else end
    ensures base <= header < next <= base + free && SizeOk(header, next - header)
    ensures ret + size <= next && (next == base + free || base + free - next >= MINIMUM_BLOCK)
  {
    SixteenApart(next, header);
  }

  /** The last block that begins below a bound. */
  predicate IsLastBelow(blocks: Blocks, bound: nat, a: nat) {
    a in blocks && a < bound && forall b :: b in blocks && a < b ==> bound <= b
  }

  lemma {:induction false} LastBelowExists(blocks: Blocks, bound: nat, some: nat) returns (a: nat)
    requires some in blocks && some < bound
    ensures IsLastBelow(blocks, bound, a)
    decreases bound - some
  {
    a := some;
    if b :| b in blocks && some < b < bound {
      a := LastBelowExists(blocks, bound, b);
    }
  }

  /** If a free block ends at a, it is the nearest one below a. */
  lemma NearestEnds(free: Blocks, used: Blocks, start: nat, end: nat, a: nat, nearest: Option<nat>)
    requires Shared(free, used, start, end)
    requires match nearest
             case None => forall b :: b in free ==> b >= a
             case Some(p) => IsLastBelow(free, a, p) && p + free[p] != a
    ensures forall b :: b in free ==> b + free[b] != a
  {
    forall b | b in free ensures b + free[b] != a {
      assert BlockOk(free + used, start, end, b);
      if nearest.Some? {
        assert Disjoint(free + used, b, nearest.value) && BlockOk(free + used, start, end, nearest.value);
      }
    }
  }

  /** Taking out a block and its neighbours and putting back one block in their place is joining them. */
  lemma CoalescedIs(free: Blocks, a: nat, before: Option<nat>, after: bool)
    requires a in free && free[a] > 0 && (after ==> a + free[a] in free)
    requires before.Some? ==> before.value in free && before.value + free[before.value] == a && free[before.value] > 0
    ensures var rest := free - {a} - (if before.Some? then {before.value} else {}) - (if after then {a + free[a]} else {});
      var size := free[a] + (if before.Some? then free[before.value] else 0) + (if after then free[a + free[a]] else 0);
      Coalesced(free, a, before, after) == rest[(if before.Some? then before.value else a) := size]
  {
  }

  /** A block that has just been freed is the only one that may touch other free blocks. */
  lemma FreedShape(free: Blocks, used: Blocks, start: nat, end: nat, a: nat)
    requires Partitioned(free, used, start, end) && a in used
    ensures var free', used' := free[a := used[a]], used - {a};
      && Shared(free', used', start, end) && SizesOk(free') && SizesOk(used') && NoneAdjacent(free' - {a})
      && Total(free') == Total(free) + used[a] && a !in free && used[a] > 0
  {
    assert SizeOk(a, used[a]);
    GiveShared(free, used, start, end, a);
    SizesWith(free, a, used[a]);
    SizesWithout(used, a);
    TotalWith(free, a, used[a]);
    assert free[a := used[a]] - {a} == free;
  }

  lemma {:induction false} TotalUnion(free: Blocks, used: Blocks)
    requires free.Keys !! used.Keys
    ensures Total(free + used) == Total(free) + Total(used)
    decreases |free|
  {
    if free == map[] {
      assert free + used == used;
    } else {
      var a :| a in free;
      var rest := free - {a};
      TotalWithout(free, a);
      TotalUnion(rest, used);
      TotalWith(rest + used, a, free[a]);
      UnionWith(free, used, a);
    }
  }

  lemma UnionWith(free: Blocks, used: Blocks, a: nat)
    requires free.Keys !! used.Keys && a in free
    ensures free + used == ((free - {a}) + used)[a := free[a]]
  {
  }

  /** What validateSpan asserts: the sizes of the free and the allocated blocks add up to the buffer. */
  lemma BlocksAddUp(free: Blocks, used: Blocks, start: nat, end: nat)
    requires Partitioned(free, used, start, end)
    ensures Total(free) + Total(used) == end - start
  {
    TiledTotal(free + used, start, end);
    TotalUnion(free, used);
  }

  /** The bytes of two requests, and their headers, do not overlap and lie in the span. */
  lemma DataApart(free: Blocks, used: Blocks, dataBegin: map<nat, nat>, requested: map<nat, nat>, start: nat, end: nat, a: nat, b: nat)
    requires Partitioned(free, used, start, end) && DataFine(used, dataBegin, requested) && a in used && b in used && a < b
    ensures start <= a < DataOf(dataBegin, a) && DataOf(dataBegin, a) + requested[a] <= b
    ensures b < DataOf(dataBegin, b) && DataOf(dataBegin, b) + requested[b] <= end
  {
    assert Disjoint(free + used, a, b) && BlockOk(free + used, start, end, a) && BlockOk(free + used, start, end, b);
    assert DataOk(used, dataBegin, requested, a) && DataOk(used, dataBegin, requested, b);
  }

  // ----- where the data of a block begins -----

  /** The returned address of a block: as recorded in an aligned header, or right after a plain one. */
  function DataOf(dataBegin: map<nat, nat>, a: nat): nat {
    if a in dataBegin then dataBegin[a] else a + ALLOCATED_HEADER
  }

  /** The bytes requested of a block lie inside it, after its header. */
  ghost predicate DataOk(used: Blocks, dataBegin: map<nat, nat>, requested: map<nat, nat>, a: nat)
    requires a in used
  {
    && a in requested && requested[a] >= 1 && DataOf(dataBegin, a) + requested[a] <= a + used[a]
    && (a in dataBegin ==> a + ALIGNED_HEADER <= dataBegin[a])
  }

  ghost predicate DataFine(used: Blocks, dataBegin: map<nat, nat>, requested: map<nat, nat>) {
    dataBegin.Keys <= used.Keys && requested.Keys == used.Keys
    && forall a {:trigger DataOk(used, dataBegin, requested, a)} :: a in used ==> DataOk(used, dataBegin, requested, a)
  }

  lemma DataWithout(used: Blocks, dataBegin: map<nat, nat>, requested: map<nat, nat>, a: nat)
    requires DataFine(used, dataBegin, requested)
    ensures DataFine(used - {a}, dataBegin - {a}, requested - {a})
  {
    var used', data', requested' := used - {a}, dataBegin - {a}, requested - {a};
    forall b | b in used' ensures DataOk(used', data', requested', b) {
      assert DataOk(used, dataBegin, requested, b);
    }
  }

  /** One block, with room for size bytes at the returned address, has been added to the allocated ones. */
  ghost predicate Entered(used: Blocks, dataBegin: map<nat, nat>, used': Blocks, dataBegin': map<nat, nat>,
                          header: nat, ret: nat, size: nat)
  {
    && header !in used && header in used' && used' == used[header := used'[header]]
    && DataOf(dataBegin', header) == ret && ret + size <= header + used'[header]
    && forall a :: a in used ==> DataOf(dataBegin', a) == DataOf(dataBegin, a)
  }

  lemma PiecesReadable(free: Blocks, used: Blocks, start: nat, end: nat, base: nat, header: nat, next: nat)
    requires Partitioned(free, used, start, end) && end - start < SIZE_LIMIT
    requires base in free && base <= header < next <= base + free[base] && SizeOk(header, next - header)
    requires header == base || header - base >= MINIMUM_BLOCK
    requires next == base + free[base] || base + free[base] - next >= MINIMUM_BLOCK
    ensures Readable(free) && ReadSize(free[base]) == free[base] && ReadSize(next - header) == next - header
    ensures header != base ==> ReadSize(header - base) == header - base
    ensures next != base + free[base] ==> ReadSize(base + free[base] - next) == base + free[base] - next
  {
    FreeReadable(free, used, start, end);
    assert SizeOk(base, free[base]) && BlockOk(free + used, start, end, base);
    PieceSizes(base, free[base], header, next);
    ReadSizeExact(next - header);
    if header != base {
      ReadSizeExact(header - base);
    }
    if next != base + free[base] {
      ReadSizeExact(base + free[base] - next);
    }
  }

  lemma JoinedReadable(free: Blocks, used: Blocks, start: nat, end: nat, a: nat, before: Option<nat>, after: bool)
    requires Shared(free, used, start, end) && SizesOk(free) && end - start < SIZE_LIMIT
    requires a in free && free[a] > 0 && (after ==> a + free[a] in free)
    requires before.Some? ==> before.value in free && before.value + free[before.value] == a && free[before.value] > 0
    ensures var size := free[a] + (if before.Some? then free[before.value] else 0) + (if after then free[a + free[a]] else 0);
      ReadSize(size) == size
  {
    CoalescedShared(free, used, start, end, a, before, after);
    var joined := Coalesced(free, a, before, after);
    FreeReadable(joined, used, start, end);
    CoalescedIs(free, a, before, after);
    var at := if before.Some? then before.value else a;
    assert ReadSize(joined[at]) == joined[at];
  }

  class Span {
    const start: nat
    const end: nat
    var free: Blocks                   // unallocatedBlockTree and unallocatedBlocksByAddress
    var used: Blocks                   // allocatedBlockTree
    var dataBegin: map<nat, nat>       // of the headers marked aligned
    var freeSpace: int
    var largestFreeBlockSize: nat
    ghost var requested: map<nat, nat> // the sizes asked for

    ghost predicate Valid()
      reads this
    {
      && Partitioned(free, used, start, end)
      && freeSpace == Total(free) && IsLargest(free, largestFreeBlockSize)
      && DataFine(used, dataBegin, requested) && end - start < SIZE_LIMIT
    }

    /** A new span is one free block. */
    constructor (start: nat, size: nat)
      requires SizeOk(start, size) && size < SIZE_LIMIT
      ensures Valid() && this.start == start && end == start + size && free == map[start := size] && used == map[]
    {
      this.start, end := start, start + size;
      free, used, dataBegin, requested := map[start := size], map[], map[], map[];
      freeSpace, largestFreeBlockSize := size, size;
      new;
      TotalWith(map[], start, size);
      assert map[][start := size] == map[start := size];
      assert free + used == free;
      assert BlockOk(free, this.start, end, start);
    }

    method InsertFreeBlock(a: nat, size: nat)
      requires a !in free && size > 0 && IsLargest(free, largestFreeBlockSize) && ReadSize(size) == size
      modifies this`free, this`largestFreeBlockSize
      ensures free == old(free)[a := size] && IsLargest(free, largestFreeBlockSize)
    {
      LargestWith(free, a, size, largestFreeBlockSize);
      free := free[a := size];
      var freeSize := ReadSize(size);
      if freeSize > largestFreeBlockSize {
        largestFreeBlockSize := freeSize;
      }
    }

    /** The block of the largest size. */
    method LargestBlock() returns (a: nat)
      requires free != map[]
      ensures a in free && IsLargest(free, free[a])
    {
      ghost var largest := LargestExists(free);
      a :| a in free && forall b :: b in free ==> free[b] <= free[a];
    }

    method RemoveFreeBlock(a: nat)
      requires a in free && IsLargest(free, largestFreeBlockSize) && Readable(free)
      modifies this`free, this`largestFreeBlockSize
      ensures free == old(free) - {a} && IsLargest(free, largestFreeBlockSize)
    {
      var size := ReadSize(free[a]);
      if largestFreeBlockSize != size {
        LargestWithout(free, a, largestFreeBlockSize);
      }
      free := free - {a};
      if largestFreeBlockSize == size {
        if free != map[] {
          var b := LargestBlock();
          assert ReadSize(old(free)[b]) == old(free)[b];
          largestFreeBlockSize := ReadSize(free[b]);
        } else {
          largestFreeBlockSize := 0;
        }
      }
    }

    /** The first block in tree order that is large enough. */
    method MappedCeil(size: nat) returns (a: nat)
      requires exists b :: b in free && size <= free[b]
      ensures IsCeil(free, size, a)
    {
      ghost var some :| some in free && size <= free[some];
      ghost var first := CeilExists(free, size, some);
      assert first in free;
      a :| a in free && IsCeil(free, size, a);
    }

    /** Put the leftovers on both sides of an allocated block back into the free trees. */
    method Reinsert(base: nat, header: nat, next: nat, last: nat)
      requires base <= header < next <= last && IsLargest(free, largestFreeBlockSize)
      requires base !in free && (next != last ==> next !in free)
      requires (header != base ==> ReadSize(header - base) == header - base) && (next != last ==> ReadSize(last - next) == last - next)
      modifies this`free, this`largestFreeBlockSize
      ensures IsLargest(free, largestFreeBlockSize)
      ensures free == Leftovers(old(free), base, header, next, last)
    {
      if header != base {
        InsertFreeBlock(base, header - base);
      }
      if next != last {
        InsertFreeBlock(next, last - next);
      }
    }

    /** Write the header of an allocated block and enter it into its tree. */
    method EnterAllocated(header: nat, next: nat, ret: nat, size: nat)
      requires DataFine(used, dataBegin, requested) && header !in used && header < next && 1 <= size && ret + size <= next
      requires ret == header + ALLOCATED_HEADER || ret >= header + ALIGNED_HEADER
      modifies this`used, this`dataBegin, this`requested
      ensures used == old(used)[header := next - header] && DataFine(used, dataBegin, requested)
      ensures requested == old(requested)[header := size]
      ensures Entered(old(used), old(dataBegin), used, dataBegin, header, ret, size)
    {
      used := used[header := next - header];
      if header + ALLOCATED_HEADER != ret {
        dataBegin := dataBegin[header := ret];
      }
      requested := requested[header := size];
      forall a | a in used ensures DataOk(used, dataBegin, requested, a) {
        assert a in old(used) ==> DataOk(old(used), old(dataBegin), old(requested), a);
      }
    }

    /** Turn a piece of a free block into an allocated block. */
    method TakePiece(base: nat, header: nat, next: nat, ret: nat, size: nat)
      requires Valid() && base in free && base <= header < next <= base + free[base] && SizeOk(header, next - header)
      requires header == base || header - base >= MINIMUM_BLOCK
      requires next == base + free[base] || base + free[base] - next >= MINIMUM_BLOCK
      requires 1 <= size && ret + size <= next && (ret == header + ALLOCATED_HEADER || ret >= header + ALIGNED_HEADER)
      modifies this
      ensures Valid() && Entered(old(used), old(dataBegin), used, dataBegin, header, ret, size)
      ensures freeSpace == old(freeSpace) - used[header] && requested == old(requested)[header := size]
    {
      LeftoversKeep(free, used, start, end, base, header, next);
      PiecesReadable(free, used, start, end, base, header, next);
      var last := base + ReadSize(free[base]);
      RemoveFreeBlock(base);
      EnterAllocated(header, next, ret, size);
      Reinsert(base, header, next, last);
      freeSpace := freeSpace - ReadSize(next - header);
    }

    /**
     A block for a request, cut out of the smallest free block that is sure to fit it. The address
     returned is aligned and the requested bytes lie inside the new block; a request fails exactly when
     no free block has the padded size.
     */
    method AllocateBlock(size: nat, k: nat) returns (r: Option<nat>, ghost header: nat)
      requires Valid() && size >= 1 && InScope(size, k)
      modifies this
      ensures Valid()
      ensures r.None? <==> forall a :: a in old(free) ==> old(free)[a] < PaddedSize(size, k)
      ensures r.None? ==> unchanged(this)
      ensures r.Some? ==> Low(r.value, k) == 0 && Entered(old(used), old(dataBegin), used, dataBegin, header, r.value, size)
      ensures r.Some? ==> freeSpace == old(freeSpace) - used[header] && requested == old(requested)[header := size]
    {
      var padded := PaddedSize(size, k);
      if largestFreeBlockSize < padded {
        return None, 0;
      }
      var base: nat := MappedCeil(padded);
      FreeReadable(free, used, start, end);
      var last := base + ReadSize(free[base]);
      assert SizeOk(base, free[base]);
      CutFits(base, free[base], size, k);
      assert Low(ReturnAddress(base, k), k) == 0 by { ReturnBounds(base, k); }
      var ret := ReturnAddress(base, k);
      var headerBase, next := HeaderAddress(base, ret), EndAddress(base, ret, size);
      if last - next < MINIMUM_BLOCK {
        next := last;
      }
      Placed(base, free[base], size, ret, headerBase, next);
      TakePiece(base, headerBase, next, ret, size);
      r, header := Some(ret), headerBase;
    }

    /** The pointer's block: the last allocated one that begins at or before it, if its data begins at the pointer. */
    method ValidatedHeader(ptr: nat) returns (r: Option<nat>)
      requires Partitioned(free, used, start, end) && DataFine(used, dataBegin, requested)
      ensures r.Some? ==> r.value in used && DataOf(dataBegin, r.value) == ptr
      ensures r.None? ==> forall a :: a in used ==> DataOf(dataBegin, a) != ptr
    {
      if forall a :: a in used ==> a > ptr {
        forall a | a in used ensures DataOf(dataBegin, a) != ptr {
          assert DataOk(used, dataBegin, requested, a);
        }
        return None;
      }
      var header := Floor(ptr);
      if DataOf(dataBegin, header) == ptr {
        return Some(header);
      }
      forall a | a in used ensures DataOf(dataBegin, a) != ptr {
        assert DataOk(used, dataBegin, requested, a);
        assert a != header ==> Disjoint(free + used, a, header);
      }
      r := None;
    }

    /** The last allocated block that begins at or before an address. */
    method Floor(ptr: nat) returns (header: nat)
      requires exists a :: a in used && a <= ptr
      ensures IsLastBelow(used, ptr + 1, header)
    {
      ghost var some :| some in used && some <= ptr;
      ghost var last := LastBelowExists(used, ptr + 1, some);
      assert last in used;
      header :| header in used && IsLastBelow(used, ptr + 1, header);
    }

    /** The last free block that begins before an address. */
    method Predecessor(a: nat) returns (r: Option<nat>)
      ensures r.Some? ==> IsLastBelow(free, a, r.value)
      ensures r.None? ==> forall b :: b in free ==> b >= a
    {
      if some :| some in free && some < a {
        ghost var last := LastBelowExists(free, a, some);
        assert last in free;
        var before :| before in free && IsLastBelow(free, a, before);
        r := Some(before);
      } else {
        r := None;
      }
    }

    /** The free block right before an address: the nearest one below, if it ends there. */
    method FreeBefore(a: nat) returns (r: Option<nat>)
      requires Shared(free, used, start, end) && Readable(free)
      ensures r.Some? ==> r.value in free && r.value + free[r.value] == a
      ensures r.None? ==> forall b :: b in free ==> b + free[b] != a
    {
      r := Predecessor(a);
      if r.None? || r.value + ReadSize(free[r.value]) != a {
        NearestEnds(free, used, start, end, a, r);
        r := None;
      }
    }

    /** Join the free block at a with the free blocks that it touches. */
    method CoalesceAdjacentFreeBlocks(a: nat) returns (ghost before: Option<nat>, ghost after: bool)
      requires Shared(free, used, start, end) && SizesOk(free) && a in free && IsLargest(free, largestFreeBlockSize)
      requires end - start < SIZE_LIMIT
      modifies this`free, this`largestFreeBlockSize
      ensures after <==> a + old(free)[a] in old(free)
      ensures before.Some? ==> before.value in old(free) && before.value + old(free)[before.value] == a
      ensures before.None? ==> forall b :: b in old(free) ==> b + old(free)[b] != a
      ensures old(free)[a] > 0 && (before.Some? ==> old(free)[before.value] > 0)
      ensures IsLargest(free, largestFreeBlockSize) && free == Coalesced(old(free), a, before, after)
    {
      FreeReadable(free, used, start, end);
      var b := FreeBefore(a);
      var size := ReadSize(free[a]);
      var hasNext := a + size in free;
      before, after := b, hasNext;
      assert SizeOk(a, free[a]) && (b.Some? ==> SizeOk(b.value, free[b.value]));
      if b.None? && !hasNext {
        return;
      }
      CoalescedIs(free, a, b, hasNext);
      JoinedReadable(free, used, start, end, a, b, hasNext);
      RemoveFreeBlock(a);
      assert Readable(free);
      Merge(a, size, b, hasNext);
    }

    /** Replace the free neighbours of a block that has been taken out by one block covering them all. */
    method Merge(a: nat, size: nat, before: Option<nat>, after: bool)
      requires a !in free && size > 0 && IsLargest(free, largestFreeBlockSize)
      requires before.Some? ==> before.value in free && before.value < a
      requires after ==> a + size in free
      requires Readable(free)
      requires var total := size + (if before.Some? then free[before.value] else 0) + (if after then free[a + size] else 0);
        ReadSize(total) == total
      modifies this`free, this`largestFreeBlockSize
      ensures IsLargest(free, largestFreeBlockSize)
      ensures var rest := old(free) - (if before.Some? then {before.value} else {}) - (if after then {a + size} else {});
        var total := size + (if before.Some? then old(free)[before.value] else 0) + (if after then old(free)[a + size] else 0);
        free == rest[(if before.Some? then before.value else a) := total]
    {
      var block, total := a, size;
      if before.Some? {
        total := total + ReadSize(free[before.value]);
        RemoveFreeBlock(before.value);
        block := before.value;
      }
      if after {
        assert ReadSize(old(free)[a + size]) == old(free)[a + size];
        total := total + ReadSize(free[a + size]);
        RemoveFreeBlock(a + size);
      }
      InsertFreeBlock(block, total);
    }

    /** Free the block whose data begins at the pointer; any other pointer is rejected and nothing changes. */
    method FreeBlock(ptr: nat) returns (ok: bool, ghost header: nat)
      requires Valid()
      modifies this
      ensures Valid()
      ensures ok <==> exists a :: a in old(used) && DataOf(old(dataBegin), a) == ptr
      ensures !ok ==> unchanged(this)
      ensures ok ==> header in old(used) && DataOf(old(dataBegin), header) == ptr && used == old(used) - {header}
      ensures ok ==> freeSpace == old(freeSpace) + old(used)[header]
      ensures ok ==> requested == old(requested) - {header}
      ensures ok ==> forall a :: a in used ==> DataOf(dataBegin, a) == DataOf(old(dataBegin), a)
    {
      var r := ValidatedHeader(ptr);
      if r.None? {
        return false, 0;
      }
      var a := r.value;
      UsedReadable(free, used, start, end);
      var size := ReadSize(used[a]);
      EraseBlock(a, size);
      MergeFreed(a);
      freeSpace := freeSpace + size;
      ok, header := true, a;
    }

    /** The allocated block becomes a free one, which may touch its neighbours. */
    method EraseBlock(a: nat, size: nat)
      requires Valid() && a in used && size == used[a] == ReadSize(size)
      modifies this`free, this`largestFreeBlockSize, this`used, this`dataBegin, this`requested
      ensures used == old(used) - {a} && dataBegin == old(dataBegin) - {a} && requested == old(requested) - {a}
      ensures Shared(free, used, start, end) && SizesOk(free) && SizesOk(used) && a in free && NoneAdjacent(free - {a})
      ensures Total(free) == old(Total(free)) + size && IsLargest(free, largestFreeBlockSize)
      ensures DataFine(used, dataBegin, requested)
    {
      FreedShape(free, used, start, end, a);
      DataWithout(used, dataBegin, requested, a);
      used, dataBegin, requested := used - {a}, dataBegin - {a}, requested - {a};
      InsertFreeBlock(a, size);
    }

    /** A free block that may touch its neighbours is joined to them. */
    method MergeFreed(a: nat)
      requires Shared(free, used, start, end) && SizesOk(free) && SizesOk(used) && a in free && NoneAdjacent(free - {a})
      requires IsLargest(free, largestFreeBlockSize) && end - start < SIZE_LIMIT
      modifies this`free, this`largestFreeBlockSize
      ensures Partitioned(free, used, start, end) && Total(free) == old(Total(free)) && IsLargest(free, largestFreeBlockSize)
    {
      ghost var before, after := CoalesceAdjacentFreeBlocks(a);
      CoalesceKeeps(old(free), used, start, end, a, before, after);
    }
  }
}
