/**
 The shape of an AtomicBitPool: which entry of each level covers an index, how entries
 are numbered under their parents, and where they lie in the backing buffer.

 Level 0 entries hold 64 bits each. An entry of level 1 has 2^l1Width children, an entry of
 any higher level has 64, and the top level has one entry.
 */
module BitPoolGeometry {
  import opened Arith

  const MAX_LEVEL_COUNT := 10

  datatype Geometry = Geometry(levels: nat, l1Width: nat) {
    predicate Valid() {
      1 <= levels <= MAX_LEVEL_COUNT && l1Width <= 6 && (levels >= 2 ==> 1 <= l1Width)
    }
  }

  /** One entry of the hierarchy. */
  datatype Node = Node(level: nat, entry: nat)

  // ----- the index formulas of the source -----

  function ShiftForLevel(g: Geometry, level: nat): nat {
    if level == 1 then g.l1Width else 6
  }

  function CumulativeShift(g: Geometry, level: nat): nat {
    if level >= 2 then 6 * level - 6 + g.l1Width else 6 * level
  }

  function BitIndexForLevel(g: Geometry, index: nat, level: nat): nat {
    Low(Shr(index, CumulativeShift(g, level)), ShiftForLevel(g, level))
  }

  function EntryIndexForLevel(g: Geometry, index: nat, level: nat): nat {
    Shr(index, CumulativeShift(g, level) + ShiftForLevel(g, level))
  }

  function ChildEntryIndex(g: Geometry, entry: nat, bit: nat, level: nat): nat {
    Shl(entry, ShiftForLevel(g, level)) + bit
  }

  function ParentEntryIndex(g: Geometry, entry: nat, level: nat): nat {
    Shr(entry, ShiftForLevel(g, level + 1))
  }

  function BitIndexInParent(g: Geometry, entry: nat, level: nat): nat {
    Low(entry, ShiftForLevel(g, level + 1))
  }

  // ----- what they mean -----

  /** How many children one entry of the level has. */
  function Fanout(g: Geometry, level: nat): (r: nat)
    ensures r >= 1
  {
    Shl(1, ShiftForLevel(g, level))
  }

  function CapacityLog2(g: Geometry): nat
    requires g.Valid()
  {
    if g.levels == 1 then g.l1Width else CumulativeShift(g, g.levels)
  }

  function Capacity(g: Geometry): nat
    requires g.Valid()
  {
    Shl(1, CapacityLog2(g))
  }

  function NodeOf(g: Geometry, index: nat, level: nat): Node {
    Node(level, EntryIndexForLevel(g, index, level))
  }

  function Parent(g: Geometry, n: Node): Node {
    Node(n.level + 1, ParentEntryIndex(g, n.entry, n.level))
  }

  /** The smallest index under an entry. */
  function FirstIndex(g: Geometry, n: Node): nat {
    Shl(n.entry, CumulativeShift(g, n.level) + ShiftForLevel(g, n.level))
  }

  lemma FirstIndexUnder(g: Geometry, n: Node)
    ensures NodeOf(g, FirstIndex(g, n), n.level) == n
  {
    ShlJoin(n.entry, 0, CumulativeShift(g, n.level) + ShiftForLevel(g, n.level));
  }

  lemma CumulativeStep(g: Geometry, level: nat)
    ensures CumulativeShift(g, level + 1) == CumulativeShift(g, level) + ShiftForLevel(g, level)
  {
  }

  /** Walking up by ParentEntryIndex follows the entries that cover one index. */
  lemma ParentOfIndex(g: Geometry, index: nat, level: nat)
    ensures Parent(g, NodeOf(g, index, level)) == NodeOf(g, index, level + 1)
  {
    CumulativeStep(g, level);
    ShrShr(index, CumulativeShift(g, level + 1), ShiftForLevel(g, level + 1));
  }

  /** The bit of an index in a level's bitmap is the place of its child entry under its parent. */
  lemma BitIndexAgrees(g: Geometry, index: nat, level: nat)
    ensures BitIndexForLevel(g, index, level + 1) == BitIndexInParent(g, EntryIndexForLevel(g, index, level), level)
    ensures ChildEntryIndex(g, EntryIndexForLevel(g, index, level + 1), BitIndexForLevel(g, index, level + 1), level + 1)
         == EntryIndexForLevel(g, index, level)
  {
    CumulativeStep(g, level);
    ParentOfIndex(g, index, level);
    ShrLow(EntryIndexForLevel(g, index, level), ShiftForLevel(g, level + 1));
  }

  /** ChildEntryIndex undoes the pair ParentEntryIndex, BitIndexInParent, and the reverse. */
  lemma ChildParentRoundTrip(g: Geometry, entry: nat, bit: nat, level: nat)
    requires bit < Fanout(g, level + 1)
    ensures ParentEntryIndex(g, ChildEntryIndex(g, entry, bit, level + 1), level) == entry
    ensures BitIndexInParent(g, ChildEntryIndex(g, entry, bit, level + 1), level) == bit
    ensures ChildEntryIndex(g, ParentEntryIndex(g, entry, level), BitIndexInParent(g, entry, level), level + 1) == entry
  {
    ShlJoin(entry, bit, ShiftForLevel(g, level + 1));
    ShrLow(entry, ShiftForLevel(g, level + 1));
  }

  /** Two indices that share an entry share every entry above it. */
  lemma {:induction false} SameAncestors(g: Geometry, x: nat, y: nat, lo: nat, level: nat)
    requires lo <= level && NodeOf(g, x, lo) == NodeOf(g, y, lo)
    ensures NodeOf(g, x, level) == NodeOf(g, y, level)
  {
    if lo < level {
      SameAncestors(g, x, y, lo, level - 1);
      ParentOfIndex(g, x, level - 1);
      ParentOfIndex(g, y, level - 1);
    }
  }

  /** Every index of the pool lies under the one entry of the top level. */
  lemma TopCoversAll(g: Geometry, index: nat)
    requires g.Valid() && index < Capacity(g)
    ensures NodeOf(g, index, g.levels - 1) == Node(g.levels - 1, 0)
  {
    var shift := CumulativeShift(g, g.levels);
    assert EntryIndexForLevel(g, index, g.levels - 1) == Shr(index, shift) by {
      CumulativeStep(g, g.levels - 1);
    }
    ShrBeyond(index, CapacityLog2(g), shift);
  }

  // ----- the backing buffer -----

  /** 1 + 64 + 64^2 + ... with n terms. */
  function Geometric(n: nat): nat {
    if n == 0 then 0 else 64 * Geometric(n - 1) + 1
  }

  /** Where a level starts, in entries, when the levels are stored top first. */
  function LevelStart(g: Geometry, level: nat): nat
    requires g.Valid() && level < g.levels
  {
    Geometric(g.levels - 1 - level)
  }

  /** The source's form of it: a constant sum of ten terms, shifted down. */
  function LevelOffset(g: Geometry, level: nat): nat
    requires g.Valid() && level < g.levels
  {
    Shr((0x1000_0000_0000_0000 - 1) / 63, 6 * (MAX_LEVEL_COUNT + level - g.levels + 1))
  }

  function EntriesAtLevel(g: Geometry, level: nat): nat
    requires g.Valid() && level < g.levels
  {
    if g.levels == 1 then 1 else Shl(1, CapacityLog2(g) - CumulativeShift(g, level + 1))
  }

  /** requiredBufferSize in units of the entry stride. */
  function RequiredSlots(g: Geometry): nat
    requires g.Valid()
  {
    (Capacity(g) + 63) / 64 + Geometric(g.levels - 1)
  }

  function Slot(g: Geometry, n: Node): nat
    requires g.Valid() && n.level < g.levels
  {
    LevelOffset(g, n.level) + n.entry
  }

  predicate InPool(g: Geometry, n: Node)
    requires g.Valid()
  {
    n.level < g.levels && n.entry < EntriesAtLevel(g, n.level)
  }

  function Log2Floor(value: nat): (r: nat)
    requires value >= 1
    ensures Shl(1, r) <= value < 2 * Shl(1, r)
  {
    if value == 1 then 0
    else
      var r := Log2Floor(value / 2);
      assert Shl(1, r + 1) == 2 * Shl(1, r);
      r + 1
  }

  /** The logarithm, rounded up, of a value of at least 2; the source counts the leading zeros of value - 1. */
  function Log2Ceil(value: nat): (r: nat)
    requires value >= 2
    ensures value <= Shl(1, r) < 2 * value
  {
    assert Shl(1, Log2Floor(value - 1) + 1) == 2 * Shl(1, Log2Floor(value - 1));
    Log2Floor(value - 1) + 1
  }

  /** computeLevelCount and computeL1BitmapLog2Width, for a capacity already rounded up to 2^log2. */
  function ForCapacity(log2: nat): (g: Geometry)
    requires log2 <= 60
    ensures g.Valid() && Capacity(g) == Shl(1, log2)
  {
    var levels := if log2 <= 6 then 1 else (log2 + 5) / 6;
    Geometry(levels, log2 - 6 * (levels - 1))
  }

  lemma {:induction false} ShiftedSum(n: nat, m: nat)
    requires m <= n
    ensures Shr(Geometric(n), 6 * m) == Geometric(n - m)
  {
    if m > 0 {
      ShiftedSum(n - 1, m - 1);
      assert Shr(Geometric(n), 6) == Geometric(n - 1) by {
        ShlJoin(Geometric(n - 1), 1, 6);
        assert Shl(Geometric(n - 1), 6) == 64 * Geometric(n - 1) by { Shl6(Geometric(n - 1)); }
      }
      ShrShr(Geometric(n), 6, 6 * (m - 1));
    }
  }

  lemma Shl6(x: nat)
    ensures Shl(x, 6) == 64 * x
  {
    assert Shl(x, 1) == 2 * x;
    assert Shl(x, 2) == 2 * Shl(x, 1);
    assert Shl(x, 3) == 2 * Shl(x, 2);
    assert Shl(x, 4) == 2 * Shl(x, 3);
    assert Shl(x, 5) == 2 * Shl(x, 4);
  }

  lemma {:induction false} PowerOf64(n: nat)
    ensures Shl(1, 6 * n) == Geometric(n + 1) - Geometric(n)
  {
    if n > 0 {
      PowerOf64(n - 1);
      ShlShl(1, 6 * (n - 1), 6);
      Shl6(Shl(1, 6 * (n - 1)));
    }
  }

  lemma LevelOffsetIsSum(g: Geometry, level: nat)
    requires g.Valid() && level < g.levels
    ensures LevelOffset(g, level) == LevelStart(g, level)
  {
    TenTerms();
    ShiftedSum(10, 10 + level - g.levels + 1);
  }

  lemma TenTerms()
    ensures Geometric(10) == (0x1000_0000_0000_0000 - 1) / 63
  {
    assert Geometric(5) == 17043521;
  }

  lemma RoundedWords(words: nat)
    ensures (64 * words + 63) / 64 == words
  {
  }

  lemma OneWord(width: nat)
    requires width <= 6
    ensures (Shl(1, width) + 63) / 64 == 1
  {
    assert 1 <= Shl(1, width) <= 64 by {
      ShlOneMono(width, 6);
      Shl6(1);
    }
  }

  lemma WholeWords(g: Geometry)
    requires g.Valid()
    ensures (Capacity(g) + 63) / 64 == EntriesAtLevel(g, 0)
  {
    if g.levels > 1 {
      var words := Shl(1, CapacityLog2(g) - 6);
      assert Capacity(g) == 64 * words by {
        ShlShl(1, CapacityLog2(g) - 6, 6);
        Shl6(words);
      }
      RoundedWords(words);
    } else {
      OneWord(g.l1Width);
    }
  }

  lemma UpperLevelEntries(g: Geometry, level: nat)
    requires g.Valid() && 0 < level < g.levels
    ensures EntriesAtLevel(g, level) == Shl(1, 6 * (g.levels - 1 - level))
  {
    assert CapacityLog2(g) - CumulativeShift(g, level + 1) == 6 * (g.levels - 1 - level);
  }

  /** A level occupies exactly the slots between its start and the start of the level below it. */
  lemma LevelExtent(g: Geometry, level: nat)
    requires g.Valid() && 0 < level < g.levels
    ensures LevelStart(g, level) + EntriesAtLevel(g, level) == LevelStart(g, level - 1)
  {
    UpperLevelEntries(g, level);
    PowerOf64(g.levels - 1 - level);
  }

  lemma BottomExtent(g: Geometry)
    requires g.Valid()
    ensures LevelStart(g, 0) + EntriesAtLevel(g, 0) == RequiredSlots(g)
  {
    WholeWords(g);
  }

  lemma {:induction false} LowerLevelsLieAbove(g: Geometry, low: nat, high: nat)
    requires g.Valid() && low < high < g.levels
    ensures LevelStart(g, high) + EntriesAtLevel(g, high) <= LevelStart(g, low)
  {
    LevelExtent(g, high);
    if low < high - 1 {
      LowerLevelsLieAbove(g, low, high - 1);
    }
  }

  lemma LevelInBuffer(g: Geometry, level: nat)
    requires g.Valid() && level < g.levels
    ensures LevelStart(g, level) + EntriesAtLevel(g, level) <= RequiredSlots(g)
  {
    var below := LevelStart(g, 0) + EntriesAtLevel(g, 0);
    assert below == RequiredSlots(g) by {
      BottomExtent(g);
    }
    if level > 0 {
      LowerLevelsLieAbove(g, 0, level);
      assert LevelStart(g, level) + EntriesAtLevel(g, level) <= below;
    }
  }

  /** entryAt places different entries in different slots of the buffer, and none outside it. */
  lemma SlotsAreDistinct(g: Geometry, a: Node, b: Node)
    requires g.Valid() && InPool(g, a) && InPool(g, b)
    ensures Slot(g, a) < RequiredSlots(g)
    ensures a != b ==> Slot(g, a) != Slot(g, b)
  {
    LevelOffsetIsSum(g, a.level);
    LevelOffsetIsSum(g, b.level);
    LevelInBuffer(g, a.level);
    if a.level < b.level {
      LowerLevelsLieAbove(g, a.level, b.level);
    } else if b.level < a.level {
      LowerLevelsLieAbove(g, b.level, a.level);
    }
  }

  /** The children of an entry of the pool are entries of the pool. */
  lemma ChildrenAreInPool(g: Geometry, n: Node, bit: nat)
    requires g.Valid() && InPool(g, n) && n.level > 0 && bit < Fanout(g, n.level)
    ensures InPool(g, Node(n.level - 1, ChildEntryIndex(g, n.entry, bit, n.level)))
  {
    EntriesBelow(g, n.level);
    PlaceBelow(n.entry, bit, EntriesAtLevel(g, n.level), ShiftForLevel(g, n.level));
  }

  lemma EntriesBelow(g: Geometry, level: nat)
    requires g.Valid() && 0 < level < g.levels
    ensures EntriesAtLevel(g, level - 1) == Shl(EntriesAtLevel(g, level), ShiftForLevel(g, level))
  {
    var k, shift := CapacityLog2(g) - CumulativeShift(g, level + 1), ShiftForLevel(g, level);
    assert CapacityLog2(g) - CumulativeShift(g, level) == k + shift;
    ShlShl(1, k, shift);
  }

  lemma PlaceBelow(entry: nat, bit: nat, entries: nat, shift: nat)
    requires entry < entries && bit < Shl(1, shift)
    ensures Shl(entry, shift) + bit < Shl(entries, shift)
  {
    Compare(entry, bit, entries, 0, shift);
  }

  /** How many entries of 2^shift indices cover 2^total of them. */
  function EntriesAbove(total: nat, shift: nat): nat {
    if total <= shift then 1 else Shl(1, total - shift)
  }

  lemma EntriesAre(g: Geometry, level: nat)
    requires g.Valid() && level < g.levels
    ensures EntriesAtLevel(g, level) == EntriesAbove(CapacityLog2(g), CumulativeShift(g, level + 1))
  {
  }

  lemma EntryBelow(index: nat, capacity: nat, total: nat, shift: nat, entries: nat)
    requires index < capacity == Shl(1, total) && entries == EntriesAbove(total, shift)
    ensures Shr(index, shift) < entries
  {
    ShrInside(index, total, shift);
  }

  /** Each entry that covers an index of the pool is one of the pool's entries. */
  lemma NodesAreInPool(g: Geometry, index: nat, level: nat)
    requires g.Valid() && index < Capacity(g) && level < g.levels
    ensures InPool(g, NodeOf(g, index, level))
  {
    EntriesAre(g, level);
    CumulativeStep(g, level);
    EntryBelow(index, Capacity(g), CapacityLog2(g), CumulativeShift(g, level + 1), EntriesAtLevel(g, level));
  }
}
