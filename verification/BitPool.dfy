/**
 The memory of an AtomicBitPool and the quiescent specification that `checkInvariants` states.

 A 64-bit word is the set of its set bits. Level 0 bitmaps together are the set of indices
 present; the bitmaps above are the set of child entries whose hint bit is set in their parent.
 A count that was never written is zero, as the constructor's memset leaves it.
 */
module BitPool {
  import opened BitPoolGeometry
  import opened Arith

  datatype Pool = Pool(bits: set<nat>, counts: map<Node, int>, hints: set<Node>) {
    function Count(n: Node): int {
      if n in counts then counts[n] else 0
    }

    function AddCount(n: Node, delta: int): Pool {
      this.(counts := counts[n := Count(n) + delta])
    }

    /** fetch_xor of one bit of the parent's bitmap. */
    function ToggleHint(n: Node): Pool {
      this.(hints := if n in hints then hints - {n} else hints + {n})
    }
  }

  const FRESH := Pool({}, map[], {})

  /** The indices present under an entry. For a level 0 entry this is its bitmap. */
  function Below(g: Geometry, bits: set<nat>, n: Node): set<nat> {
    set i | i in bits && NodeOf(g, i, n.level) == n
  }

  /** The bitmap of an entry above level 0. */
  function Bitmap(g: Geometry, hints: set<Node>, n: Node): set<Node> {
    set c | c in hints && Parent(g, c) == n
  }

  lemma BelowAdd(g: Geometry, bits: set<nat>, i: nat, n: Node)
    requires i !in bits
    ensures |Below(g, bits + {i}, n)| == |Below(g, bits, n)| + (if NodeOf(g, i, n.level) == n then 1 else 0)
  {
    if NodeOf(g, i, n.level) == n {
      assert Below(g, bits + {i}, n) == Below(g, bits, n) + {i};
    } else {
      assert Below(g, bits + {i}, n) == Below(g, bits, n);
    }
  }

  lemma BelowRemove(g: Geometry, bits: set<nat>, i: nat, n: Node)
    requires i in bits
    ensures |Below(g, bits - {i}, n)| == |Below(g, bits, n)| - (if NodeOf(g, i, n.level) == n then 1 else 0)
  {
    assert bits - {i} + {i} == bits;
    BelowAdd(g, bits - {i}, i, n);
  }

  // ----- the quiescent specification -----

  function SumCounts(p: Pool, level: nat, first: nat, n: nat): int {
    if n == 0 then 0 else SumCounts(p, level, first, n - 1) + p.Count(Node(level, first + n - 1))
  }

  /**
   What `checkInvariants` tests of every entry: each hint bit says whether the child's count is positive, each
   count above level 0 (except the unused top one) is the sum of its children's counts, and each
   level 0 count is the popcount of its bitmap (unless level 0 is also the top).
   */
  ghost predicate CheckInvariants(g: Geometry, p: Pool)
    requires g.Valid()
  {
    forall n: Node :: InPool(g, n) ==> CheckEntry(g, p, n)
  }

  ghost predicate CheckEntry(g: Geometry, p: Pool, n: Node) {
    n.level + 1 < g.levels ==>
      && (n in p.hints <==> p.Count(n) > 0)
      && (n.level > 0 ==>
            p.Count(n) == SumCounts(p, n.level - 1, ChildEntryIndex(g, n.entry, 0, n.level), Fanout(g, n.level)))
      && (n.level == 0 ==> p.Count(n) == |Below(g, p.bits, n)|)
  }

  /** Each count is the number of indices present below its entry, and each hint tells whether there are any. */
  ghost predicate Exact(g: Geometry, p: Pool)
    requires g.Valid()
  {
    forall n: Node :: InPool(g, n) ==> ExactAt(g, p, n)
  }

  ghost predicate ExactAt(g: Geometry, p: Pool, n: Node) {
    n.level + 1 < g.levels ==> p.Count(n) == |Below(g, p.bits, n)| && (n in p.hints <==> p.Count(n) > 0)
  }

  /** The indices under the first m children of an entry. */
  function BelowChildren(g: Geometry, bits: set<nat>, n: Node, m: nat): set<nat>
    requires n.level > 0
  {
    set i | i in bits && NodeOf(g, i, n.level) == n && BitIndexForLevel(g, i, n.level) < m
  }

  /** An index lies under child number `bit` of an entry exactly when its bit at that level is `bit`. */
  lemma UnderChild(g: Geometry, i: nat, n: Node, bit: nat)
    requires n.level > 0 && bit < Fanout(g, n.level)
    ensures NodeOf(g, i, n.level) == n && BitIndexForLevel(g, i, n.level) == bit
       <==> NodeOf(g, i, n.level - 1) == Node(n.level - 1, ChildEntryIndex(g, n.entry, bit, n.level))
  {
    BitIndexAgrees(g, i, n.level - 1);
    ParentOfIndex(g, i, n.level - 1);
    ChildParentRoundTrip(g, n.entry, bit, n.level - 1);
  }

  /** A count agrees with the bits below its entry. */
  ghost predicate CountExact(g: Geometry, p: Pool, n: Node) {
    p.Count(n) == |Below(g, p.bits, n)|
  }

  ghost predicate ChildExact(g: Geometry, p: Pool, n: Node, bit: nat)
    requires n.level > 0
  {
    CountExact(g, p, Node(n.level - 1, ChildEntryIndex(g, n.entry, bit, n.level)))
  }

  lemma {:induction false} ChildrenSum(g: Geometry, p: Pool, n: Node, m: nat)
    requires 0 < n.level && m <= Fanout(g, n.level)
    requires forall b :: 0 <= b < m ==> ChildExact(g, p, n, b)
    ensures SumCounts(p, n.level - 1, ChildEntryIndex(g, n.entry, 0, n.level), m) == |BelowChildren(g, p.bits, n, m)|
  {
    if m == 0 {
      assert BelowChildren(g, p.bits, n, m) == {};
    } else {
      ChildrenSum(g, p, n, m - 1);
      AppendChild(g, p.bits, n, m - 1);
      assert ChildExact(g, p, n, m - 1);
    }
  }

  lemma AppendChild(g: Geometry, bits: set<nat>, n: Node, m: nat)
    requires 0 < n.level && m < Fanout(g, n.level)
    ensures var c := Node(n.level - 1, ChildEntryIndex(g, n.entry, m, n.level));
            |BelowChildren(g, bits, n, m + 1)| == |BelowChildren(g, bits, n, m)| + |Below(g, bits, c)|
  {
    var c := Node(n.level - 1, ChildEntryIndex(g, n.entry, m, n.level));
    forall i | i in bits
      ensures NodeOf(g, i, n.level) == n && BitIndexForLevel(g, i, n.level) == m <==> NodeOf(g, i, c.level) == c
    {
      UnderChild(g, i, n, m);
    }
    assert BelowChildren(g, bits, n, m + 1) == BelowChildren(g, bits, n, m) + Below(g, bits, c);
    assert BelowChildren(g, bits, n, m) !! Below(g, bits, c);
  }

  lemma AllChildren(g: Geometry, bits: set<nat>, n: Node)
    requires 0 < n.level
    ensures BelowChildren(g, bits, n, Fanout(g, n.level)) == Below(g, bits, n)
  {
    forall i | i in bits ensures BitIndexForLevel(g, i, n.level) < Fanout(g, n.level) {
      ShrLow(Shr(i, CumulativeShift(g, n.level)), ShiftForLevel(g, n.level));
    }
  }

  lemma {:induction false} CheckedCount(g: Geometry, p: Pool, n: Node)
    requires g.Valid() && CheckInvariants(g, p) && n.level + 1 < g.levels && InPool(g, n)
    ensures CountExact(g, p, n)
    decreases n.level
  {
    assert CheckEntry(g, p, n);
    if n.level > 0 {
      forall b | 0 <= b < Fanout(g, n.level) ensures ChildExact(g, p, n, b) {
        ChildrenAreInPool(g, n, b);
        CheckedCount(g, p, Node(n.level - 1, ChildEntryIndex(g, n.entry, b, n.level)));
      }
      ChildrenSum(g, p, n, Fanout(g, n.level));
      AllChildren(g, p.bits, n);
    }
  }

  lemma ExactEntry(g: Geometry, p: Pool, n: Node)
    requires g.Valid() && Exact(g, p) && InPool(g, n)
    ensures CheckEntry(g, p, n)
  {
    assert ExactAt(g, p, n);
    if 0 < n.level && n.level + 1 < g.levels {
      forall b | 0 <= b < Fanout(g, n.level) ensures ChildExact(g, p, n, b) {
        ChildrenAreInPool(g, n, b);
        assert ExactAt(g, p, Node(n.level - 1, ChildEntryIndex(g, n.entry, b, n.level)));
      }
      ChildrenSum(g, p, n, Fanout(g, n.level));
      AllChildren(g, p.bits, n);
    }
  }

  /** What `checkInvariants` accepts is exactly a pool whose counts and hints are exact. */
  lemma CheckMeansExact(g: Geometry, p: Pool)
    requires g.Valid()
    ensures CheckInvariants(g, p) <==> Exact(g, p)
  {
    if Exact(g, p) {
      forall n: Node | InPool(g, n) ensures CheckEntry(g, p, n) {
        ExactEntry(g, p, n);
      }
    }
    if CheckInvariants(g, p) {
      forall n: Node | InPool(g, n) ensures ExactAt(g, p, n) {
        assert CheckEntry(g, p, n);
        if n.level + 1 < g.levels {
          CheckedCount(g, p, n);
        }
      }
    }
  }
}
