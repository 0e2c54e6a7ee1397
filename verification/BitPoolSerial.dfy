/**
 AtomicBitPool run one call at a time: the pool is a finite set of indices, and every result
 code is exact.
 */
module BitPoolSerial {

  import opened Wrappers
  import opened Arith
  import opened BitPoolGeometry
  import opened BitPool

  datatype AddResult = AlreadyPresent | AddedToNonempty | AddedToEmpty
  datatype RemoveResult = NotPresent | RemovedAndMadeEmpty | RemovedAndStayedNonempty
  datatype GetResult = Success(index: nat) | Empty | Contended

  datatype CountResult = CountResult(newCount: int, toggledTopLevel: bool, poolTransitioned: bool)

  // ----- choosing a bit of a word -----

  /** The hash of getAny: the thread id mixed with the retry count, in 64-bit arithmetic. */
  function Hash(threadId: bv64, retry: nat): nat {
    (threadId ^ (((retry % 0x1_0000_0000_0000_0000) as bv64) * 2654435761)) as nat
  }

  /** The bit of the word that a left rotation by r moves to position j. */
  function Rotated(r: nat, j: nat): nat
    requires r < 64 && j < 64
  {
    (j + 64 - r) % 64
  }

  function TrailingFrom(word: set<nat>, r: nat, j: nat): nat
    requires r < 64 && j <= 64
    decreases 64 - j
  {
    if j == 64 || Rotated(r, j) in word then j else TrailingFrom(word, r, j + 1)
  }

  function LeadingFrom(word: set<nat>, r: nat, j: int): int
    requires r < 64 && -1 <= j < 64
    decreases j
  {
    if j == -1 || Rotated(r, j) in word then j else LeadingFrom(word, r, j - 1)
  }

  /** doRotation: the lowest or the highest set bit of the rotated word, rotated back. */
  function Rotation(word: set<nat>, hash: nat): nat {
    var r := hash % 64;
    var position := if (hash / 64) % 2 == 1 then LeadingFrom(word, r, 63) else TrailingFrom(word, r, 0);
    (position + 64 - r) % 64
  }

  lemma {:induction false} TrailingFound(word: set<nat>, r: nat, j: nat, b: nat)
    requires r < 64 && j <= 64 && b in word && b < 64 && j <= (b + r) % 64
    ensures TrailingFrom(word, r, j) < 64 && Rotated(r, TrailingFrom(word, r, j)) in word
    decreases 64 - j
  {
    if j < 64 && Rotated(r, j) !in word {
      TrailingFound(word, r, j + 1, b);
    }
  }

  lemma {:induction false} LeadingFound(word: set<nat>, r: nat, j: int, b: nat)
    requires r < 64 && -1 <= j < 64 && b in word && b < 64 && (b + r) % 64 <= j
    ensures 0 <= LeadingFrom(word, r, j) < 64 && Rotated(r, LeadingFrom(word, r, j)) in word
    decreases j
  {
    if Rotated(r, j) !in word {
      LeadingFound(word, r, j - 1, b);
    }
  }

  /** Whatever the hash, the rotation of a non-zero word names a set bit of that word. */
  lemma RotationPicksSetBit(word: set<nat>, hash: nat)
    requires word != {} && forall b :: b in word ==> b < 64
    ensures Rotation(word, hash) in word
  {
    var b :| b in word;
    var r := hash % 64;
    TrailingFound(word, r, 0, b);
    LeadingFound(word, r, 63, b);
  }

  /** The bitmap words as bit positions. */
  function LeafWord(g: Geometry, bits: set<nat>, entry: nat): set<nat> {
    set i | i in Below(g, bits, Node(0, entry)) :: BitIndexForLevel(g, i, 0)
  }

  function HintWord(g: Geometry, hints: set<Node>, n: Node): set<nat> {
    set c | c in Bitmap(g, hints, n) :: BitIndexInParent(g, c.entry, c.level)
  }

  lemma LeafBit(g: Geometry, bits: set<nat>, entry: nat, b: nat)
    requires b in LeafWord(g, bits, entry)
    ensures b < 64 && Shl(entry, 6) + b in bits && NodeOf(g, Shl(entry, 6) + b, 0) == Node(0, entry)
  {
    var i :| i in Below(g, bits, Node(0, entry)) && b == BitIndexForLevel(g, i, 0);
    assert entry == Shr(i, 6) && b == Low(i, 6) by {
      assert Shr(i, 0) == i;
    }
    assert i == Shl(entry, 6) + b by {
      ShrLow(i, 6);
    }
    assert b < 64 by {
      ShrLow(i, 6);
      Shl6(1);
    }
  }

  lemma HintBit(g: Geometry, hints: set<Node>, n: Node, b: nat)
    requires g.Valid() && n.level > 0 && b in HintWord(g, hints, n)
    ensures b < 64 && b < Fanout(g, n.level) && Node(n.level - 1, ChildEntryIndex(g, n.entry, b, n.level)) in hints
  {
    var c :| c in Bitmap(g, hints, n) && b == BitIndexInParent(g, c.entry, c.level);
    ShrLow(c.entry, ShiftForLevel(g, n.level));
    ShlOneMono(ShiftForLevel(g, n.level), 6);
    Shl6(1);
  }

  // ----- the state between the atomic operations of one call -----

  /** incrementCount and decrementCount: the count, then the parent's hint when it crosses zero. */
  function CountChange(g: Geometry, p: Pool, n: Node, delta: int): Pool {
    var q := p.AddCount(n, delta);
    if n.level + 1 < g.levels && ((p.Count(n) > 0) != (p.Count(n) + delta > 0)) then q.ToggleHint(n) else q
  }

  /** Every count and hint is exact, but for one unit missing on the path of x from level lo up. */
  ghost predicate Midway(g: Geometry, p: Pool, x: nat, lo: nat) {
    forall n: Node :: MidwayAt(g, p, x, lo, n)
  }

  ghost predicate MidwayAt(g: Geometry, p: Pool, x: nat, lo: nat, n: Node) {
    n.level + 1 < g.levels ==>
      && p.Count(n) == |Below(g, p.bits, n)| - (if lo <= n.level && NodeOf(g, x, n.level) == n then 1 else 0)
      && (n in p.hints <==> p.Count(n) > 0)
  }

  ghost predicate BitsInRange(g: Geometry, bits: set<nat>)
    requires g.Valid()
  {
    forall i :: i in bits ==> i < Capacity(g)
  }

  /** The check passes, and nothing was ever written outside the pool's entries. */
  ghost predicate Sound(g: Geometry, p: Pool)
    requires g.Valid()
  {
    CheckInvariants(g, p) && forall n: Node :: BlankOutside(g, p, n)
  }

  ghost predicate BlankOutside(g: Geometry, p: Pool, n: Node)
    requires g.Valid()
  {
    n.level + 1 < g.levels && !InPool(g, n) ==> p.Count(n) == 0 && n !in p.hints
  }

  lemma MidwayAtTop(g: Geometry, p: Pool, x: nat)
    requires g.Valid() && BitsInRange(g, p.bits)
    ensures Midway(g, p, x, g.levels - 1) <==> Sound(g, p)
  {
    CheckMeansExact(g, p);
    var top := g.levels - 1;
    forall n: Node ensures MidwayAt(g, p, x, top, n) <==> (InPool(g, n) ==> ExactAt(g, p, n)) && BlankOutside(g, p, n) {
      if n.level < top && !InPool(g, n) {
        NothingOutside(g, p.bits, n);
      }
    }
  }

  lemma NothingOutside(g: Geometry, bits: set<nat>, n: Node)
    requires g.Valid() && BitsInRange(g, bits) && n.level < g.levels && !InPool(g, n)
    ensures Below(g, bits, n) == {}
  {
    forall i | i in bits ensures NodeOf(g, i, n.level) != n {
      NodesAreInPool(g, i, n.level);
    }
  }

  /** A missing unit moves up a level when it is repaid there, and down when one more is taken. */
  lemma RepayUnit(g: Geometry, p: Pool, x: nat, lo: nat)
    requires Midway(g, p, x, lo) && lo + 1 < g.levels
    ensures Midway(g, CountChange(g, p, NodeOf(g, x, lo), 1), x, lo + 1)
  {
    var q, lo' := CountChange(g, p, NodeOf(g, x, lo), 1), lo + 1;
    forall n: Node ensures MidwayAt(g, q, x, lo', n) {
      assert MidwayAt(g, p, x, lo, n);
    }
  }

  lemma TakeUnit(g: Geometry, p: Pool, x: nat, lo: nat)
    requires Midway(g, p, x, lo + 1) && lo + 1 < g.levels
    ensures Midway(g, CountChange(g, p, NodeOf(g, x, lo), -1), x, lo)
  {
    forall n: Node ensures MidwayAt(g, CountChange(g, p, NodeOf(g, x, lo), -1), x, lo, n) {
      assert MidwayAt(g, p, x, lo + 1, n);
    }
  }

  /** Setting an index makes its whole path owe a unit; clearing it settles the path. */
  lemma SetBit(g: Geometry, p: Pool, x: nat)
    requires g.Valid() && BitsInRange(g, p.bits) && Sound(g, p) && x !in p.bits
    ensures Midway(g, p.(bits := p.bits + {x}), x, 0)
  {
    MidwayAtTop(g, p, x);
    forall n: Node ensures MidwayAt(g, p.(bits := p.bits + {x}), x, 0, n) {
      assert MidwayAt(g, p, x, g.levels - 1, n);
      BelowAdd(g, p.bits, x, n);
    }
  }

  lemma ClearBit(g: Geometry, p: Pool, x: nat)
    requires g.Valid() && BitsInRange(g, p.bits) && Midway(g, p, x, 0) && x in p.bits
    ensures Sound(g, p.(bits := p.bits - {x}))
  {
    var q, top := p.(bits := p.bits - {x}), g.levels - 1;
    forall n: Node ensures MidwayAt(g, q, x, top, n) {
      assert MidwayAt(g, p, x, 0, n);
      BelowRemove(g, p.bits, x, n);
    }
    MidwayAtTop(g, q, x);
  }

  lemma UnderTop(g: Geometry, i: nat)
    requires g.Valid() && g.levels >= 2 && i < Capacity(g)
    ensures Parent(g, NodeOf(g, i, g.levels - 2)) == Node(g.levels - 1, 0)
  {
    ParentOfIndex(g, i, g.levels - 2);
    TopCoversAll(g, i);
  }

  /** Any index outside the entry of x shows in the top word. */
  lemma OthersShow(g: Geometry, p: Pool, x: nat, lo: nat, j: nat)
    requires g.Valid() && g.levels - 2 <= lo && g.levels >= 2 && Midway(g, p, x, lo)
    requires j in p.bits && j < Capacity(g) && NodeOf(g, j, g.levels - 2) != NodeOf(g, x, g.levels - 2)
    ensures NodeOf(g, j, g.levels - 2) in Bitmap(g, p.hints, Node(g.levels - 1, 0))
  {
    UnderTop(g, j);
    assert j in Below(g, p.bits, NodeOf(g, j, g.levels - 2));
    assert MidwayAt(g, p, x, lo, NodeOf(g, j, g.levels - 2));
  }

  /**
   The emptiness signals: an index is the only one exactly when its entry below the top covers
   nothing else and no other hint is set in the top word.
   */
  lemma OnlyIndex(g: Geometry, p: Pool, x: nat, lo: nat)
    requires g.Valid() && g.levels - 2 <= lo && g.levels >= 2 && Midway(g, p, x, lo) && x in p.bits
    requires forall i :: i in p.bits ==> i < Capacity(g)
    ensures var n := NodeOf(g, x, g.levels - 2);
      |Below(g, p.bits, n)| == 1 && Bitmap(g, p.hints, Node(g.levels - 1, 0)) <= {n} <==> p.bits == {x}
  {
    var n, word := NodeOf(g, x, g.levels - 2), Bitmap(g, p.hints, Node(g.levels - 1, 0));
    var here := Below(g, p.bits, n);
    assert x in here;
    if |here| == 1 && word <= {n} {
      assert |here - {x}| == 0;
      forall j | j in p.bits && NodeOf(g, j, g.levels - 2) != n ensures NodeOf(g, j, g.levels - 2) in word {
        OthersShow(g, p, x, lo, j);
      }
      assert p.bits <= here;
    }
    if p.bits == {x} {
      assert here == {x};
      forall c | c in word ensures c == n {
        assert MidwayAt(g, p, x, lo, c);
        assert Below(g, p.bits, c) != {};
      }
    }
  }

  /** The signal incrementCount gives on the level below the top: the added index is the only one. */
  lemma AddSignal(g: Geometry, p: Pool, x: nat)
    requires g.Valid() && g.levels >= 2 && Midway(g, p, x, g.levels - 2) && x in p.bits
    requires forall i :: i in p.bits ==> i < Capacity(g)
    ensures var n := NodeOf(g, x, g.levels - 2);
      p.Count(n) == 0 && Bitmap(g, p.hints, Parent(g, n)) == {} <==> p.bits == {x}
  {
    OnlyIndex(g, p, x, g.levels - 2);
    UnderTop(g, x);
    assert MidwayAt(g, p, x, g.levels - 2, NodeOf(g, x, g.levels - 2));
  }

  /** The signal decrementCount gives there: the index to be removed is the only one. */
  lemma RemoveSignal(g: Geometry, p: Pool, x: nat)
    requires g.Valid() && g.levels >= 2 && Midway(g, p, x, g.levels - 1) && x in p.bits
    requires forall i :: i in p.bits ==> i < Capacity(g)
    ensures var n := NodeOf(g, x, g.levels - 2);
      p.Count(n) == 1 && Bitmap(g, CountChange(g, p, n, -1).hints, Parent(g, n)) == {} <==> p.bits == {x}
  {
    var n := NodeOf(g, x, g.levels - 2);
    OnlyIndex(g, p, x, g.levels - 1);
    UnderTop(g, x);
    assert MidwayAt(g, p, x, g.levels - 1, n);
    assert p.Count(n) == 1 ==> Bitmap(g, CountChange(g, p, n, -1).hints, Parent(g, n)) == Bitmap(g, p.hints, Parent(g, n)) - {n};
  }

  lemma PresentHasCount(g: Geometry, p: Pool, x: nat, level: nat)
    requires Midway(g, p, x, level + 1) && level + 1 < g.levels && x in p.bits
    ensures p.Count(NodeOf(g, x, level)) >= 1
  {
    assert x in Below(g, p.bits, NodeOf(g, x, level));
    assert MidwayAt(g, p, x, level + 1, NodeOf(g, x, level));
  }

  lemma SingleWord(g: Geometry, bits: set<nat>, index: nat)
    requires g.Valid() && g.levels == 1 && index < Capacity(g) && forall i :: i in bits ==> i < Capacity(g)
    ensures Below(g, bits, NodeOf(g, index, 0)) == bits
  {
    var n := NodeOf(g, index, 0);
    TopCoversAll(g, index);
    forall i | i in bits ensures NodeOf(g, i, 0) == n {
      TopCoversAll(g, i);
    }
  }

  /** A set hint, or a bit below an entry, leads the descent on. */
  lemma DescentFindsChild(g: Geometry, p: Pool, x: nat, level: nat)
    requires g.Valid() && 0 < level < g.levels && Midway(g, p, x, level)
    requires Below(g, p.bits, NodeOf(g, x, level)) != {}
    ensures HintWord(g, p.hints, NodeOf(g, x, level)) != {}
  {
    var n := NodeOf(g, x, level);
    var i :| i in Below(g, p.bits, n);
    var c := NodeOf(g, i, level - 1);
    ParentOfIndex(g, i, level - 1);
    assert i in Below(g, p.bits, c);
    assert MidwayAt(g, p, x, level, c);
    assert c in Bitmap(g, p.hints, n);
    assert BitIndexInParent(g, c.entry, c.level) in HintWord(g, p.hints, n);
  }

  lemma HintsAreBits(g: Geometry, hints: set<Node>, n: Node)
    requires g.Valid() && n.level > 0
    ensures forall b :: b in HintWord(g, hints, n) ==> b < 64
  {
    forall b | b in HintWord(g, hints, n) ensures b < 64 {
      HintBit(g, hints, n, b);
    }
  }

  lemma WordOfBits(g: Geometry, bits: set<nat>, entry: nat)
    ensures LeafWord(g, bits, entry) == {} <==> Below(g, bits, Node(0, entry)) == {}
    ensures forall b :: b in LeafWord(g, bits, entry) ==> b < 64
  {
    forall b | b in LeafWord(g, bits, entry) ensures b < 64 {
      LeafBit(g, bits, entry, b);
    }
    forall i | i in Below(g, bits, Node(0, entry)) ensures BitIndexForLevel(g, i, 0) in LeafWord(g, bits, entry) {
    }
  }

  lemma SamePath(g: Geometry, p: Pool, x: nat, y: nat)
    requires Midway(g, p, x, 0) && NodeOf(g, x, 0) == NodeOf(g, y, 0)
    ensures Midway(g, p, y, 0)
  {
    forall n: Node ensures MidwayAt(g, p, y, 0, n) {
      assert MidwayAt(g, p, x, 0, n);
      SameAncestors(g, x, y, 0, n.level);
    }
  }

  /** Choosing a child keeps the entries above it, and so the units taken on them. */
  lemma ChildPath(g: Geometry, p: Pool, x: nat, level: nat, b: nat)
    requires g.Valid() && 0 < level < g.levels && Midway(g, p, x, level)
    requires b in HintWord(g, p.hints, NodeOf(g, x, level))
    ensures var c := Node(level - 1, ChildEntryIndex(g, EntryIndexForLevel(g, x, level), b, level));
      && NodeOf(g, FirstIndex(g, c), level - 1) == c && NodeOf(g, FirstIndex(g, c), level) == NodeOf(g, x, level)
      && Midway(g, p, FirstIndex(g, c), level)
      && p.Count(c) >= 1 && Below(g, p.bits, c) != {}
  {
    var n := NodeOf(g, x, level);
    var c := Node(level - 1, ChildEntryIndex(g, n.entry, b, level));
    var y := FirstIndex(g, c);
    HintBit(g, p.hints, n, b);
    FirstIndexUnder(g, c);
    ChildParentRoundTrip(g, n.entry, b, level - 1);
    ParentOfIndex(g, y, level - 1);
    forall n: Node ensures MidwayAt(g, p, y, level, n) {
      assert MidwayAt(g, p, x, level, n);
      if level <= n.level {
        SameAncestors(g, x, y, level, n.level);
      }
    }
    assert MidwayAt(g, p, x, level, c);
  }

  /** A hinted child has a positive count and a bit below, whichever the rotation picks. */
  lemma ChosenChild(g: Geometry, p: Pool, x: nat, level: nat, hash: nat)
    requires g.Valid() && 0 < level < g.levels && Midway(g, p, x, level)
    requires HintWord(g, p.hints, NodeOf(g, x, level)) != {}
    ensures var n := NodeOf(g, x, level);
      var c := Node(level - 1, ChildEntryIndex(g, n.entry, Rotation(HintWord(g, p.hints, n), hash), level));
      && p.Count(c) >= 1 && Below(g, p.bits, c) != {} && NodeOf(g, FirstIndex(g, c), level - 1) == c
      && NodeOf(g, FirstIndex(g, c), level) == n && Midway(g, CountChange(g, p, c, -1), FirstIndex(g, c), level - 1)
  {
    var n := NodeOf(g, x, level);
    var word := HintWord(g, p.hints, n);
    HintsAreBits(g, p.hints, n);
    RotationPicksSetBit(word, hash);
    ChildPath(g, p, x, level, Rotation(word, hash));
    var c := Node(level - 1, ChildEntryIndex(g, n.entry, Rotation(word, hash), level));
    TakeUnit(g, p, FirstIndex(g, c), level - 1);
  }

  /** decrementedAt records the entries of the path from a level up to the one below the top, and nothing else. */
  ghost predicate Holds(g: Geometry, decrementedAt: seq<Option<nat>>, x: nat, level: nat) {
    |decrementedAt| == g.levels && forall k {:trigger decrementedAt[k]} :: 0 <= k < g.levels ==>
      decrementedAt[k] == if level <= k < g.levels - 1 then Some(EntryIndexForLevel(g, x, k)) else None
  }

  lemma HoldsChild(g: Geometry, decrementedAt: seq<Option<nat>>, x: nat, y: nat, level: nat, child: nat)
    requires 0 < level < g.levels && Holds(g, decrementedAt, x, level) && NodeOf(g, y, level - 1) == Node(level - 1, child)
    requires forall k :: level <= k < g.levels ==> NodeOf(g, y, k) == NodeOf(g, x, k)
    ensures Holds(g, decrementedAt[level - 1 := Some(child)], y, level - 1)
  {
    assert forall k :: level <= k < g.levels ==> NodeOf(g, y, k) == Node(k, EntryIndexForLevel(g, x, k));
  }

  /** How far a back-out of the units from a level up has come when it has looked at the first k levels. */
  function Later(level: nat, k: nat, top: nat): nat {
    if k <= level then level else if k <= top then k else top
  }

  lemma AllBelowTop(g: Geometry, bits: set<nat>)
    requires g.Valid() && forall i :: i in bits ==> i < Capacity(g)
    ensures NodeOf(g, 0, g.levels - 1) == Node(g.levels - 1, 0)
    ensures Below(g, bits, Node(g.levels - 1, 0)) == bits
  {
    TopCoversAll(g, 0);
    forall i | i in bits ensures NodeOf(g, i, g.levels - 1) == Node(g.levels - 1, 0) {
      TopCoversAll(g, i);
    }
  }

  lemma EmptyTopWord(g: Geometry, p: Pool, x: nat)
    requires g.Valid() && g.levels > 1 && Midway(g, p, x, g.levels - 1) && NodeOf(g, x, g.levels - 1).entry == 0
    requires Below(g, p.bits, Node(g.levels - 1, 0)) == p.bits
    ensures HintWord(g, p.hints, Node(g.levels - 1, 0)) == {} <==> p.bits == {}
  {
    if p.bits != {} {
      DescentFindsChild(g, p, x, g.levels - 1);
    } else {
      forall c | c in p.hints ensures Parent(g, c) != Node(g.levels - 1, 0) {
        assert MidwayAt(g, p, x, g.levels - 1, c);
        assert Below(g, p.bits, c) == {};
      }
    }
  }

  class AtomicBitPool {
    const g: Geometry
    var bits: set<nat>
    var counts: map<Node, int>
    var hints: set<Node>

    function Memory(): Pool
      reads this
    {
      Pool(bits, counts, hints)
    }

    ghost predicate InRange()
      reads this
    {
      g.Valid() && BitsInRange(g, bits)
    }

    ghost predicate Valid()
      reads this
    {
      InRange() && Sound(g, Memory())
    }

    /** The capacity is rounded up to a power of two. */
    constructor (capacity: nat)
      requires 2 <= capacity && Log2Ceil(capacity) <= 60
      ensures Valid() && bits == {}
      ensures Capacity(g) == Shl(1, Log2Ceil(capacity)) && capacity <= Capacity(g) < 2 * capacity
    {
      g := ForCapacity(Log2Ceil(capacity));
      bits, counts, hints := {}, map[], {};
      new;
      forall n: Node ensures ExactAt(g, Memory(), n) {
        assert Below(g, {}, n) == {};
      }
      CheckMeansExact(g, Memory());
    }

    method IncrementCount(n: Node) returns (r: CountResult)
      requires InRange() && n.level + 1 < g.levels
      modifies this`counts, this`hints
      ensures Memory() == CountChange(g, old(Memory()), n, 1)
      ensures r.newCount == old(Memory()).Count(n) + 1
      ensures r.toggledTopLevel <==> old(Memory()).Count(n) == 0 && n.level + 2 == g.levels
      ensures r.poolTransitioned <==> r.toggledTopLevel && old(Bitmap(g, hints, Parent(g, n))) == {}
    {
      var oldCount := Memory().Count(n);
      counts := counts[n := oldCount + 1];
      r := CountResult(oldCount + 1, false, false);
      if oldCount == 0 {
        var oldBitmap := Bitmap(g, hints, Parent(g, n));
        hints := Memory().ToggleHint(n).hints;
        if n.level == g.levels - 2 {
          r := CountResult(oldCount + 1, true, oldBitmap == {});
        }
      }
    }

    method DecrementCount(n: Node) returns (r: CountResult)
      requires InRange() && n.level + 1 < g.levels
      modifies this`counts, this`hints
      ensures Memory() == CountChange(g, old(Memory()), n, -1)
      ensures r.newCount == old(Memory()).Count(n) - 1
      ensures r.toggledTopLevel <==> old(Memory()).Count(n) == 1 && n.level + 2 == g.levels
      ensures r.poolTransitioned <==> r.toggledTopLevel && Bitmap(g, hints, Parent(g, n)) == {}
    {
      var oldCount := Memory().Count(n);
      counts := counts[n := oldCount - 1];
      r := CountResult(oldCount - 1, false, false);
      if oldCount == 1 {
        hints := Memory().ToggleHint(n).hints;
        if n.level == g.levels - 2 {
          r := CountResult(oldCount - 1, true, Bitmap(g, hints, Parent(g, n)) == {});
        }
      }
    }

    method Add(index: nat) returns (r: AddResult)
      requires Valid() && index < Capacity(g)
      modifies this
      ensures Valid() && bits == old(bits) + {index}
      ensures r == if index in old(bits) then AlreadyPresent
                   else if old(bits) == {} then AddedToEmpty else AddedToNonempty
    {
      var l0Word := Below(g, bits, NodeOf(g, index, 0));
      bits := bits + {index};
      if index in l0Word {
        assert bits == old(bits);
        return AlreadyPresent;
      }
      SetBit(g, old(Memory()), index);
      if g.levels == 1 {
        SingleWord(g, old(bits), index);
        MidwayAtTop(g, Memory(), index);
        return if l0Word == {} then AddedToEmpty else AddedToNonempty;
      }
      r := RaiseCounts(index);
    }

    /** The loop of add: one unit at each level from the bottom to the level below the top. */
    method RaiseCounts(index: nat) returns (r: AddResult)
      requires InRange() && g.levels >= 2 && index in bits && Midway(g, Memory(), index, 0)
      modifies this`counts, this`hints
      ensures Valid()
      ensures r == if bits == {index} then AddedToEmpty else AddedToNonempty
    {
      r := AddedToNonempty;
      var k := 0;
      while k < g.levels - 1
        invariant 0 <= k <= g.levels - 1 && Midway(g, Memory(), index, k)
        invariant k == g.levels - 1 ==> r == if bits == {index} then AddedToEmpty else AddedToNonempty
      {
        ghost var p := Memory();
        var cr := IncrementCount(NodeOf(g, index, k));
        RepayUnit(g, p, index, k);
        if k == g.levels - 2 {
          AddSignal(g, p, index);
          r := if cr.toggledTopLevel && cr.poolTransitioned then AddedToEmpty else AddedToNonempty;
        }
        k := k + 1;
      }
      MidwayAtTop(g, Memory(), index);
    }

    /** Give back the units taken on the path of an index from level lo up. */
    method BackOut(index: nat, lo: nat)
      requires InRange() && lo <= g.levels - 1 && Midway(g, Memory(), index, lo)
      modifies this`counts, this`hints
      ensures Valid()
    {
      var j := lo;
      while j < g.levels - 1
        invariant lo <= j <= g.levels - 1 && Midway(g, Memory(), index, j)
      {
        RepayUnit(g, Memory(), index, j);
        var _ := IncrementCount(NodeOf(g, index, j));
        j := j + 1;
      }
      MidwayAtTop(g, Memory(), index);
    }

    method Remove(index: nat) returns (r: RemoveResult)
      requires Valid() && index < Capacity(g)
      modifies this
      ensures Valid() && bits == old(bits) - {index}
      ensures r == if index !in old(bits) then NotPresent
                   else if old(bits) == {index} then RemovedAndMadeEmpty else RemovedAndStayedNonempty
    {
      if g.levels == 1 {
        r := RemoveFromSingleWord(index);
        return;
      }
      MidwayAtTop(g, Memory(), index);
      var held, madeEmpty := LowerCounts(index);
      if !held {
        return NotPresent;
      }
      var present := ClearLeafBit(index);
      if !present {
        return NotPresent;
      }
      return if madeEmpty then RemovedAndMadeEmpty else RemovedAndStayedNonempty;
    }

    /** Phase 2 of remove: clear the bit, or give every unit back when it is already clear. */
    method ClearLeafBit(index: nat) returns (present: bool)
      requires InRange() && Midway(g, Memory(), index, 0)
      modifies this
      ensures Valid() && bits == old(bits) - {index} && present == (index in old(bits))
    {
      present := index in bits;
      if present {
        ClearBit(g, Memory(), index);
        bits := bits - {index};
      } else {
        assert bits - {index} == bits;
        BackOut(index, 0);
      }
    }

    /** remove when level 0 is also the top: no counts, and the word itself tells emptiness. */
    method RemoveFromSingleWord(index: nat) returns (r: RemoveResult)
      requires Valid() && index < Capacity(g) && g.levels == 1
      modifies this`bits
      ensures Valid() && bits == old(bits) - {index}
      ensures r == if index !in old(bits) then NotPresent
                   else if old(bits) == {index} then RemovedAndMadeEmpty else RemovedAndStayedNonempty
    {
      var l0Word := Below(g, bits, NodeOf(g, index, 0));
      SingleWord(g, bits, index);
      bits := bits - {index};
      assert forall n: Node :: InPool(g, n) ==> CheckEntry(g, Memory(), n);
      if index !in l0Word {
        return NotPresent;
      }
      return if l0Word - {index} == {} then RemovedAndMadeEmpty else RemovedAndStayedNonempty;
    }

    /** Phase 1 of remove: one unit off each level from the top down, backing out at a negative count. */
    method LowerCounts(index: nat) returns (held: bool, madeEmpty: bool)
      requires InRange() && g.levels >= 2 && Midway(g, Memory(), index, g.levels - 1)
      modifies this`counts, this`hints
      ensures held ==> Midway(g, Memory(), index, 0)
      ensures !held ==> Valid() && index !in bits
      ensures held && index in bits ==> (madeEmpty <==> bits == {index})
    {
      madeEmpty := false;
      var k := g.levels - 1;
      while k > 0
        invariant 0 <= k <= g.levels - 1 && Midway(g, Memory(), index, k)
        invariant k == g.levels - 1 ==> !madeEmpty
        invariant k < g.levels - 1 && index in bits ==> (madeEmpty <==> bits == {index})
      {
        k := k - 1;
        ghost var p := Memory();
        var cr := DecrementCount(NodeOf(g, index, k));
        TakeUnit(g, p, index, k);
        if index in bits {
          PresentHasCount(g, p, index, k);
          if k == g.levels - 2 {
            RemoveSignal(g, p, index);
          }
        }
        if cr.newCount < 0 {
          BackOut(index, k);
          return false, false;
        }
        if k == g.levels - 2 && cr.toggledTopLevel {
          madeEmpty := cr.poolTransitioned;
        }
      }
      held := true;
    }

    /**
     getAny. A retry needs another thread to interfere between two steps, so alone it succeeds on
     the first descent whatever the retry limit, unless the pool is empty.
     */
    method GetAny(threadId: bv64, maxRetries: nat) returns (r: GetResult)
      requires Valid()
      modifies this
      ensures Valid() && !r.Contended?
      ensures r.Empty? <==> old(bits) == {}
      ensures r.Empty? ==> bits == old(bits)
      ensures r.Success? ==> r.index in old(bits) && bits == old(bits) - {r.index}
    {
      var decremented := seq(g.levels, _ => None);
      StartsAtTop(decremented);
      r := Search(threadId, maxRetries, g.levels - 1, 0, decremented, 0);
    }

    /** A search begins at the one entry of the top level, with every bit below it and no unit taken. */
    lemma StartsAtTop(decremented: seq<Option<nat>>)
      requires Valid() && |decremented| == g.levels && forall k :: 0 <= k < g.levels ==> decremented[k] == None
      ensures At(g.levels - 1, 0, 0) && Holds(g, decremented, 0, g.levels - 1)
      ensures Below(g, bits, Node(g.levels - 1, 0)) == bits
    {
      AllBelowTop(g, bits);
      MidwayAtTop(g, Memory(), 0);
    }

    /**
     The loop of getAny, from any entry on whose path it holds the units. Where no bit is below, it climbs and
     retries until it finds one, runs out of retries or sees the top word empty; where a bit is below, it
     takes one without a retry.
     */
    method Search(threadId: bv64, maxRetries: nat, level0: nat, entry0: nat, decremented0: seq<Option<nat>>, ghost x0: nat)
      returns (r: GetResult)
      requires InRange() && At(level0, entry0, x0) && Holds(g, decremented0, x0, level0)
      modifies this
      ensures Valid()
      ensures !r.Success? ==> bits == old(bits)
      ensures r.Success? ==> r.index in old(bits) && bits == old(bits) - {r.index}
      ensures r.Empty? ==> bits == {}
      ensures old(bits) == {} && level0 == g.levels - 1 ==> r.Empty?
      ensures Below(g, old(bits), Node(level0, entry0)) != {} ==> r.Success?
    {
      var retryCount: int := 0;
      var level, entryIndex, decrementedAt := level0, entry0, decremented0;
      ghost var x := x0;
      ghost var something := Below(g, bits, Node(level0, entry0)) != {};
      while retryCount <= maxRetries
        invariant retryCount >= 0 && InRange() && bits == old(bits)
        invariant At(level, entryIndex, x) && Holds(g, decrementedAt, x, level)
        invariant something ==> retryCount == 0 && Below(g, bits, Node(level, entryIndex)) != {}
        invariant bits == {} && level0 == g.levels - 1 ==> retryCount == 0 && level == g.levels - 1
        decreases maxRetries + 1 - retryCount, level
      {
        if level == 0 {
          var got := TryClaim(threadId, retryCount, entryIndex, x);
          if got.Some? {
            return got.value;
          }
          retryCount := retryCount + 1;
        } else {
          var bitmap := HintWord(g, hints, Node(level, entryIndex));
          TopWord(level, entryIndex, x);
          if bitmap == {} {
            if level == g.levels - 1 {
              BackOutHeld(decrementedAt, x, level);
              return Empty;
            }
            decrementedAt, entryIndex := BackUp(decrementedAt, level, entryIndex, x);
            level, retryCount := level + 1, retryCount + 1;
          } else {
            var child, taken;
            ghost var before := x;
            child, taken, x := TakeChild(threadId, retryCount, level, entryIndex, x);
            if taken {
              HoldsChild(g, decrementedAt, before, x, level, child);
              decrementedAt := decrementedAt[level - 1 := Some(child)];
              level, entryIndex := level - 1, child;
            } else {
              retryCount := retryCount + 1;
            }
          }
        }
      }
      BackOutHeld(decrementedAt, x, level);
      r := Contended;
    }

    /** The entry on the path of x at a level, one unit being taken on each entry of the path from there up. */
    ghost predicate At(level: nat, entryIndex: nat, x: nat)
      requires g.Valid()
      reads this
    {
      && level < g.levels && NodeOf(g, x, level) == Node(level, entryIndex) && NodeOf(g, x, g.levels - 1).entry == 0
      && Midway(g, Memory(), x, level)
    }

    /** What the words on the path tell: an empty one has nothing below, and an empty top one means an empty pool. */
    lemma TopWord(level: nat, entryIndex: nat, x: nat)
      requires InRange() && 0 < level && At(level, entryIndex, x)
      ensures HintWord(g, hints, Node(level, entryIndex)) == {} ==> Below(g, bits, Node(level, entryIndex)) == {}
      ensures level == g.levels - 1 ==> (HintWord(g, hints, Node(level, entryIndex)) == {} <==> bits == {})
    {
      AllBelowTop(g, bits);
      if Below(g, bits, Node(level, entryIndex)) != {} {
        DescentFindsChild(g, Memory(), x, level);
      }
      if level == g.levels - 1 {
        EmptyTopWord(g, Memory(), x);
      }
    }

    /** backout: one unit to every entry recorded in decrementedAt. */
    method BackOutHeld(decrementedAt: seq<Option<nat>>, ghost x: nat, ghost level: nat)
      requires InRange() && level < g.levels && Midway(g, Memory(), x, level) && Holds(g, decrementedAt, x, level)
      modifies this`counts, this`hints
      ensures Valid()
    {
      var k := 0;
      while k < g.levels
        invariant 0 <= k <= g.levels && InRange()
        invariant Midway(g, Memory(), x, Later(level, k, g.levels - 1))
      {
        if decrementedAt[k] != None {
          RepayUnit(g, Memory(), x, k);
          var _ := IncrementCount(Node(k, decrementedAt[k].value));
        }
        k := k + 1;
      }
      MidwayAtTop(g, Memory(), x);
    }

    /** The word of an entry below the top is empty: give its unit back and go to its parent. */
    method BackUp(decrementedAt: seq<Option<nat>>, level: nat, entryIndex: nat, ghost x: nat)
      returns (decrementedAt': seq<Option<nat>>, parent: nat)
      requires InRange() && level + 1 < g.levels && At(level, entryIndex, x) && Holds(g, decrementedAt, x, level)
      modifies this`counts, this`hints
      ensures At(level + 1, parent, x) && Holds(g, decrementedAt', x, level + 1)
    {
      decrementedAt' := decrementedAt;
      if decrementedAt[level] != None {
        RepayUnit(g, Memory(), x, level);
        var _ := IncrementCount(Node(level, decrementedAt[level].value));
        decrementedAt' := decrementedAt[level := None];
      }
      ParentOfIndex(g, x, level);
      parent := ParentEntryIndex(g, entryIndex, level);
    }

    /** Pick a hinted child and take a unit of its count; give it back when that leaves a negative count. */
    method TakeChild(threadId: bv64, retryCount: nat, level: nat, entryIndex: nat, ghost x: nat)
      returns (child: nat, taken: bool, ghost y: nat)
      requires InRange() && 0 < level && At(level, entryIndex, x) && HintWord(g, hints, Node(level, entryIndex)) != {}
      modifies this`counts, this`hints
      ensures taken && At(level - 1, child, y) && Below(g, bits, Node(level - 1, child)) != {}
      ensures forall k :: level <= k < g.levels ==> NodeOf(g, y, k) == NodeOf(g, x, k)
    {
      var hash := Hash(threadId, retryCount);
      ChosenChild(g, Memory(), x, level, hash);
      var actualBit := Rotation(HintWord(g, hints, Node(level, entryIndex)), hash);
      child := ChildEntryIndex(g, entryIndex, actualBit, level);
      y := FirstIndex(g, Node(level - 1, child));
      forall k | level <= k < g.levels ensures NodeOf(g, y, k) == NodeOf(g, x, k) {
        SameAncestors(g, y, x, level, k);
      }
      taken := TryTake(Node(level - 1, child));
    }

    /** decrementCount, undone by incrementCount when the count was not positive. */
    method TryTake(n: Node) returns (taken: bool)
      requires InRange() && n.level + 1 < g.levels
      modifies this`counts, this`hints
      ensures taken <==> old(Memory()).Count(n) >= 1
      ensures Memory() == if taken then CountChange(g, old(Memory()), n, -1)
                          else CountChange(g, CountChange(g, old(Memory()), n, -1), n, 1)
    {
      var cr := DecrementCount(n);
      taken := cr.newCount >= 0;
      if cr.newCount < 0 {
        var _ := IncrementCount(n);
      }
    }

    /** The level 0 part: choose a bit of the word and clear it; None when it was clear already. */
    method TryClaim(threadId: bv64, retryCount: nat, entryIndex: nat, ghost x: nat) returns (r: Option<GetResult>)
      requires InRange() && At(0, entryIndex, x)
      modifies this`bits
      ensures r.None? ==> bits == old(bits) && Below(g, bits, Node(0, entryIndex)) == {} && g.levels > 1
      ensures r.Some? ==> Valid() && !r.value.Contended?
      ensures r.Some? && r.value.Empty? ==> g.levels == 1 && bits == old(bits) == {}
      ensures r.Some? && r.value.Success? ==> r.value.index in old(bits) && bits == old(bits) - {r.value.index}
    {
      var bitmap := LeafWord(g, bits, entryIndex);
      WordOfBits(g, bits, entryIndex);
      AllBelowTop(g, bits);
      if bitmap == {} && g.levels == 1 {
        MidwayAtTop(g, Memory(), x);
        return Some(Empty);
      }
      var actualBit := Rotation(bitmap, Hash(threadId, retryCount));
      if bitmap != {} {
        RotationPicksSetBit(bitmap, Hash(threadId, retryCount));
      }
      r := ClearChosen(entryIndex, actualBit, x);
    }

    /** fetch_and of one bit of a word. */
    method ClearChosen(entryIndex: nat, actualBit: nat, ghost x: nat) returns (r: Option<GetResult>)
      requires InRange() && At(0, entryIndex, x) && actualBit < 64
      modifies this`bits
      ensures var bitmap := LeafWord(g, old(bits), entryIndex);
        && (r.Some? <==> actualBit in bitmap)
        && (r.None? ==> bits == old(bits))
        && (r.Some? ==> Valid() && r.value.Success? && r.value.index in old(bits) && bits == old(bits) - {r.value.index})
    {
      var index := Shl(entryIndex, 6) + actualBit;
      var wasSet := actualBit in LeafWord(g, bits, entryIndex);
      if !wasSet {
        return None;
      }
      LeafBit(g, bits, entryIndex, actualBit);
      SamePath(g, Memory(), x, index);
      ClearBit(g, Memory(), index);
      bits := bits - {index};
      r := Some(Success(index));
    }
  }
}
