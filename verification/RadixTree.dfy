/**
 The VMSubstrate radix tree with its operations run one at a time: a 64-ary tree of availability
 bits over the leaf bitmaps of an arena, for any number of leaves.
 */
module RadixTree {

  import opened Wrappers
  import opened Counting
  import LeafProtocol

  /** The bit for one child: a leaf bitmap (level 0) or an interior bitmap, in its parent's word. */
  datatype Child = Child(level: nat, idx: nat)

  // ----- sizing -----

  /** levelBitmapCount: how many bitmaps a level has. */
  function LevelCount(leaves: nat, level: nat): nat {
    if level == 0 then leaves else (LevelCount(leaves, level - 1) + 63) / 64
  }

  /** kRadixDepth: levels until a single bitmap is left, the leaf level included. */
  function DepthFrom(count: nat): (d: nat)
    requires count >= 1
    ensures d >= 1
  {
    if count > 1 then 1 + DepthFrom((count + 63) / 64) else 1
  }

  function Depth(leaves: nat): nat
    requires leaves >= 1
  {
    DepthFrom(leaves)
  }

  /** Which bitmap of a level covers a leaf. */
  function Ancestor(leaf: nat, level: nat): nat {
    if level == 0 then leaf else Ancestor(leaf, level - 1) / 64
  }

  /** The first leaf a bitmap covers. */
  function FirstLeaf(idx: nat, level: nat): nat
    decreases level
  {
    if level == 0 then idx else FirstLeaf(64 * idx, level - 1)
  }

  lemma {:induction false} LevelCountShift(leaves: nat, level: nat)
    ensures LevelCount((leaves + 63) / 64, level) == LevelCount(leaves, level + 1)
  {
    if level > 0 {
      LevelCountShift(leaves, level - 1);
    }
  }

  /** The last level has one bitmap, and no level before it has. */
  lemma {:induction false} DepthReachesRoot(leaves: nat, level: nat)
    requires leaves >= 1 && level < Depth(leaves)
    ensures LevelCount(leaves, Depth(leaves) - 1) == 1
    ensures LevelCount(leaves, level) == 1 <==> level == Depth(leaves) - 1
    decreases leaves
  {
    if leaves > 1 {
      var up := (leaves + 63) / 64;
      LevelCountShift(leaves, Depth(up) - 1);
      DepthReachesRoot(up, Depth(up) - 1);
      if level > 0 {
        DepthReachesRoot(up, level - 1);
        LevelCountShift(leaves, level - 1);
      }
    }
  }

  lemma {:induction false} AncestorInLevel(leaves: nat, leaf: nat, level: nat)
    requires leaf < leaves
    ensures Ancestor(leaf, level) < LevelCount(leaves, level)
  {
    if level > 0 {
      AncestorInLevel(leaves, leaf, level - 1);
    }
  }

  lemma RootCoversAll(leaves: nat, leaf: nat)
    requires leaf < leaves
    ensures Ancestor(leaf, Depth(leaves) - 1) == 0
  {
    DepthReachesRoot(leaves, 0);
    AncestorInLevel(leaves, leaf, Depth(leaves) - 1);
  }

  lemma {:induction false} AncestorMonotone(a: nat, b: nat, level: nat)
    requires a <= b
    ensures Ancestor(a, level) <= Ancestor(b, level)
  {
    if level > 0 {
      AncestorMonotone(a, b, level - 1);
    }
  }

  /** Every bitmap of a level covers at least one leaf. */
  lemma {:induction false} FirstLeafUnder(leaves: nat, idx: nat, level: nat)
    requires idx < LevelCount(leaves, level)
    ensures FirstLeaf(idx, level) < leaves && Ancestor(FirstLeaf(idx, level), level) == idx
    decreases level
  {
    if level > 0 {
      FirstLeafUnder(leaves, 64 * idx, level - 1);
    }
  }

  // ----- where the interior bitmaps lie -----

  /** bfsOffset: levels stored one after another, the root first. */
  function BfsOffset(leaves: nat, level: nat): nat
    requires leaves >= 1
    decreases Depth(leaves) - level
  {
    if level + 1 >= Depth(leaves) then 0 else BfsOffset(leaves, level + 1) + LevelCount(leaves, level + 1)
  }

  lemma {:induction false} LowerLevelsAfter(leaves: nat, low: nat, high: nat)
    requires leaves >= 1 && low < high < Depth(leaves)
    ensures BfsOffset(leaves, high) + LevelCount(leaves, high) <= BfsOffset(leaves, low)
    decreases high - low
  {
    if low + 1 < high {
      LowerLevelsAfter(leaves, low + 1, high);
    }
  }

  /** Different interior bitmaps have different slots, all inside the buffer's interior region. */
  lemma BfsSlotsDistinct(leaves: nat, l: nat, i: nat, m: nat, j: nat)
    requires leaves >= 1 && 0 < l < Depth(leaves) && 0 < m < Depth(leaves)
    requires i < LevelCount(leaves, l) && j < LevelCount(leaves, m)
    ensures BfsOffset(leaves, l) + i < BfsOffset(leaves, 0)
    ensures (l, i) != (m, j) ==> BfsOffset(leaves, l) + i != BfsOffset(leaves, m) + j
  {
    LowerLevelsAfter(leaves, 0, l);
    if l < m {
      LowerLevelsAfter(leaves, l, m);
    } else if m < l {
      LowerLevelsAfter(leaves, m, l);
    }
  }

  // ----- what the bits mean -----

  /** The word of an interior bitmap: which of its 64 children are marked. */
  function Word(marks: set<Child>, level: nat, idx: nat): set<nat>
    requires level > 0
  {
    set c | c in marks && c.level == level - 1 && c.idx / 64 == idx :: c.idx % 64
  }

  ghost predicate HasLeaf(avail: set<nat>, c: Child) {
    exists leaf :: leaf in avail && Ancestor(leaf, c.level) == c.idx
  }

  /** A child's bit is set exactly when a leaf below it is available. */
  ghost predicate MarkOk(marks: set<Child>, avail: set<nat>, c: Child) {
    c in marks <==> HasLeaf(avail, c)
  }

  ghost predicate TreeOk(marks: set<Child>, avail: set<nat>, depth: nat) {
    forall c: Child :: c.level + 1 < depth ==> MarkOk(marks, avail, c)
  }

  function Toggle(marks: set<Child>, c: Child): set<Child> {
    if c in marks then marks - {c} else marks + {c}
  }

  /** A leaf outside the entry of another child does not lie below it. */
  lemma HasLeafAdd(avail: set<nat>, leaf: nat, c: Child)
    ensures HasLeaf(avail + {leaf}, c) <==> HasLeaf(avail, c) || Ancestor(leaf, c.level) == c.idx
  {
    if Ancestor(leaf, c.level) == c.idx {
      assert leaf in avail + {leaf};
    }
  }

  /**
   The word of the parent, without the child on the leaf's own path, is zero exactly when no other
   leaf below the parent is available.
   */
  lemma WordTellsSiblings(marks: set<Child>, avail: set<nat>, leaf: nat, k: nat)
    requires forall c: Child :: c.level == k && c.idx != Ancestor(leaf, k) ==> MarkOk(marks, avail, c)
    requires !HasLeaf(avail, Child(k, Ancestor(leaf, k)))
    ensures Word(marks - {Child(k, Ancestor(leaf, k))}, k + 1, Ancestor(leaf, k + 1)) == {}
       <==> !HasLeaf(avail, Child(k + 1, Ancestor(leaf, k + 1)))
  {
    var own, parent := Child(k, Ancestor(leaf, k)), Child(k + 1, Ancestor(leaf, k + 1));
    var others := marks - {own};
    if HasLeaf(avail, parent) {
      var a :| a in avail && Ancestor(a, k + 1) == parent.idx;
      var c := Child(k, Ancestor(a, k));
      assert HasLeaf(avail, c) && c != own;
      assert MarkOk(marks, avail, c);
      assert c in others && c.idx % 64 in Word(others, k + 1, parent.idx);
    }
    if Word(others, k + 1, parent.idx) != {} {
      var b :| b in Word(others, k + 1, parent.idx);
      var c :| c in others && c.level == k && c.idx / 64 == parent.idx && c.idx % 64 == b;
      assert MarkOk(marks, avail, c);
      var a :| a in avail && Ancestor(a, k) == c.idx;
      assert Ancestor(a, k + 1) == parent.idx;
    }
  }

  lemma {:induction false} AncestorSteps(a: nat, b: nat, lo: nat, level: nat)
    requires lo <= level && Ancestor(a, lo) == Ancestor(b, lo)
    ensures Ancestor(a, level) == Ancestor(b, level)
  {
    if lo < level {
      AncestorSteps(a, b, lo, level - 1);
    }
  }

  /** Once a bitmap on the path has another available leaf, the edge changes nothing above it. */
  lemma EdgeStops(avail: set<nat>, leaf: nat, k: nat, c: Child)
    requires HasLeaf(avail, Child(k, Ancestor(leaf, k))) && k <= c.level
    ensures HasLeaf(avail + {leaf}, c) <==> HasLeaf(avail, c)
  {
    HasLeafAdd(avail, leaf, c);
    var a :| a in avail && Ancestor(a, k) == Ancestor(leaf, k);
    AncestorSteps(a, leaf, k, c.level);
  }

  /** Whether the leaf has just become available or just become full: the set before and after the edge. */
  ghost function Before(others: set<nat>, leaf: nat, isAvailable: bool): set<nat> {
    if isAvailable then others else others + {leaf}
  }

  ghost function After(others: set<nat>, leaf: nat, isAvailable: bool): set<nat> {
    if isAvailable then others + {leaf} else others
  }

  /** Toggling the bit of the child on the path takes its level from the old state to the new one. */
  lemma ToggleLevel(marks: set<Child>, others: set<nat>, leaf: nat, isAvailable: bool, k: nat, c: Child)
    requires MarkOk(marks, Before(others, leaf, isAvailable), c) && c.level == k
    requires !HasLeaf(others, Child(k, Ancestor(leaf, k)))
    ensures MarkOk(Toggle(marks, Child(k, Ancestor(leaf, k))), After(others, leaf, isAvailable), c)
  {
    HasLeafAdd(others, leaf, c);
  }

  /** The word that propagateEdge looks at, before the toggle of an availability edge and after that of a full one. */
  function Decisive(marks: set<Child>, leaf: nat, isAvailable: bool, k: nat): set<nat> {
    Word(if isAvailable then marks else Toggle(marks, Child(k, Ancestor(leaf, k))), k + 1, Ancestor(leaf, k) / 64)
  }

  lemma DecisiveTells(marks: set<Child>, others: set<nat>, leaf: nat, isAvailable: bool, k: nat)
    requires forall c: Child :: c.level == k ==> MarkOk(marks, Before(others, leaf, isAvailable), c)
    requires !HasLeaf(others, Child(k, Ancestor(leaf, k)))
    ensures Decisive(marks, leaf, isAvailable, k) == {} <==> !HasLeaf(others, Child(k + 1, Ancestor(leaf, k + 1)))
  {
    var own := Child(k, Ancestor(leaf, k));
    forall c: Child | c.level == k && c.idx != own.idx ensures MarkOk(marks, others, c) {
      assert MarkOk(marks, Before(others, leaf, isAvailable), c);
      HasLeafAdd(others, leaf, c);
    }
    assert MarkOk(marks, Before(others, leaf, isAvailable), own);
    HasLeafAdd(others, leaf, own);
    assert (if isAvailable then marks else Toggle(marks, own)) == marks - {own};
    WordTellsSiblings(marks, others, leaf, k);
  }

  method CountTrailingZeros(word: set<nat>) returns (r: nat)
    requires word != {}
    ensures r in word && forall x :: x in word ==> r <= x
  {
    var bound :| bound in word;
    r := LeafProtocol.LowestFrom(word, 0, bound);
  }

  /** The bit of a marked child leads to an available leaf, and every available leaf shows in the word above it. */
  lemma WordTellsLeaves(marks: set<Child>, avail: set<nat>, level: nat, idx: nat)
    requires level > 0 && forall c: Child :: c.level == level - 1 ==> MarkOk(marks, avail, c)
    ensures forall b :: b in Word(marks, level, idx) ==> b < 64 && HasLeaf(avail, Child(level - 1, 64 * idx + b))
    ensures forall a :: a in avail && Ancestor(a, level) == idx ==>
              Ancestor(a, level - 1) % 64 in Word(marks, level, idx)
  {
    forall b | b in Word(marks, level, idx) ensures b < 64 && HasLeaf(avail, Child(level - 1, 64 * idx + b)) {
      var c :| c in marks && c.level == level - 1 && c.idx / 64 == idx && c.idx % 64 == b;
      assert MarkOk(marks, avail, c);
    }
    forall a | a in avail && Ancestor(a, level) == idx ensures Ancestor(a, level - 1) % 64 in Word(marks, level, idx) {
      var c := Child(level - 1, Ancestor(a, level - 1));
      assert HasLeaf(avail, c) && MarkOk(marks, avail, c);
    }
  }

  /** No available leaf lies below a node to the left of this one. */
  ghost predicate NoneLeft(avail: set<nat>, level: nat, idx: nat) {
    forall a :: a in avail ==> idx <= Ancestor(a, level)
  }

  lemma RootAbove(leaves: nat, avail: set<nat>)
    requires leaves >= 1 && forall a :: a in avail ==> a < leaves
    ensures forall a :: a in avail ==> Ancestor(a, Depth(leaves) - 1) == 0
  {
    forall a | a in avail ensures Ancestor(a, Depth(leaves) - 1) == 0 {
      RootCoversAll(leaves, a);
    }
  }

  /** An empty word has no available leaf below it. */
  lemma EmptyWord(marks: set<Child>, avail: set<nat>, level: nat, idx: nat)
    requires level > 0 && forall c: Child :: c.level == level - 1 ==> MarkOk(marks, avail, c)
    requires Word(marks, level, idx) == {}
    ensures !HasLeaf(avail, Child(level, idx))
  {
    WordTellsLeaves(marks, avail, level, idx);
  }

  /** Following the lowest bit keeps to the left-most available leaf. */
  lemma LowestBitLeadsLeft(marks: set<Child>, avail: set<nat>, level: nat, idx: nat, bit: nat)
    requires level > 0 && forall c: Child :: c.level == level - 1 ==> MarkOk(marks, avail, c)
    requires bit in Word(marks, level, idx) && forall b :: b in Word(marks, level, idx) ==> bit <= b
    requires NoneLeft(avail, level, idx)
    ensures HasLeaf(avail, Child(level - 1, 64 * idx + bit))
    ensures NoneLeft(avail, level - 1, 64 * idx + bit)
  {
    WordTellsLeaves(marks, avail, level, idx);
    forall a | a in avail ensures 64 * idx + bit <= Ancestor(a, level - 1) {
      assert Ancestor(a, level) == Ancestor(a, level - 1) / 64;
    }
  }

  /** A leaf's two words share no bit, and its count says how many of them are non-zero. */
  predicate WordsOk(alloc: set<nat>, freed: set<nat>, count: nat) {
    alloc !! freed && alloc <= Upto(64) && freed <= Upto(64) && count == B(alloc != {}) + B(freed != {})
  }

  /** With every leaf available, a level's bits are one for each child that exists. */
  lemma SeededTreeOk(leaves: nat, depth: nat, marks: set<Child>, avail: set<nat>)
    requires leaves >= 1 && forall leaf :: leaf in avail <==> 0 <= leaf < leaves
    requires forall c: Child :: c in marks <==> c.level + 1 < depth && c.idx < LevelCount(leaves, c.level)
    ensures TreeOk(marks, avail, depth)
  {
    forall c: Child | c.level + 1 < depth ensures MarkOk(marks, avail, c) {
      if c in marks {
        FirstLeafUnder(leaves, c.idx, c.level);
      }
      forall leaf | leaf in avail ensures Ancestor(leaf, c.level) < LevelCount(leaves, c.level) {
        AncestorInLevel(leaves, leaf, c.level);
      }
    }
  }

  // ----- the leaves -----

  /** Both words of every leaf put together. */
  ghost function Union(alloc: seq<set<nat>>, freed: seq<set<nat>>): (r: seq<set<nat>>)
    requires |alloc| == |freed|
    ensures |r| == |alloc| && forall i :: 0 <= i < |r| ==> r[i] == alloc[i] + freed[i]
  {
    seq(|alloc|, i requires 0 <= i < |alloc| => alloc[i] + freed[i])
  }

  lemma UnionUpdate(alloc: seq<set<nat>>, freed: seq<set<nat>>, leaf: nat, a: set<nat>, f: set<nat>)
    requires |alloc| == |freed| && leaf < |alloc|
    ensures Union(alloc[leaf := a], freed[leaf := f]) == Union(alloc, freed)[leaf := a + f]
  {
  }

  ghost predicate AllFree(bits: seq<set<nat>>) {
    forall leaf :: 0 <= leaf < |bits| ==> bits[leaf] == Upto(64)
  }

  lemma SeededWords(leaves: nat, alloc: seq<set<nat>>, freed: seq<set<nat>>)
    requires |alloc| == |freed| == leaves
    requires forall i :: 0 <= i < leaves ==> alloc[i] == Upto(64) && freed[i] == {}
    ensures AllFree(Union(alloc, freed)) && forall i :: 0 <= i < leaves ==> WordsOk(alloc[i], freed[i], 1)
  {
    assert 0 in Upto(64);
  }

  lemma AllAvailable(bits: seq<set<nat>>)
    requires AllFree(bits)
    ensures forall leaf :: leaf in AvailableIn(bits) <==> 0 <= leaf < |bits|
  {
    assert 0 in Upto(64);
  }

  ghost predicate BitsLow(bits: seq<set<nat>>) {
    forall leaf :: 0 <= leaf < |bits| ==> bits[leaf] <= Upto(64)
  }

  /** The leaves with a free page, from the free bits of each. */
  ghost function AvailableIn(bits: seq<set<nat>>): (r: set<nat>)
    ensures forall leaf :: leaf in r <==> 0 <= leaf < |bits| && bits[leaf] != {}
  {
    set leaf | 0 <= leaf < |bits| && bits[leaf] != {}
  }

  /** The free pages, numbered from the start of the arena. */
  ghost function PagesIn(bits: seq<set<nat>>): set<nat> {
    set page | 0 <= page < 64 * |bits| && page % 64 in bits[page / 64]
  }

  lemma PagesAt(bits: seq<set<nat>>, leaf: nat, bit: nat)
    requires leaf < |bits| && bit < 64
    ensures 64 * leaf + bit in PagesIn(bits) <==> bit in bits[leaf]
  {
    assert (64 * leaf + bit) / 64 == leaf && (64 * leaf + bit) % 64 == bit;
  }

  /** What a change to one leaf does to the set of available leaves. */
  lemma LeafChanges(bits: seq<set<nat>>, leaf: nat, x: set<nat>)
    requires leaf < |bits|
    ensures AvailableIn(bits) == WithLeaf(AvailableIn(bits) - {leaf}, leaf, bits[leaf] != {})
    ensures AvailableIn(bits[leaf := x]) == WithLeaf(AvailableIn(bits) - {leaf}, leaf, x != {})
  {
  }

  /** What it does to the set of free pages. */
  lemma PageChanges(bits: seq<set<nat>>, leaf: nat, bit: nat)
    requires leaf < |bits| && bit < 64
    ensures PagesIn(bits[leaf := bits[leaf] - {bit}]) == PagesIn(bits) - {64 * leaf + bit}
    ensures PagesIn(bits[leaf := bits[leaf] + {bit}]) == PagesIn(bits) + {64 * leaf + bit}
  {
    forall page: nat | page < 64 * |bits| && page / 64 == leaf ensures page == 64 * leaf + page % 64 {
    }
  }

  /** No leaf is available exactly when no page is free. */
  lemma PagesAndLeaves(bits: seq<set<nat>>)
    requires BitsLow(bits)
    ensures AvailableIn(bits) == {} <==> PagesIn(bits) == {}
  {
    if page :| page in PagesIn(bits) {
      assert page / 64 in AvailableIn(bits);
    }
    if leaf :| leaf in AvailableIn(bits) {
      var bit :| bit in bits[leaf];
      PagesAt(bits, leaf, bit);
    }
  }

  /** Every free page lies in the left-most available leaf or to its right. */
  lemma LeftmostPages(bits: seq<set<nat>>, leaf: nat)
    requires forall a :: a in AvailableIn(bits) ==> leaf <= a
    ensures forall page :: page in PagesIn(bits) ==> leaf <= page / 64
  {
    forall page | page in PagesIn(bits) ensures leaf <= page / 64 {
      assert page / 64 in AvailableIn(bits);
    }
  }

  ghost function WithLeaf(others: set<nat>, leaf: nat, present: bool): set<nat> {
    if present then others + {leaf} else others
  }

  /** A freers' word that was empty is empty still. */
  ghost predicate NoneReturned(freeWord: seq<set<nat>>, freeWord': seq<set<nat>>) {
    |freeWord'| == |freeWord| && forall leaf :: 0 <= leaf < |freeWord| && freeWord[leaf] == {} ==> freeWord'[leaf] == {}
  }

  /** When every leaf is whole, every page is free. */
  lemma EveryPage(bits: seq<set<nat>>)
    requires AllFree(bits)
    ensures forall page: nat :: page in PagesIn(bits) <==> page < 64 * |bits|
  {
    forall page: nat ensures page in PagesIn(bits) <==> page < 64 * |bits| {
      if page < 64 * |bits| {
        assert page % 64 in bits[page / 64];
      }
    }
  }

  /** The marks of children that one word holds. */
  function WordMarks(level: nat, first: nat, word: set<nat>): set<Child> {
    set b | b in word :: Child(level, first + b)
  }

  lemma InWord(level: nat, first: nat, count: nat, c: Child)
    ensures c in WordMarks(level, first, Upto(count)) <==> c.level == level && first <= c.idx < first + count
  {
    if c.level == level && first <= c.idx < first + count {
      assert c.idx - first in Upto(count);
    }
  }

  /** Marks for the children of a level below a bound have been added. */
  ghost predicate SeededTo(before: set<Child>, marks: set<Child>, level: nat, bound: nat) {
    forall c: Child :: c in marks <==> c in before || (c.level == level && c.idx < bound)
  }

  /** How many words of 64 bits a number of children takes. */
  lemma WordsFor(children: nat, words: nat)
    requires words == (children + 63) / 64
    ensures if words == 0 then children == 0 else 64 * words - 64 < children <= 64 * words
  {
  }

  lemma SeedWord(before: set<Child>, marks: set<Child>, level: nat, first: nat, count: nat)
    requires SeededTo(before, marks, level, first)
    ensures SeededTo(before, marks + WordMarks(level, first, Upto(count)), level, first + count)
  {
    forall c: Child ensures c in marks + WordMarks(level, first, Upto(count)) <==>
                              c in before || (c.level == level && c.idx < first + count) {
      InWord(level, first, count, c);
    }
  }

  class Arena {
    const leaves: nat
    const depth: nat
    var allocWord: seq<set<nat>>     // leafAllocBitmap
    var freeWord: seq<set<nat>>      // leafFreeBitmap
    var wordCount: seq<nat>          // leafFreeWordCount
    var marks: set<Child>            // interiorFreeBitmap

    ghost predicate LeavesOk()
      reads this
    {
      leaves >= 1 && |allocWord| == |freeWord| == |wordCount| == leaves
      && forall leaf :: 0 <= leaf < leaves ==> WordsOk(allocWord[leaf], freeWord[leaf], wordCount[leaf])
    }

    /** The free pages of every leaf, whichever word holds them. */
    ghost function FreeBits(): (bits: seq<set<nat>>)
      requires LeavesOk()
      reads this
      ensures |bits| == leaves && BitsLow(bits)
    {
      Union(allocWord, freeWord)
    }

    ghost function FreePages(): set<nat>
      requires LeavesOk()
      reads this
    {
      PagesIn(FreeBits())
    }

    /** Each interior bit is set exactly when a leaf below it has a free page. */
    ghost predicate Valid()
      reads this
    {
      LeavesOk() && depth == Depth(leaves) && TreeOk(marks, AvailableIn(FreeBits()), depth)
    }

    /** seedAvailableState: every page free, every interior word holding a bit for each child that exists. */
    constructor (leaves: nat)
      requires leaves >= 1
      ensures Valid() && this.leaves == leaves && AllFree(FreeBits()) && freeWord == seq(leaves, _ => {})
      ensures forall page: nat :: page in FreePages() <==> page < 64 * leaves
    {
      this.leaves := leaves;
      depth := Depth(leaves);
      allocWord := seq(leaves, _ => Upto(64));
      freeWord := seq(leaves, _ => {});
      wordCount := seq(leaves, _ => 1);
      marks := {};
      new;
      SeededWords(leaves, allocWord, freeWord);
      var level := 1;
      while level < depth
        invariant 1 <= level <= depth
        invariant LeavesOk() && AllFree(FreeBits()) && freeWord == seq(leaves, _ => {})
        invariant forall c: Child :: c in marks <==> c.level + 1 < level && c.idx < LevelCount(leaves, c.level)
      {
        SeedLevel(level);
        level := level + 1;
      }
      AllAvailable(FreeBits());
      EveryPage(FreeBits());
      SeededTreeOk(leaves, depth, marks, AvailableIn(FreeBits()));
    }

    /** The inner loop of seedAvailableState: the words of one level. */
    method SeedLevel(level: nat)
      requires level > 0
      modifies this`marks
      ensures SeededTo(old(marks), marks, level - 1, LevelCount(leaves, level - 1))
    {
      var bitmaps, children := LevelCount(leaves, level), LevelCount(leaves, level - 1);
      SeedWords(level - 1, bitmaps, children);
    }

    method SeedWords(below: nat, bitmaps: nat, children: nat)
      requires bitmaps == (children + 63) / 64
      modifies this`marks
      ensures SeededTo(old(marks), marks, below, children)
    {
      WordsFor(children, bitmaps);
      var j := 0;
      ghost var done := 0;
      while j < bitmaps
        invariant 0 <= j <= bitmaps && done == (if j < bitmaps then 64 * j else children)
        invariant SeededTo(old(marks), marks, below, done)
      {
        var childrenHere := if j == bitmaps - 1 then children - j * 64 else 64;
        SeedWord(old(marks), marks, below, done, childrenHere);
        marks := marks + WordMarks(below, 64 * j, Upto(childrenHere));
        j, done := j + 1, done + childrenHere;
      }
    }

    /** Walk up from a leaf that changed between full and available, toggling bits until a word stays non-zero. */
    method PropagateEdge(leaf: nat, isAvailable: bool, ghost others: set<nat>)
      requires leaf !in others && TreeOk(marks, Before(others, leaf, isAvailable), depth)
      modifies this`marks
      ensures TreeOk(marks, After(others, leaf, isAvailable), depth)
    {
      ghost var old', new' := Before(others, leaf, isAvailable), After(others, leaf, isAvailable);
      var childIdx, childLevel := leaf, 0;
      while childLevel + 1 < depth
        invariant childIdx == Ancestor(leaf, childLevel) && !HasLeaf(others, Child(childLevel, childIdx))
        invariant forall c: Child :: c.level < childLevel && c.level + 1 < depth ==> MarkOk(marks, new', c)
        invariant forall c: Child :: childLevel <= c.level && c.level + 1 < depth ==> MarkOk(marks, old', c)
      {
        var parentIdx := childIdx / 64;
        var child := Child(childLevel, childIdx);
        var prev := Word(marks, childLevel + 1, parentIdx);
        DecisiveTells(marks, others, leaf, isAvailable, childLevel);
        forall c: Child | c.level == childLevel ensures MarkOk(Toggle(marks, child), new', c) {
          ToggleLevel(marks, others, leaf, isAvailable, childLevel, c);
        }
        marks := Toggle(marks, child);
        childIdx, childLevel := parentIdx, childLevel + 1;
        if HasLeaf(others, Child(childLevel, childIdx)) {
          forall c: Child | childLevel <= c.level && c.level + 1 < depth ensures MarkOk(marks, new', c) {
            EdgeStops(others, leaf, childLevel, c);
            assert MarkOk(marks, old', c);
          }
        }
        if isAvailable && prev != {} {
          return;
        }
        if !isAvailable && Word(marks, childLevel, parentIdx) != {} {
          return;
        }
      }
    }

    /** Top-down descent, taking the lowest set bit of each word. */
    method DescendToFreeLeaf(ghost avail: set<nat>) returns (r: Option<nat>)
      requires leaves >= 1 && depth == Depth(leaves) && TreeOk(marks, avail, depth)
      requires forall a :: a in avail ==> a < leaves
      ensures depth == 1 ==> r == Some(0)
      ensures depth >= 2 ==> (r.None? <==> avail == {})
      ensures depth >= 2 && r.Some? ==> r.value in avail && forall a :: a in avail ==> r.value <= a
    {
      RootAbove(leaves, avail);
      var parentIdx: nat, level: nat := 0, depth - 1;
      while level >= 1
        invariant 0 <= level < depth
        invariant if level == depth - 1 then parentIdx == 0 else HasLeaf(avail, Child(level, parentIdx))
        invariant NoneLeft(avail, level, parentIdx)
      {
        assert forall c: Child :: c.level == level - 1 ==> MarkOk(marks, avail, c);
        var bitmap := Word(marks, level, parentIdx);
        if bitmap == {} {
          EmptyWord(marks, avail, level, parentIdx);
          return None;
        }
        var bit := CountTrailingZeros(bitmap);
        LowestBitLeadsLeft(marks, avail, level, parentIdx, bit);
        level, parentIdx := level - 1, 64 * parentIdx + bit;
      }
      r := Some(parentIdx);
    }

    /** Exchange the freers' word for zero and take its bits. */
    method DrainFreeIntoAlloc(leaf: nat)
      requires LeavesOk() && leaf < leaves && allocWord[leaf] == {} && freeWord[leaf] != {}
      modifies this`allocWord, this`freeWord
      ensures LeavesOk() && allocWord[leaf] != {} && FreeBits() == old(FreeBits()) && NoneReturned(old(freeWord), freeWord)
    {
      ghost var taken := allocWord[leaf] + freeWord[leaf];
      UnionUpdate(allocWord, freeWord, leaf, taken, {});
      assert taken + {} == taken && FreeBits() == FreeBits()[leaf := taken];
      allocWord, freeWord := allocWord[leaf := allocWord[leaf] + freeWord[leaf]], freeWord[leaf := {}];
    }

    /** Take the lowest bit of the allocator's word; says whether that was the leaf's last free page. */
    method TakeBit(leaf: nat) returns (bit: nat, becameFull: bool)
      requires LeavesOk() && leaf < leaves && allocWord[leaf] != {}
      modifies this`allocWord, this`wordCount
      ensures LeavesOk() && bit in old(FreeBits()[leaf])
      ensures FreeBits() == old(FreeBits())[leaf := old(FreeBits()[leaf]) - {bit}]
      ensures becameFull <==> FreeBits()[leaf] == {}
    {
      bit := CountTrailingZeros(allocWord[leaf]);
      allocWord := allocWord[leaf := allocWord[leaf] - {bit}];
      becameFull := false;
      if allocWord[leaf] == {} {
        becameFull := wordCount[leaf] == 1;
        wordCount := wordCount[leaf := wordCount[leaf] - 1];
      }
      UnionUpdate(old(allocWord), freeWord, leaf, allocWord[leaf], freeWord[leaf]);
      assert freeWord == freeWord[leaf := freeWord[leaf]];
      assert allocWord[leaf] + freeWord[leaf] == old(allocWord[leaf] + freeWord[leaf]) - {bit};
    }

    /** Claim a page of a leaf, first from the allocator's word, then from what the freers left. */
    method ClaimLeafBit(leaf: nat) returns (bit: int, becameFull: bool)
      requires LeavesOk() && leaf < leaves
      modifies this
      ensures LeavesOk() && marks == old(marks)
      ensures bit < 0 <==> old(FreeBits()[leaf]) == {}
      ensures bit < 0 ==> FreeBits() == old(FreeBits())
      ensures bit >= 0 ==> bit in old(FreeBits()[leaf])
                           && FreeBits() == old(FreeBits())[leaf := old(FreeBits()[leaf]) - {bit}]
      ensures bit >= 0 ==> (becameFull <==> FreeBits()[leaf] == {})
      ensures NoneReturned(old(freeWord), freeWord)
    {
      if allocWord[leaf] == {} {
        if freeWord[leaf] == {} {
          return -1, false;
        }
        DrainFreeIntoAlloc(leaf);
      }
      bit, becameFull := TakeBit(leaf);
    }

    /** Claim a page of a leaf and tell the tree if it was the last; None when the leaf has no free page. */
    method ClaimPage(T: nat) returns (r: Option<nat>)
      requires Valid() && T < leaves
      modifies this
      ensures Valid() && (r.None? <==> old(FreeBits()[T]) == {})
      ensures r.None? ==> FreePages() == old(FreePages())
      ensures r.Some? ==> r.value / 64 == T && r.value in old(FreePages()) && FreePages() == old(FreePages()) - {r.value}
      ensures NoneReturned(old(freeWord), freeWord)
    {
      ghost var bits := FreeBits();
      var bit, becameFull := ClaimLeafBit(T);
      if bit < 0 {
        return None;
      }
      LeafChanges(bits, T, bits[T] - {bit});
      PageChanges(bits, T, bit);
      PagesAt(bits, T, bit);
      if becameFull {
        PropagateEdge(T, false, AvailableIn(bits) - {T});
      }
      r := Some(64 * T + bit);
    }

    /** The freer's part in a leaf's words; says whether the leaf had no free page before. */
    method ReleaseLeafBit(leaf: nat, bit: nat) returns (becameAvailable: bool)
      requires LeavesOk() && leaf < leaves && bit < 64 && bit !in FreeBits()[leaf]
      modifies this`freeWord, this`wordCount
      ensures LeavesOk() && FreeBits() == old(FreeBits()[leaf := FreeBits()[leaf] + {bit}])
      ensures becameAvailable <==> old(FreeBits()[leaf]) == {}
      ensures freeWord == old(freeWord)[leaf := freeWord[leaf]]
    {
      var wordWasZero := freeWord[leaf] == {};
      freeWord := freeWord[leaf := freeWord[leaf] + {bit}];
      becameAvailable := false;
      if wordWasZero {
        becameAvailable := wordCount[leaf] == 0;
        wordCount := wordCount[leaf := wordCount[leaf] + 1];
      }
      UnionUpdate(old(allocWord), old(freeWord), leaf, allocWord[leaf], freeWord[leaf]);
      assert allocWord == allocWord[leaf := allocWord[leaf]];
      assert allocWord[leaf] + freeWord[leaf] == old(allocWord[leaf] + freeWord[leaf]) + {bit};
    }

    /** Give a page back. */
    method ReleasePage(page: nat)
      requires Valid() && page < 64 * leaves && page !in FreePages()
      modifies this
      ensures Valid() && FreePages() == old(FreePages()) + {page}
      ensures forall leaf :: 0 <= leaf < leaves && leaf != page / 64 ==> freeWord[leaf] == old(freeWord)[leaf]
    {
      var T, bit := page / 64, page % 64;
      ghost var bits := FreeBits();
      var becameAvailable := ReleaseLeafBit(T, bit);
      LeafChanges(bits, T, bits[T] + {bit});
      PageChanges(bits, T, bit);
      if becameAvailable {
        PropagateEdge(T, true, AvailableIn(bits) - {T});
      }
    }

    /** Set a page of a leaf aside; says whether that was its last free page. */
    method ReserveBit(leaf: nat, bit: nat) returns (becameFull: bool)
      requires LeavesOk() && leaf < leaves && bit < 64 && bit !in freeWord[leaf]
      modifies this`allocWord, this`wordCount
      ensures LeavesOk() && FreeBits() == old(FreeBits()[leaf := FreeBits()[leaf] - {bit}])
      ensures becameFull <==> old(FreeBits()[leaf]) == {bit}
    {
      var wasNonEmpty := allocWord[leaf] != {};
      allocWord := allocWord[leaf := allocWord[leaf] - {bit}];
      becameFull := false;
      if wasNonEmpty && allocWord[leaf] == {} {
        becameFull := wordCount[leaf] == 1;
        wordCount := wordCount[leaf := wordCount[leaf] - 1];
      }
      UnionUpdate(old(allocWord), old(freeWord), leaf, allocWord[leaf], freeWord[leaf]);
      assert freeWord == freeWord[leaf := freeWord[leaf]];
      assert allocWord[leaf] + freeWord[leaf] == old(allocWord[leaf] + freeWord[leaf]) - {bit};
    }

    /** Set a page aside; no freer has returned it. */
    method ReserveLeafBit(T: nat, bit: nat)
      requires Valid() && T < leaves && bit < 64 && bit !in freeWord[T]
      modifies this
      ensures Valid() && FreePages() == old(FreePages()) - {64 * T + bit} && freeWord == old(freeWord)
    {
      ghost var bits := FreeBits();
      var becameFull := ReserveBit(T, bit);
      LeafChanges(bits, T, bits[T] - {bit});
      PageChanges(bits, T, bit);
      if becameFull {
        PropagateEdge(T, false, AvailableIn(bits) - {T});
      }
    }
  }
}
