/**
 LibAlloc's slab allocator: slabs of one slot size kept in buckets by occupancy, with allocation from
 the bucket that topOccupiedBucket names. Slabs are identified by number; the backing allocator, which
 always succeeds here, provides the identity and the number of slots of a new slab.
 */
module SlabAllocator {

  import opened Wrappers
  import opened Counting
  import opened Arith
  import opened SlabSlots
  import opened BucketLists

  // ----- buckets by occupancy -----

  const TABLE_SIZE: nat := 26
  const INTERVAL_NUDGE: nat := 2
  const REINTRODUCTION_THRESHOLD: nat := 90
  const FREE_RELEASE_THRESHOLD: nat := 4
  const FREE_RETAIN_LIMIT: nat := 2

  function Min(a: int, b: int): int { if a <= b then a else b }
  function Max(a: int, b: int): int { if a >= b then a else b }

  /** occupancyToBucketLower and getBucketIndexForOccupancyInFree */
  function LowerIndex(percent: int): int {
    var i := percent / 4;
    if i >= TABLE_SIZE then BUCKET_COUNT - 1
    else Min((Max(i, INTERVAL_NUDGE) - INTERVAL_NUDGE) * BUCKET_COUNT / TABLE_SIZE, BUCKET_COUNT - 1)
  }

  /** occupancyToBucketUpper and getBucketIndexForOccupancyInAlloc */
  function UpperIndex(percent: int): int {
    var i := percent / 4;
    if i >= TABLE_SIZE then BUCKET_COUNT - 1
    else Min(Min(i + INTERVAL_NUDGE, TABLE_SIZE - 1) * BUCKET_COUNT / TABLE_SIZE, BUCKET_COUNT - 1)
  }

  /** The tables name buckets, and the lower one never exceeds the upper. */
  lemma TablesAgree(percent: int)
    requires 0 <= percent <= 100
    ensures 0 <= LowerIndex(percent) <= UpperIndex(percent) < BUCKET_COUNT
  {
  }

  // ----- the state -----

  /** A slab's free list is threaded, and its live slots are the rest. */
  ghost predicate SlotsOk(s: Slab, chain: seq<nat>, live: set<nat>) {
    s.numSlots > 1 && Threaded(s, chain) && live == Upto(s.numSlots) - FreeSlots(s, chain)
  }

  /** A slab's bucket is not above the one that the next allocation from it would name, unless that fills it. */
  predicate NotAbove(s: Slab, index: int)
    requires s.numSlots > 0
  {
    s.freeCount > 1 ==> index <= UpperIndex(OccupancyPercent(s.(freeCount := s.freeCount - 1)))
  }

  /** A slab's occupancy suits its bucket. */
  predicate Suits(s: Slab, b: Bucket)
    requires s.numSlots > 0
  {
    match b
    case FreeSlabs => s.freeCount == s.numSlots
    case FullSlabs => 0 <= s.freeCount < s.numSlots && OccupancyPercent(s) > REINTRODUCTION_THRESHOLD
    case Partial(i) => 0 < s.freeCount < s.numSlots && i >= LowerIndex(OccupancyPercent(s)) && NotAbove(s, i)
  }

  ghost predicate SlabOk(s: Slab, b: Bucket, chain: seq<nat>, live: set<nat>) {
    SlotsOk(s, chain, live) && Suits(s, b)
  }

  ghost predicate SlabAt(slabs: map<Id, Slab>, bucketOf: map<Id, Bucket>, chains: map<Id, seq<nat>>, live: map<Id, set<nat>>, x: Id) {
    x in slabs && x in bucketOf && x in chains && x in live && SlabOk(slabs[x], bucketOf[x], chains[x], live[x])
  }

  ghost predicate SlabsOk(slabs: map<Id, Slab>, bucketOf: map<Id, Bucket>, chains: map<Id, seq<nat>>, live: map<Id, set<nat>>) {
    forall x {:trigger SlabAt(slabs, bucketOf, chains, live, x)} ::
      x in slabs || x in bucketOf || x in live ==> SlabAt(slabs, bucketOf, chains, live, x)
  }

  /** A slab is on the list of the bucket that its bucketIndex names, and on no other. */
  ghost predicate PlaceOk(bucketOf: map<Id, Bucket>, lists: Lists, x: Id)
    requires x in bucketOf
  {
    bucketOf[x] in lists && x in lists[bucketOf[x]]
  }

  ghost predicate MembersOk(bucketOf: map<Id, Bucket>, lists: Lists, b: Bucket)
    requires b in lists
  {
    forall x :: x in lists[b] ==> x in bucketOf && bucketOf[x] == b
  }

  ghost predicate PlacesOk(bucketOf: map<Id, Bucket>, lists: Lists) {
    && (forall x {:trigger PlaceOk(bucketOf, lists, x)} :: x in bucketOf ==> PlaceOk(bucketOf, lists, x))
    && (forall b {:trigger MembersOk(bucketOf, lists, b)} :: b in lists ==> MembersOk(bucketOf, lists, b))
  }

  ghost function NonFull(bucketOf: map<Id, Bucket>): set<Id> {
    set x | x in bucketOf && bucketOf[x] != FullSlabs
  }

  /** topOccupiedBucket is null exactly when every slab is full, and otherwise names a bucket with a slab in it. */
  ghost predicate TopOk(top: Option<Bucket>, numNonFull: int, lists: Lists) {
    && (top.None? <==> numNonFull == 0)
    && (top.Some? ==> IsBucket(top.value) && top.value != FullSlabs && top.value in lists && lists[top.value] != [])
  }

  /** topOccupiedBucket names the highest bucket with a slab in it, the free slabs counting as the lowest. */
  ghost predicate TopIsHighest(lists: Lists, top: Option<Bucket>) {
    top.Some? ==> forall c :: c in lists && c.Partial? && lists[c] != [] ==> top.value.Partial? && c.index <= top.value.index
  }

  /** No partial bucket above the index has a slab. */
  ghost predicate NoneAbove(lists: Lists, index: int) {
    forall c :: c in lists && c.Partial? && c.index > index ==> lists[c] == []
  }

  /** The place of a bucket among the partial ones, the free slabs counting as the lowest. */
  function Rank(b: Bucket): int {
    if b.Partial? then b.index else -1
  }

  /** How many slabs a list has once one has gone from one bucket to another. */
  ghost function SizeAfter(lists: Lists, from: Bucket, to: Bucket, c: Bucket): int
    requires c in lists
  {
    |lists[c]| - (if c == from then 1 else 0) + (if c == to then 1 else 0)
  }

  /**
   Once a slab has gone down from one bucket to another, no partial bucket above the top one has a slab. The top
   bucket is still the one it was, or one that lies below it and has nothing between, unless the slab was the
   only one there and has become empty: then it is the free slabs.
   */
  ghost predicate HighestAfter(lists: Lists, top: Option<Bucket>, from: Bucket, to: Bucket)
    requires from in lists
  {
    top.Some? ==>
      var bound := if top.value == from && |lists[from]| == 1 && to == FreeSlabs then -1 else Rank(top.value);
      forall c :: c in lists && c.Partial? && c.index > bound ==> SizeAfter(lists, from, to, c) == 0
  }

  /** Taking this slab off its list drains the top bucket while a lower partial bucket has a slab. */
  ghost predicate Strands(lists: Lists, top: Option<Bucket>, b: Bucket)
    requires b in lists
  {
    top == Some(b) && |lists[b]| == 1 && exists c :: c in lists && c.Partial? && c != b && lists[c] != []
  }

  ghost predicate CountsOk(bucketOf: map<Id, Bucket>, lists: Lists, top: Option<Bucket>, numNonFull: int, numFree: int) {
    && TopOk(top, numNonFull, lists)
    && numNonFull == |NonFull(bucketOf)| && FreeSlabs in lists && numFree == |lists[FreeSlabs]|
  }

  lemma CountsWithNew(bucketOf: map<Id, Bucket>, lists: Lists, numFree: int, id: Id)
    requires PlacesOk(bucketOf, lists) && CountsOk(bucketOf, lists, None, 0, numFree) && id !in bucketOf
    ensures lists[FreeSlabs] == [] && CountsOk(bucketOf[id := FreeSlabs], lists[FreeSlabs := [id]], Some(FreeSlabs), 1, numFree + 1)
  {
    NoFreeWhenAllFull(bucketOf, lists);
    NonFullMove(bucketOf, id, FreeSlabs);
  }

  lemma MoveKeepsPlaces(bucketOf: map<Id, Bucket>, lists: Lists, x: Id, k: nat, to: Bucket)
    requires PlacesOk(bucketOf, lists) && x in bucketOf && bucketOf[x] in lists && to in lists && to != bucketOf[x]
    requires k < |lists[bucketOf[x]]| && lists[bucketOf[x]][k] == x && NoDup(lists[bucketOf[x]])
    ensures var from := bucketOf[x];
      var lists' := lists[from := Without(lists[from], k)][to := [x] + lists[to]];
      PlacesOk(bucketOf[x := to], lists') && Moved(lists, lists', from, to)
  {
    var from := bucketOf[x];
    var bucketOf', lists' := bucketOf[x := to], lists[from := Without(lists[from], k)][to := [x] + lists[to]];
    WithoutMembers(lists[from], k);
    forall y | y in bucketOf' ensures PlaceOk(bucketOf', lists', y) {
      assert y != x ==> PlaceOk(bucketOf, lists, y);
    }
    forall b | b in lists' ensures MembersOk(bucketOf', lists', b) {
      assert MembersOk(bucketOf, lists, b);
    }
  }

  lemma WithoutMembers(xs: seq<Id>, k: nat)
    requires NoDup(xs) && k < |xs|
    ensures forall y :: y in Without(xs, k) <==> y in xs && y != xs[k]
  {
    forall y | y in xs && y != xs[k] ensures y in Without(xs, k) {
      var i :| 0 <= i < |xs| && xs[i] == y;
      assert Without(xs, k)[if i < k then i else i - 1] == y;
    }
  }

  lemma NonFullMove(bucketOf: map<Id, Bucket>, x: Id, to: Bucket)
    ensures |NonFull(bucketOf[x := to])| == |NonFull(bucketOf)| - B(x in bucketOf && bucketOf[x] != FullSlabs) + B(to != FullSlabs)
  {
    SwapMember(NonFull(bucketOf), NonFull(bucketOf[x := to]), x);
  }

  lemma NonFullWithout(bucketOf: map<Id, Bucket>, x: Id)
    requires x in bucketOf && bucketOf[x] != FullSlabs
    ensures |NonFull(bucketOf - {x})| == |NonFull(bucketOf)| - 1
  {
    SwapMember(NonFull(bucketOf), NonFull(bucketOf - {x}), x);
  }

  /** One slab has gone from one list to another. */
  ghost predicate Moved(lists: Lists, lists': Lists, from: Bucket, to: Bucket) {
    && lists'.Keys == lists.Keys && from in lists && to in lists && from != to
    && |lists'[from]| == |lists[from]| - 1 && |lists'[to]| == |lists[to]| + 1
    && forall b :: b in lists && b != from && b != to ==> lists'[b] == lists[b]
  }

  lemma SlabsWith(slabs: map<Id, Slab>, bucketOf: map<Id, Bucket>, chains: map<Id, seq<nat>>, live: map<Id, set<nat>>,
                  x: Id, s: Slab, b: Bucket, chain: seq<nat>, slots: set<nat>)
    requires SlabsOk(slabs, bucketOf, chains, live) && SlabOk(s, b, chain, slots)
    ensures SlabsOk(slabs[x := s], bucketOf[x := b], chains[x := chain], live[x := slots])
  {
    var slabs', bucketOf', chains', live' := slabs[x := s], bucketOf[x := b], chains[x := chain], live[x := slots];
    forall y | y in slabs' || y in bucketOf' || y in live' ensures SlabAt(slabs', bucketOf', chains', live', y) {
      assert y != x ==> SlabAt(slabs, bucketOf, chains, live, y);
    }
  }

  /** When every slab is on the full list, the list of free slabs is empty. */
  lemma NoFreeWhenAllFull(bucketOf: map<Id, Bucket>, lists: Lists)
    requires PlacesOk(bucketOf, lists) && FreeSlabs in lists && |NonFull(bucketOf)| == 0
    ensures lists[FreeSlabs] == []
  {
    assert lists[FreeSlabs] == [] || lists[FreeSlabs][0] in lists[FreeSlabs];
    assert MembersOk(bucketOf, lists, FreeSlabs);
    assert forall x :: x in lists[FreeSlabs] ==> x in NonFull(bucketOf);
  }

  lemma AddKeepsPlaces(bucketOf: map<Id, Bucket>, lists: Lists, x: Id, b: Bucket)
    requires PlacesOk(bucketOf, lists) && x !in bucketOf && b in lists
    ensures PlacesOk(bucketOf[x := b], lists[b := [x] + lists[b]])
  {
    var bucketOf', lists' := bucketOf[x := b], lists[b := [x] + lists[b]];
    forall y | y in bucketOf' ensures PlaceOk(bucketOf', lists', y) {
      assert y != x ==> PlaceOk(bucketOf, lists, y);
    }
    forall c | c in lists' ensures MembersOk(bucketOf', lists', c) {
      assert MembersOk(bucketOf, lists, c);
    }
  }

  /** Writing the back link of a slab that is on no list leaves the lists as they are. */
  lemma LinksElsewhere(next: Links, prev: Links, prev': Links, heads: Heads, lists: Lists, x: Id)
    requires ListsOk(next, prev, heads, lists) && prev' == prev[x := None]
    requires forall c :: c in lists ==> x !in lists[c]
    ensures ListsOk(next, prev', heads, lists)
  {
    forall b | IsBucket(b) ensures ListOk(next, prev', heads, lists, b) {
      assert ListOk(next, prev, heads, lists, b);
      forall y | y in lists[b] ensures y in next && y in prev && y in prev' && prev'[y] == prev[y] {
        var i :| 0 <= i < |lists[b]| && lists[b][i] == y;
        assert NodeOk(next, prev, lists[b], i);
      }
      LinkedFrame(next, prev, next, prev', heads[b], lists[b]);
    }
  }

  lemma SlabsWithFresh(slabs: map<Id, Slab>, bucketOf: map<Id, Bucket>, chains: map<Id, seq<nat>>, live: map<Id, set<nat>>,
                       x: Id, numSlots: nat)
    requires SlabsOk(slabs, bucketOf, chains, live) && numSlots > 1 && x !in slabs
    ensures x !in bucketOf && x !in live
    ensures SlabsOk(slabs[x := Fresh(numSlots)], bucketOf[x := FreeSlabs], chains[x := []], live[x := {}])
  {
    assert x in bucketOf || x in live ==> SlabAt(slabs, bucketOf, chains, live, x);
    FreshThreaded(numSlots);
    SlabsWith(slabs, bucketOf, chains, live, x, Fresh(numSlots), FreeSlabs, [], {});
  }

  // ----- what a step does to one slab -----

  /** A slab with a free slot gives out one that no caller holds. */
  lemma AllocFrom(s: Slab, b: Bucket, chain: seq<nat>, live: set<nat>) returns (chain': seq<nat>)
    requires SlabOk(s, b, chain, live) && b != FullSlabs
    ensures s.nextFree.Some? && s.nextFree.value < s.numSlots && s.nextFree.value !in live
    ensures SlotsOk(AllocSlot(s), chain', live + {s.nextFree.value})
    ensures AllocSlot(s).freeCount == s.freeCount - 1 && AllocSlot(s).numSlots == s.numSlots
  {
    FreeSlotsInside(s, chain);
    chain' := AllocThreaded(s, chain);
    Complement(Upto(s.numSlots), FreeSlots(s, chain), s.nextFree.value);
  }

  lemma Complement(all: set<nat>, free: set<nat>, x: nat)
    ensures x in free && free <= all ==> all - (free - {x}) == (all - free) + {x} && x in all
    ensures all - (free + {x}) == all - free - {x}
  {
  }

  lemma AllocSuits(s: Slab)
    requires s.numSlots > 1 && 0 <= s.freeCount < s.numSlots
    ensures s.freeCount == 0 ==> Suits(s, FullSlabs)
    ensures 0 <= UpperIndex(OccupancyPercent(s)) < BUCKET_COUNT
    ensures s.freeCount > 0 ==> Suits(s, Partial(UpperIndex(OccupancyPercent(s))))
  {
    OccupancyInRange(s);
    TablesAgree(OccupancyPercent(s));
    if s.freeCount == 0 {
      SmallQuotient(s.numSlots);
    } else {
      UpperNotAbove(s);
    }
  }

  lemma UpperNotAbove(s: Slab)
    requires s.numSlots > 1 && 0 < s.freeCount <= s.numSlots
    ensures NotAbove(s, UpperIndex(OccupancyPercent(s)))
  {
    var t := s.(freeCount := s.freeCount - 1);
    var p, q := OccupancyPercent(s), OccupancyPercent(t);
    assert 0 <= p <= q <= 100 by {
      FullerIsHigher(s, t);
    }
    UpperIndexMono(p, q);
  }

  lemma FullerIsHigher(s: Slab, t: Slab)
    requires s.numSlots == t.numSlots > 0 && 0 <= t.freeCount <= s.freeCount <= s.numSlots
    ensures 0 <= OccupancyPercent(s) <= OccupancyPercent(t) <= 100
  {
    assert 0 <= OccupancyPercent(s) by {
      OccupancyInRange(s);
    }
    assert OccupancyPercent(t) <= 100 by {
      OccupancyInRange(t);
    }
    var a, b, n := t.freeCount * 100 + s.numSlots - 1, s.freeCount * 100 + s.numSlots - 1, s.numSlots;
    assert a / n <= b / n by {
      DivMono(a, b, n);
    }
  }

  lemma UpperIndexMono(p: int, q: int)
    requires 0 <= p <= q <= 100
    ensures 0 <= UpperIndex(p) <= UpperIndex(q)
  {
  }

  lemma SmallQuotient(n: nat)
    requires n > 0
    ensures (n - 1) / n == 0
  {
    LessByFactor((n - 1) / n, 1, n);
    LessByFactor(-1, (n - 1) / n, n);
  }

  lemma FreeTo(s: Slab, chain: seq<nat>, live: set<nat>, slot: nat) returns (chain': seq<nat>)
    requires SlotsOk(s, chain, live) && slot in live
    ensures SlotsOk(FreeSlot(s, slot), chain', live - {slot})
    ensures FreeSlot(s, slot).freeCount == s.freeCount + 1 <= s.numSlots && FreeSlot(s, slot).numSlots == s.numSlots
  {
    chain' := FreeThreaded(s, chain, slot);
    Complement(Upto(s.numSlots), FreeSlots(s, chain), slot);
    FreeCountIsSize(FreeSlot(s, slot), chain');
  }

  lemma FreeSuits(s: Slab)
    requires s.numSlots > 1 && 0 < s.freeCount <= s.numSlots
    ensures 0 <= LowerIndex(OccupancyPercent(s)) < BUCKET_COUNT
    ensures s.freeCount < s.numSlots ==> Suits(s, Partial(LowerIndex(OccupancyPercent(s))))
    ensures s.freeCount < s.numSlots && OccupancyPercent(s.(freeCount := s.freeCount - 1)) > REINTRODUCTION_THRESHOLD ==>
      Suits(s, Partial(BUCKET_COUNT - 1))
  {
    OccupancyInRange(s);
    OccupancyInRange(s.(freeCount := s.freeCount - 1));
    TablesAgree(OccupancyPercent(s));
    UpperNotAbove(s);
  }

  /** A slab on the full list is too full to become empty with one free. */
  lemma FullNotEmptied(s: Slab)
    requires s.numSlots > 1 && 0 <= s.freeCount && OccupancyPercent(s) > REINTRODUCTION_THRESHOLD
    ensures s.freeCount + 1 < s.numSlots
  {
    var a, n := s.freeCount * 100 + s.numSlots - 1, s.numSlots;
    assert a == (a / n) * n + a % n;
    MulMono(a / n, 9, n);
  }

  lemma DivMono(a: int, b: int, n: nat)
    requires n > 0 && a <= b
    ensures a / n <= b / n
  {
    assert a == (a / n) * n + a % n && b == (b / n) * n + b % n;
    assert (b / n + 1) * n == (b / n) * n + n;
    LessByFactor(a / n, b / n + 1, n);
  }

  /** Freeing a slot does not raise a slab's bucket in the lower table. */
  lemma LowerIndexFalls(s: Slab, slot: nat)
    requires s.numSlots > 1 && 0 <= s.freeCount < s.numSlots
    ensures LowerIndex(OccupancyPercent(FreeSlot(s, slot))) <= LowerIndex(OccupancyPercent(s))
  {
    var s' := FreeSlot(s, slot);
    FullerIsHigher(s', s);
    LowerIndexMono(OccupancyPercent(s'), OccupancyPercent(s));
  }

  lemma LowerIndexMono(p: int, q: int)
    requires 0 <= p <= q <= 100
    ensures LowerIndex(p) <= LowerIndex(q)
  {
  }

  /** The bucket that a slab belongs to once a slot of it has been freed. */
  function BucketAfterFree(s: Slab, b: Bucket): Bucket
    requires s.numSlots > 0 && LowerIndex(OccupancyPercent(s)) >= 0
  {
    if b == FullSlabs then
      if OccupancyPercent(s) <= REINTRODUCTION_THRESHOLD then Partial(BUCKET_COUNT - 1) else FullSlabs
    else if s.freeCount == s.numSlots then FreeSlabs
    else Partial(LowerIndex(OccupancyPercent(s)))
  }

  lemma FreedSuits(s: Slab, b: Bucket, slot: nat)
    requires s.numSlots > 1 && 0 <= s.freeCount < s.numSlots && Suits(s, b) && b != FreeSlabs
    ensures var s' := FreeSlot(s, slot);
      && 0 <= LowerIndex(OccupancyPercent(s')) < BUCKET_COUNT
      && (b.Partial? ==> LowerIndex(OccupancyPercent(s')) <= b.index)
      && Suits(s', BucketAfterFree(s', b))
  {
    var s' := FreeSlot(s, slot);
    FreeSuits(s');
    LowerIndexFalls(s, slot);
    if b == FullSlabs {
      FullNotEmptied(s);
      assert OccupancyPercent(s'.(freeCount := s'.freeCount - 1)) == OccupancyPercent(s);
    }
  }

  /** What freeing a slot does to the slabs. */
  lemma GiveSlot(slabs: map<Id, Slab>, bucketOf: map<Id, Bucket>, chains: map<Id, seq<nat>>, live: map<Id, set<nat>>, x: Id, slot: nat)
    returns (chain: seq<nat>)
    requires SlabsOk(slabs, bucketOf, chains, live) && x in live && slot in live[x]
    ensures x in slabs && x in bucketOf && bucketOf[x] != FreeSlabs && slabs[x].numSlots > 1
    ensures var s := FreeSlot(slabs[x], slot);
      && 0 <= LowerIndex(OccupancyPercent(s)) < BUCKET_COUNT
      && (bucketOf[x].Partial? ==> LowerIndex(OccupancyPercent(s)) <= bucketOf[x].index)
      && SlabsOk(slabs[x := s], bucketOf[x := BucketAfterFree(s, bucketOf[x])], chains[x := chain], live[x := live[x] - {slot}])
  {
    assert SlabAt(slabs, bucketOf, chains, live, x);
    var s, s' := slabs[x], FreeSlot(slabs[x], slot);
    chain := FreeTo(s, chains[x], live[x], slot);
    FreeCountIsSize(s, chains[x]);
    FreedSuits(s, bucketOf[x], slot);
    SlabsWith(slabs, bucketOf, chains, live, x, s', BucketAfterFree(s', bucketOf[x]), chain, live[x] - {slot});
  }

  /** What taking a slot does to the slabs: the slot was free, and the slab suits the bucket that the source moves it to. */
  lemma TakeSlot(slabs: map<Id, Slab>, bucketOf: map<Id, Bucket>, chains: map<Id, seq<nat>>, live: map<Id, set<nat>>, x: Id)
    returns (chain: seq<nat>)
    requires SlabsOk(slabs, bucketOf, chains, live) && x in slabs && x in bucketOf && bucketOf[x] != FullSlabs
    ensures x in live && slabs[x].nextFree.Some? && slabs[x].numSlots > 1
    ensures slabs[x].nextFree.value < slabs[x].numSlots && slabs[x].nextFree.value !in live[x]
    ensures var target := AllocSlot(slabs[x]);
      var live' := live[x := live[x] + {slabs[x].nextFree.value}];
      && GoesUp(slabs[x], bucketOf[x])
      && SlabsOk(slabs[x := target], bucketOf[x := BucketAfterAlloc(target)], chains[x := chain], live')
  {
    assert SlabAt(slabs, bucketOf, chains, live, x);
    chain := AllocSettles(slabs[x], bucketOf[x], chains[x], live[x]);
    var target := AllocSlot(slabs[x]);
    SlabsWith(slabs, bucketOf, chains, live, x, target, BucketAfterAlloc(target), chain, live[x] + {slabs[x].nextFree.value});
  }

  /** Taking a slot fills a slab that was partly full, or leaves it in its bucket or a higher one. */
  predicate GoesUp(s: Slab, b: Bucket) {
    && s.nextFree.Some? && s.numSlots > 1
    && var target := AllocSlot(s);
    && target.numSlots == s.numSlots && 0 <= UpperIndex(OccupancyPercent(target)) < BUCKET_COUNT
    && if target.freeCount == 0 then b.Partial? else Rank(b) <= UpperIndex(OccupancyPercent(target))
  }

  lemma AllocSettles(s: Slab, b: Bucket, chain: seq<nat>, live: set<nat>) returns (chain': seq<nat>)
    requires SlabOk(s, b, chain, live) && b != FullSlabs
    ensures s.numSlots > 1 && s.nextFree.Some? && s.nextFree.value < s.numSlots && s.nextFree.value !in live && GoesUp(s, b)
    ensures SlabOk(AllocSlot(s), BucketAfterAlloc(AllocSlot(s)), chain', live + {s.nextFree.value})
  {
    chain' := AllocFrom(s, b, chain, live);
    AllocSuits(AllocSlot(s));
    assert OccupancyPercent(s.(freeCount := s.freeCount - 1)) == OccupancyPercent(AllocSlot(s));
  }

  /** The bucket that a slab belongs to once a slot of it has been taken. */
  function BucketAfterAlloc(s: Slab): Bucket
    requires s.numSlots > 0 && UpperIndex(OccupancyPercent(s)) >= 0
  {
    if s.freeCount == 0 then FullSlabs else Partial(UpperIndex(OccupancyPercent(s)))
  }

  // ----- the counters and the top bucket after a move -----

  /** A slab on no list of a partial bucket cannot show there. */
  lemma NoPartialWhenAllFull(bucketOf: map<Id, Bucket>, lists: Lists)
    requires PlacesOk(bucketOf, lists) && |NonFull(bucketOf)| == 0
    ensures forall c :: c in lists && c.Partial? ==> lists[c] == []
  {
    forall c | c in lists && c.Partial? ensures lists[c] == [] {
      assert lists[c] == [] || lists[c][0] in lists[c];
      assert MembersOk(bucketOf, lists, c);
      assert forall x :: x in lists[c] ==> x in NonFull(bucketOf);
    }
  }

  lemma TopAfterRaise(lists: Lists, lists': Lists, from: Bucket, index: nat)
    requires Moved(lists, lists', from, Partial(index)) && Rank(from) <= index
    ensures TopIsHighest(lists', Some(Partial(index))) <==> NoneAbove(lists, index)
  {
    if NoneAbove(lists, index) {
      assert forall c :: c in lists' && c.Partial? && c.index > index ==> lists'[c] == lists[c];
    } else {
      var c :| c in lists && c.Partial? && c.index > index && lists[c] != [];
      assert lists'[c] == lists[c];
    }
  }

  /** The sizes of the lists after a move decide which bucket is the highest. */
  lemma SizesDecide(lists: Lists, lists': Lists, from: Bucket, to: Bucket, top: Bucket)
    requires Moved(lists, lists', from, to)
    ensures TopIsHighest(lists', Some(top)) <==>
      forall c :: c in lists && c.Partial? && c.index > Rank(top) ==> SizeAfter(lists, from, to, c) == 0
  {
    forall c | c in lists ensures |lists'[c]| == SizeAfter(lists, from, to, c) {
    }
    if !TopIsHighest(lists', Some(top)) {
      var c :| c in lists' && c.Partial? && lists'[c] != [] && !(top.Partial? && c.index <= top.index);
      assert SizeAfter(lists, from, to, c) != 0;
    }
  }

  lemma TopAfterReturn(lists: Lists, lists': Lists, top: Bucket, from: Bucket, top': Bucket)
    requires from.Partial? && Moved(lists, lists', from, FreeSlabs) && top in lists && lists[top] != []
    requires top' == if lists'[top] == [] then FreeSlabs else top
    ensures TopIsHighest(lists', Some(top')) <==> HighestAfter(lists, Some(top), from, FreeSlabs)
  {
    assert lists'[top] == [] <==> top == from && |lists[from]| == 1;
    SizesDecide(lists, lists', from, FreeSlabs, top');
  }

  lemma TopAfterLower(lists: Lists, lists': Lists, top: Bucket, from: nat, to: nat, top': Bucket)
    requires to < from && Moved(lists, lists', Partial(from), Partial(to)) && top in lists && lists[top] != []
    requires lists'[top] != [] ==> top' == top
    requires lists'[top] == [] ==> top'.Partial? && to <= top'.index <= from
    requires lists'[top] == [] ==> forall j :: top'.index < j <= from && Partial(j) in lists' ==> lists'[Partial(j)] == []
    ensures TopIsHighest(lists', Some(top')) <==> HighestAfter(lists, Some(top), Partial(from), Partial(to))
  {
    SizesDecide(lists, lists', Partial(from), Partial(to), top);
    if lists'[top] == [] {
      assert top == Partial(from);
      assert TopIsHighest(lists', Some(top')) <==> TopIsHighest(lists', Some(top));
    }
  }

  /** Where the top bucket was the highest it still is, unless the free strands a partial bucket. */
  lemma HighestKept(lists: Lists, top: Option<Bucket>, from: Bucket, to: Bucket)
    requires TopIsHighest(lists, top) && from in lists && lists[from] != [] && Rank(to) <= Rank(from)
    requires from != FreeSlabs && (to == FreeSlabs ==> from.Partial?)
    ensures HighestAfter(lists, top, from, to) <==> !(to == FreeSlabs && Strands(lists, top, from))
  {
    if top.Some? {
      if to == FreeSlabs && Strands(lists, top, from) {
        var c :| c in lists && c.Partial? && c != from && lists[c] != [];
        assert SizeAfter(lists, from, to, c) != 0;
      } else {
        forall c | c in lists && c.Partial? && c.index > Rank(top.value) ensures SizeAfter(lists, from, to, c) == 0 {
        }
      }
    }
  }

  lemma CountsWhenFull(bucketOf: map<Id, Bucket>, lists: Lists, lists': Lists, top: Option<Bucket>, numNonFull: int, numFree: int,
                       x: Id, top': Option<Bucket>)
    requires CountsOk(bucketOf, lists, top, numNonFull, numFree) && x in bucketOf && bucketOf[x].Partial?
    requires Moved(lists, lists', bucketOf[x], FullSlabs)
    requires if numNonFull == 1 then top'.None?
             else top'.Some? && IsBucket(top'.value) && top'.value != FullSlabs && top'.value in lists' && lists'[top'.value] != []
    ensures CountsOk(bucketOf[x := FullSlabs], lists', top', numNonFull - 1, numFree)
  {
    MovedNonFull(bucketOf, x, FullSlabs, numNonFull);
  }

  lemma CountsWhenPartial(bucketOf: map<Id, Bucket>, lists: Lists, lists': Lists, top: Option<Bucket>, numNonFull: int, numFree: int,
                          x: Id, to: Bucket)
    requires CountsOk(bucketOf, lists, top, numNonFull, numFree) && x in bucketOf && bucketOf[x] != FullSlabs
    requires to.Partial? && IsBucket(to) && Moved(lists, lists', bucketOf[x], to)
    ensures CountsOk(bucketOf[x := to], lists', Some(to), numNonFull, if bucketOf[x] == FreeSlabs then numFree - 1 else numFree)
  {
    MovedNonFull(bucketOf, x, to, numNonFull);
  }

  lemma MovedNonFull(bucketOf: map<Id, Bucket>, x: Id, to: Bucket, numNonFull: int)
    requires x in bucketOf && numNonFull == |NonFull(bucketOf)|
    ensures bucketOf[x] != FullSlabs && to != FullSlabs ==> |NonFull(bucketOf[x := to])| == numNonFull > 0
    ensures bucketOf[x] != FullSlabs && to == FullSlabs ==> |NonFull(bucketOf[x := to])| == numNonFull - 1
    ensures bucketOf[x] == FullSlabs && to != FullSlabs ==> |NonFull(bucketOf[x := to])| == numNonFull + 1
  {
    NonFullMove(bucketOf, x, to);
    if bucketOf[x] != FullSlabs {
      assert x in NonFull(bucketOf);
    }
  }

  /** When not every slab is full and no partial bucket has a slab, a free slab exists. */
  lemma FreeSlabExists(bucketOf: map<Id, Bucket>, lists: Lists)
    requires PlacesOk(bucketOf, lists) && |NonFull(bucketOf)| > 0 && FreeSlabs in lists
    requires forall b :: b in lists && b.Partial? ==> lists[b] == []
    ensures lists[FreeSlabs] != []
  {
    var x :| x in NonFull(bucketOf);
    assert PlaceOk(bucketOf, lists, x);
  }

  /** Slabs without live slots may be gone; the others are as they were. */
  ghost predicate KeepsLive(before: map<Id, set<nat>>, after: map<Id, set<nat>>) {
    && (forall y :: y in before && before[y] != {} ==> y in after && after[y] == before[y])
    && (forall y :: y in after ==> y in before && after[y] == before[y])
  }

  lemma RemoveKeepsPlaces(bucketOf: map<Id, Bucket>, lists: Lists, x: Id, b: Bucket, k: nat)
    requires PlacesOk(bucketOf, lists) && x in bucketOf && bucketOf[x] == b && b in lists && k < |lists[b]| && lists[b][k] == x
    requires NoDup(lists[b])
    ensures PlacesOk(bucketOf - {x}, lists[b := Without(lists[b], k)])
  {
    var bucketOf', lists' := bucketOf - {x}, lists[b := Without(lists[b], k)];
    WithoutMembers(lists[b], k);
    forall y | y in bucketOf' ensures PlaceOk(bucketOf', lists', y) {
      assert PlaceOk(bucketOf, lists, y);
    }
    forall c | c in lists' ensures MembersOk(bucketOf', lists', c) {
      assert MembersOk(bucketOf, lists, c);
    }
  }

  /** Giving up a free slab, others remaining, keeps the counters and the top bucket right. */
  lemma CountsWithoutFree(bucketOf: map<Id, Bucket>, lists: Lists, top: Option<Bucket>, numNonFull: int, numFree: int, x: Id)
    requires PlacesOk(bucketOf, lists) && CountsOk(bucketOf, lists, top, numNonFull, numFree) && numFree > 1
    requires x in bucketOf && bucketOf[x] == FreeSlabs && lists[FreeSlabs][0] == x && NoDup(lists[FreeSlabs])
    ensures CountsOk(bucketOf - {x}, lists[FreeSlabs := Without(lists[FreeSlabs], 0)], top, numNonFull - 1, numFree - 1)
  {
    NonFullWithout(bucketOf, x);
    var y := lists[FreeSlabs][1];
    assert MembersOk(bucketOf, lists, FreeSlabs);
    assert y in NonFull(bucketOf - {x});
  }

  lemma SlabsWithout(slabs: map<Id, Slab>, bucketOf: map<Id, Bucket>, chains: map<Id, seq<nat>>, live: map<Id, set<nat>>, x: Id)
    requires SlabsOk(slabs, bucketOf, chains, live) && x in bucketOf && bucketOf[x] == FreeSlabs
    ensures SlabsOk(slabs - {x}, bucketOf - {x}, chains, live - {x}) && x in live && live[x] == {}
  {
    assert SlabAt(slabs, bucketOf, chains, live, x);
    FreeCountIsSize(slabs[x], chains[x]);
    FreeSlotsInside(slabs[x], chains[x]);
    UptoSize(slabs[x].numSlots);
    SubsetSize(FreeSlots(slabs[x], chains[x]), Upto(slabs[x].numSlots));
    var slabs', bucketOf', live' := slabs - {x}, bucketOf - {x}, live - {x};
    forall y | y in slabs' || y in bucketOf' || y in live' ensures SlabAt(slabs', bucketOf', chains, live', y) {
      assert SlabAt(slabs, bucketOf, chains, live, y);
    }
  }

  /** The top bucket stays, or is replaced when the move has emptied it. */
  lemma CountsAfterMove(bucketOf: map<Id, Bucket>, lists: Lists, lists': Lists, top: Option<Bucket>, numNonFull: int, numFree: int,
                        x: Id, to: Bucket, top': Option<Bucket>)
    requires CountsOk(bucketOf, lists, top, numNonFull, numFree) && x in bucketOf && bucketOf[x].Partial? && to != FullSlabs
    requires IsBucket(to) && Moved(lists, lists', bucketOf[x], to)
    requires top'.Some? && IsBucket(top'.value) && top'.value != FullSlabs && top'.value in lists' && lists'[top'.value] != []
    ensures CountsOk(bucketOf[x := to], lists', top', numNonFull, if to == FreeSlabs then numFree + 1 else numFree)
  {
    MovedNonFull(bucketOf, x, to, numNonFull);
  }

  lemma EmptyLists(heads: Heads, lists: Lists)
    requires heads == map[FreeSlabs := None, FullSlabs := None, Partial(0) := None, Partial(1) := None, Partial(2) := None,
                          Partial(3) := None, Partial(4) := None, Partial(5) := None]
    requires lists == map[FreeSlabs := [], FullSlabs := [], Partial(0) := [], Partial(1) := [], Partial(2) := [],
                          Partial(3) := [], Partial(4) := [], Partial(5) := []]
    ensures ListsOk(map[], map[], heads, lists) && PlacesOk(map[], lists)
  {
    assert forall b :: b in lists ==> lists[b] == [] && IsBucket(b);
    forall b | IsBucket(b) ensures ListOk(map[], map[], heads, lists, b) {
      assert b == FreeSlabs || b == FullSlabs || b == Partial(0) || b == Partial(1) || b == Partial(2)
          || b == Partial(3) || b == Partial(4) || b == Partial(5);
    }
  }

  /** A slot has been taken of slab x, which was in this condition before; the other slabs are as they were. */
  ghost predicate Took(slabs: map<Id, Slab>, bucketOf: map<Id, Bucket>, slabs': map<Id, Slab>, bucketOf': map<Id, Bucket>, x: Id, before: Slab) {
    && before.nextFree.Some? && before.numSlots > 0 && UpperIndex(OccupancyPercent(AllocSlot(before))) >= 0
    && slabs' == slabs[x := AllocSlot(before)] && bucketOf' == bucketOf[x := BucketAfterAlloc(AllocSlot(before))]
  }

  /** A slot of slab x has been given back; the other slabs are as they were. */
  ghost predicate Gave(slabs: map<Id, Slab>, bucketOf: map<Id, Bucket>, slabs': map<Id, Slab>, bucketOf': map<Id, Bucket>, x: Id, slot: nat)
    requires x in slabs && x in bucketOf && slabs[x].numSlots > 0
  {
    var s := FreeSlot(slabs[x], slot);
    && LowerIndex(OccupancyPercent(s)) >= 0
    && slabs' == slabs[x := s] && bucketOf' == bucketOf[x := BucketAfterFree(s, bucketOf[x])]
  }

  /** A slab that has become full, or whose new bucket has no slab above it, leaves the top bucket the highest. */
  ghost predicate RepairsTop(s: Slab, lists: Lists)
    requires s.numSlots > 0
  {
    s.freeCount == 0 || NoneAbove(lists, UpperIndex(OccupancyPercent(s)))
  }

  lemma OnlyNonFull(bucketOf: map<Id, Bucket>, id: Id)
    requires NonFull(bucketOf) == {}
    ensures NonFull(bucketOf[id := FreeSlabs]) == {id}
  {
    assert forall y :: y in NonFull(bucketOf[id := FreeSlabs]) ==> y == id || y in NonFull(bucketOf);
  }

  lemma TookFromNew(slabs: map<Id, Slab>, bucketOf: map<Id, Bucket>, slabs': map<Id, Slab>, bucketOf': map<Id, Bucket>, id: Id, n: nat)
    requires n > 1 && Took(slabs[id := Fresh(n)], bucketOf[id := FreeSlabs], slabs', bucketOf', id, Fresh(n))
    ensures Took(slabs, bucketOf, slabs', bucketOf', id, Fresh(n))
  {
  }

  lemma HighestStays(lists: Lists, b: Bucket, s: Slab)
    requires GoesUp(s, b)
    ensures TopIsHighest(lists, Some(b)) ==> RepairsTop(AllocSlot(s), lists)
  {
  }

  /** A full slab that comes back, or one that goes down with nothing left above the top, leaves the top bucket the highest. */
  ghost predicate Settles(lists: Lists, top: Option<Bucket>, from: Bucket, to: Bucket)
    requires from in lists
  {
    (from == FullSlabs && to != FullSlabs) || HighestAfter(lists, top, from, to)
  }

  lemma SettlesKept(bucketOf: map<Id, Bucket>, lists: Lists, top: Option<Bucket>, x: Id, to: Bucket)
    requires PlacesOk(bucketOf, lists) && x in bucketOf && bucketOf[x] != FreeSlabs
    requires bucketOf[x] == FullSlabs ==> to != FreeSlabs
    requires bucketOf[x].Partial? ==> Rank(to) <= Rank(bucketOf[x])
    ensures bucketOf[x] in lists
    ensures TopIsHighest(lists, top) ==>
      (Settles(lists, top, bucketOf[x], to) <==> !(to == FreeSlabs && Strands(lists, top, bucketOf[x])))
    ensures to == bucketOf[x] ==> (HighestAfter(lists, top, to, to) <==> TopIsHighest(lists, top))
  {
    assert PlaceOk(bucketOf, lists, x);
    var from := bucketOf[x];
    if TopIsHighest(lists, top) && !(from == FullSlabs && to != FullSlabs) {
      HighestKept(lists, top, from, to);
    }
    if to == from && top.Some? {
      StandingStill(lists, top.value, from);
    }
  }

  lemma StandingStill(lists: Lists, top: Bucket, from: Bucket)
    requires from in lists && from != FreeSlabs
    ensures HighestAfter(lists, Some(top), from, from) <==> TopIsHighest(lists, Some(top))
  {
    if HighestAfter(lists, Some(top), from, from) {
      forall c | c in lists && c.Partial? && lists[c] != [] ensures top.Partial? && c.index <= top.index {
        assert SizeAfter(lists, from, from, c) != 0;
      }
    }
  }

  /** One more free slot leaves the slab without a live one. */
  predicate Empties(s: Slab, b: Bucket) {
    b.Partial? && s.freeCount + 1 == s.numSlots
  }

  class Allocator {
    var slabs: map<Id, Slab>
    var bucketOf: map<Id, Bucket>          // bucketIndex
    var next: Links                        // nextInBucket
    var prev: Links                        // prevInBucket
    var heads: Heads                       // fullSlabs, freeSlabs and partiallyFullBuckets
    var top: Option<Bucket>                // topOccupiedBucket
    var numNonFull: int
    var numFree: int
    ghost var lists: Lists
    ghost var chains: map<Id, seq<nat>>
    ghost var live: map<Id, set<nat>>      // the slots in callers' hands

    ghost predicate Listed()
      reads this
    {
      ListsOk(next, prev, heads, lists) && PlacesOk(bucketOf, lists)
    }

    ghost predicate Valid()
      reads this
    {
      Listed() && SlabsOk(slabs, bucketOf, chains, live) && CountsOk(bucketOf, lists, top, numNonFull, numFree)
    }

    constructor ()
      ensures Valid() && slabs == map[] && bucketOf == map[] && live == map[] && top == None
    {
      slabs, bucketOf, next, prev := map[], map[], map[], map[];
      heads := map[FreeSlabs := None, FullSlabs := None, Partial(0) := None, Partial(1) := None, Partial(2) := None,
                   Partial(3) := None, Partial(4) := None, Partial(5) := None];
      top, numNonFull, numFree := None, 0, 0;
      lists := map[FreeSlabs := [], FullSlabs := [], Partial(0) := [], Partial(1) := [], Partial(2) := [],
                   Partial(3) := [], Partial(4) := [], Partial(5) := []];
      chains, live := map[], map[];
      new;
      EmptyLists(heads, lists);
    }

    /** Unlink a slab from the list it is on. */
    method RemoveSlabFromBucket(x: Id, b: Bucket, ghost k: nat)
      requires ListsOk(next, prev, heads, lists) && b in lists && k < |lists[b]| && lists[b][k] == x
      modifies this`next, this`prev, this`heads, this`lists
      ensures ListsOk(next, prev, heads, lists) && lists == old(lists)[b := Without(old(lists)[b], k)]
      ensures x in prev && prev[x] == None && forall c :: c in lists ==> x !in lists[c]
    {
      assert ListOk(next, prev, heads, lists, b) && NodeOk(next, prev, lists[b], k);
      RemoveKeepsLists(next, prev, heads, lists, b, k);
      WithoutMembers(lists[b], k);
      forall c | c in lists && c != b ensures x !in lists[c] {
        assert Apart(lists, b, c);
      }
      var after, before := next[x], prev[x];
      if after.Some? {
        prev := prev[after.value := before];
      }
      if before.Some? {
        next := next[before.value := after];
      } else {
        heads := heads[b := after];
      }
      next, prev := next[x := None], prev[x := None];
      lists := lists[b := Without(lists[b], k)];
    }

    /** Link a slab that is on no list in front of a bucket's list. */
    method InsertSlabAtBucketHead(x: Id, b: Bucket)
      requires ListsOk(next, prev, heads, lists) && IsBucket(b) && x in prev && prev[x] == None
      requires forall c :: c in lists ==> x !in lists[c]
      modifies this`next, this`prev, this`heads, this`lists
      ensures b in old(lists) && ListsOk(next, prev, heads, lists) && lists == old(lists)[b := [x] + old(lists)[b]]
    {
      InsertKeepsLists(next, prev, heads, lists, b, x);
      var head := heads[b];
      next := next[x := head];
      if head.Some? {
        prev := prev[head.value := Some(x)];
      }
      heads := heads[b := Some(x)];
      lists := lists[b := [x] + lists[b]];
    }

    /** Take a slab off its list, record its new bucket and put it at the head of that bucket's list. */
    method MoveSlab(x: Id, to: Bucket)
      requires Listed() && x in bucketOf && IsBucket(to) && to != bucketOf[x]
      modifies this`next, this`prev, this`heads, this`lists, this`bucketOf
      ensures Listed() && bucketOf == old(bucketOf)[x := to] && Moved(old(lists), lists, old(bucketOf[x]), to)
    {
      var from := bucketOf[x];
      assert PlaceOk(bucketOf, lists, x) && ListOk(next, prev, heads, lists, from) && ListOk(next, prev, heads, lists, to);
      ghost var k :| 0 <= k < |lists[from]| && lists[from][k] == x;
      MoveKeepsPlaces(bucketOf, lists, x, k, to);
      RemoveSlabFromBucket(x, from, k);
      bucketOf := bucketOf[x := to];
      InsertSlabAtBucketHead(x, to);
    }

    /** The links of a new slab: the list it goes to is empty, so no back link is needed. */
    method LinkNewSlab(id: Id)
      requires Listed() && id !in bucketOf && FreeSlabs in lists && lists[FreeSlabs] == []
      modifies this`next, this`prev, this`heads, this`lists, this`bucketOf
      ensures Listed() && bucketOf == old(bucketOf)[id := FreeSlabs] && lists == old(lists)[FreeSlabs := [id]]
    {
      assert ListOk(next, prev, heads, lists, FreeSlabs);
      forall c | c in lists ensures id !in lists[c] {
        assert MembersOk(bucketOf, lists, c);
      }
      LinksElsewhere(next, prev, prev[id := None], heads, lists, id);
      InsertKeepsLists(next, prev[id := None], heads, lists, FreeSlabs, id);
      AddKeepsPlaces(bucketOf, lists, id, FreeSlabs);
      assert [id] + lists[FreeSlabs] == [id];
      next, prev := next[id := heads[FreeSlabs]], prev[id := None];
      bucketOf := bucketOf[id := FreeSlabs];
      heads := heads[FreeSlabs := Some(id)];
      lists := lists[FreeSlabs := [id]];
    }

    /** The counters for a new slab, made when every slab is full. */
    method CountNewSlab(id: Id)
      requires Listed() && CountsOk(bucketOf, lists, top, numNonFull, numFree) && numNonFull == 0 && id !in bucketOf
      modifies this`next, this`prev, this`heads, this`lists, this`bucketOf, this`top, this`numNonFull, this`numFree
      ensures Listed() && CountsOk(bucketOf, lists, top, numNonFull, numFree) && numNonFull == 1
      ensures bucketOf == old(bucketOf)[id := FreeSlabs] && NonFull(old(bucketOf)) == {} && TopIsHighest(lists, top)
    {
      NoPartialWhenAllFull(bucketOf, lists);
      CountsWithNew(bucketOf, lists, numFree, id);
      LinkNewSlab(id);
      numNonFull, numFree := numNonFull + 1, numFree + 1;
      if top.None? {
        top := Some(FreeSlabs);
      }
    }

    /** A new, empty slab. */
    method AddNewSlab(id: Id, numSlots: nat)
      requires Valid() && numNonFull == 0 && id !in slabs && numSlots > 1
      modifies this
      ensures Valid() && numNonFull == 1 && slabs == old(slabs)[id := Fresh(numSlots)]
      ensures id !in old(live) && live == old(live)[id := {}]
      ensures bucketOf == old(bucketOf)[id := FreeSlabs] && NonFull(old(bucketOf)) == {} && TopIsHighest(lists, top)
    {
      SlabsWithFresh(slabs, bucketOf, chains, live, id, numSlots);
      CountNewSlab(id);
      slabs, chains, live := slabs[id := Fresh(numSlots)], chains[id := []], live[id := {}];
    }

    /** The highest partial bucket that has a slab, or the free slabs. */
    method HighestBucket() returns (b: Bucket)
      requires Listed() && |NonFull(bucketOf)| > 0
      ensures IsBucket(b) && b != FullSlabs && b in lists && lists[b] != [] && TopIsHighest(lists, Some(b))
    {
      var i := BUCKET_COUNT;
      assert forall c :: c in lists ==> IsBucket(c);
      while i > 0
        invariant 0 <= i <= BUCKET_COUNT
        invariant forall c :: c in lists && c.Partial? && c.index >= i ==> lists[c] == []
      {
        i := i - 1;
        assert ListOk(next, prev, heads, lists, Partial(i));
        if heads[Partial(i)].Some? {
          return Partial(i);
        }
      }
      assert ListOk(next, prev, heads, lists, FreeSlabs);
      FreeSlabExists(bucketOf, lists);
      b := FreeSlabs;
    }

    /** The slab that allocation takes from: the head of the top bucket. */
    method TopSlab() returns (b: Bucket, x: Id)
      requires Valid() && numNonFull > 0
      ensures top == Some(b) && b != FullSlabs && x in slabs && x in bucketOf && bucketOf[x] == b
    {
      b := top.value;
      assert ListOk(next, prev, heads, lists, b) && MembersOk(bucketOf, lists, b);
      x := heads[b].value;
      assert x in lists[b];
      assert SlabAt(slabs, bucketOf, chains, live, x);
    }

    /** Move the slab that has just lost its last free slot to the full list. */
    method RetireSlab(x: Id)
      requires Listed() && CountsOk(bucketOf, lists, top, numNonFull, numFree) && x in bucketOf && bucketOf[x].Partial?
      modifies this`next, this`prev, this`heads, this`lists, this`bucketOf, this`top, this`numNonFull
      ensures Listed() && CountsOk(bucketOf, lists, top, numNonFull, numFree) && bucketOf == old(bucketOf)[x := FullSlabs]
      ensures TopIsHighest(lists, top)
    {
      MovedNonFull(bucketOf, x, FullSlabs, numNonFull);
      MoveSlab(x, FullSlabs);
      numNonFull := numNonFull - 1;
      if numNonFull == 0 {
        top := None;
      } else {
        var b := HighestBucket();
        top := Some(b);
      }
      CountsWhenFull(old(bucketOf), old(lists), lists, old(top), old(numNonFull), numFree, x, top);
    }

    /** Move a slab to the bucket of its new occupancy, which becomes the top bucket. */
    method RaiseSlab(x: Id, index: nat)
      requires Listed() && CountsOk(bucketOf, lists, top, numNonFull, numFree) && x in bucketOf && bucketOf[x] != FullSlabs
      requires index < BUCKET_COUNT && bucketOf[x] != Partial(index) && Rank(bucketOf[x]) <= index
      modifies this`next, this`prev, this`heads, this`lists, this`bucketOf, this`top, this`numFree
      ensures Listed() && CountsOk(bucketOf, lists, top, numNonFull, numFree) && bucketOf == old(bucketOf)[x := Partial(index)]
      ensures TopIsHighest(lists, top) <==> old(NoneAbove(lists, index))
    {
      if bucketOf[x] == FreeSlabs {
        numFree := numFree - 1;
      }
      MoveSlab(x, Partial(index));
      top := Some(Partial(index));
      CountsWhenPartial(old(bucketOf), old(lists), lists, old(top), numNonFull, old(numFree), x, Partial(index));
      TopAfterRaise(old(lists), lists, old(bucketOf)[x], index);
    }

    /** Take a slot of the slab at the head of the top bucket. */
    method AllocFromTop() returns (x: Id, slot: nat)
      requires Valid() && numNonFull > 0
      modifies this
      ensures Valid() && x in old(slabs) && x in old(live)
      ensures slot < old(slabs)[x].numSlots && slot !in old(live)[x] && live == old(live)[x := old(live)[x] + {slot}]
      ensures x in NonFull(old(bucketOf)) && Took(old(slabs), old(bucketOf), slabs, bucketOf, x, old(slabs)[x])
      ensures old(top) == Some(old(bucketOf)[x]) && GoesUp(old(slabs)[x], old(bucketOf)[x])
      ensures TopIsHighest(lists, top) <==> RepairsTop(slabs[x], old(lists))
    {
      var b;
      b, x := TopSlab();
      ghost var chain := TakeSlot(slabs, bucketOf, chains, live, x);
      slot := slabs[x].nextFree.value;
      var target := AllocSlot(slabs[x]);
      slabs, chains, live := slabs[x := target], chains[x := chain], live[x := live[x] + {slot}];
      Rebucket(x, target.freeCount == 0, UpperIndex(OccupancyPercent(target)));
    }

    /** Put a slab that a slot was taken from where it now belongs. */
    method Rebucket(x: Id, full: bool, index: nat)
      requires Listed() && CountsOk(bucketOf, lists, top, numNonFull, numFree) && index < BUCKET_COUNT
      requires x in bucketOf && bucketOf[x] != FullSlabs && top == Some(bucketOf[x])
      requires if full then bucketOf[x].Partial? else Rank(bucketOf[x]) <= index
      modifies this`next, this`prev, this`heads, this`lists, this`bucketOf, this`top, this`numNonFull, this`numFree
      ensures Listed() && CountsOk(bucketOf, lists, top, numNonFull, numFree)
      ensures bucketOf == old(bucketOf)[x := if full then FullSlabs else Partial(index)]
      ensures TopIsHighest(lists, top) <==> full || old(NoneAbove(lists, index))
    {
      if full {
        RetireSlab(x);
      } else if bucketOf[x] == FreeSlabs || bucketOf[x] != Partial(index) {
        RaiseSlab(x, index);
      } else {
        assert bucketOf == bucketOf[x := Partial(index)];
      }
    }

    /**
     A slot for a caller; id and numSlots describe the slab that the backing allocator provides if one is
     needed. If the top bucket was the highest it still is; if it was not, a new slab or a slab that has become
     full makes it so, and any other exactly when no partial bucket above its own has a slab.
     */
    method Alloc(id: Id, numSlots: nat) returns (x: Id, slot: nat)
      requires Valid() && (numNonFull == 0 ==> id !in slabs && numSlots > 1)
      modifies this
      ensures Valid() && x in slabs && slot < slabs[x].numSlots && (x in old(live) <==> old(numNonFull) != 0)
      ensures x in old(live) ==> slot !in old(live)[x] && live == old(live)[x := old(live)[x] + {slot}]
      ensures x in old(live) ==> x in old(slabs) && Took(old(slabs), old(bucketOf), slabs, bucketOf, x, old(slabs)[x])
      ensures x !in old(live) ==> x == id && live == old(live)[x := {slot}]
      ensures x !in old(live) ==> Took(old(slabs), old(bucketOf), slabs, bucketOf, x, Fresh(numSlots))
      ensures x in old(live) ==> x in old(bucketOf) && old(top) == Some(old(bucketOf)[x])
      ensures TopIsHighest(lists, top) <==> x !in old(live) || RepairsTop(slabs[x], old(lists))
      ensures old(TopIsHighest(lists, top)) ==> TopIsHighest(lists, top)
    {
      if numNonFull == 0 {
        x, slot := AllocFromNew(id, numSlots);
      } else {
        x, slot := AllocFromTop();
        HighestStays(old(lists), old(bucketOf)[x], old(slabs)[x]);
      }
    }

    /** Every slab is full: a new one, and a slot of it. */
    method AllocFromNew(id: Id, numSlots: nat) returns (x: Id, slot: nat)
      requires Valid() && numNonFull == 0 && id !in slabs && numSlots > 1
      modifies this
      ensures Valid() && x == id && x !in old(live) && slot < numSlots && live == old(live)[x := {slot}]
      ensures Took(old(slabs), old(bucketOf), slabs, bucketOf, x, Fresh(numSlots)) && TopIsHighest(lists, top)
    {
      AddNewSlab(id, numSlots);
      OnlyNonFull(old(bucketOf), id);
      ghost var lists', slabs' := lists, slabs;
      x, slot := AllocFromTop();
      HighestStays(lists', FreeSlabs, slabs'[x]);
      TookFromNew(old(slabs), old(bucketOf), slabs, bucketOf, x, numSlots);
    }

    /** A slab that was full has become available enough: it goes to the highest partial bucket. */
    method Reintroduce(x: Id)
      requires Listed() && CountsOk(bucketOf, lists, top, numNonFull, numFree) && x in bucketOf && bucketOf[x] == FullSlabs
      modifies this`next, this`prev, this`heads, this`lists, this`bucketOf, this`top, this`numNonFull
      ensures Listed() && CountsOk(bucketOf, lists, top, numNonFull, numFree)
      ensures bucketOf == old(bucketOf)[x := Partial(BUCKET_COUNT - 1)] && TopIsHighest(lists, top)
    {
      MovedNonFull(bucketOf, x, Partial(BUCKET_COUNT - 1), numNonFull);
      MoveSlab(x, Partial(BUCKET_COUNT - 1));
      numNonFull := numNonFull + 1;
      top := Some(Partial(BUCKET_COUNT - 1));
      assert forall c :: c in lists ==> IsBucket(c);
    }

    /**
     A slab that has become empty goes to the free slabs. When that drains the top bucket, the free slabs become
     the top bucket, even where a lower partial bucket has slabs.
     */
    method ReturnToFree(x: Id)
      requires Listed() && CountsOk(bucketOf, lists, top, numNonFull, numFree) && x in bucketOf && bucketOf[x].Partial?
      modifies this`next, this`prev, this`heads, this`lists, this`bucketOf, this`top, this`numFree
      ensures Listed() && CountsOk(bucketOf, lists, top, numNonFull, numFree) && bucketOf == old(bucketOf)[x := FreeSlabs]
      ensures old(bucketOf[x] in lists) && (TopIsHighest(lists, top) <==> old(HighestAfter(lists, top, bucketOf[x], FreeSlabs)))
    {
      assert PlaceOk(bucketOf, lists, x);
      MovedNonFull(bucketOf, x, FreeSlabs, numNonFull);
      MoveSlab(x, FreeSlabs);
      numFree := numFree + 1;
      assert ListOk(next, prev, heads, lists, top.value);
      if heads[top.value].None? {
        top := Some(FreeSlabs);
      }
      CountsAfterMove(old(bucketOf), old(lists), lists, old(top), numNonFull, old(numFree), x, FreeSlabs, top);
      TopAfterReturn(old(lists), lists, old(top).value, old(bucketOf)[x], top.value);
    }

    /** The highest bucket between two that has a slab; the lower one has. */
    method NextBelow(from: nat, index: nat) returns (i: nat)
      requires ListsOk(next, prev, heads, lists) && index <= from < BUCKET_COUNT && Partial(index) in lists && lists[Partial(index)] != []
      ensures index <= i <= from && Partial(i) in lists && lists[Partial(i)] != []
      ensures forall j :: i < j <= from && Partial(j) in lists ==> lists[Partial(j)] == []
    {
      i := from;
      assert ListOk(next, prev, heads, lists, Partial(i));
      while i > index && heads[Partial(i)].None?
        invariant index <= i <= from && Partial(i) in heads
        invariant forall j :: i < j <= from && Partial(j) in lists ==> lists[Partial(j)] == []
      {
        assert ListOk(next, prev, heads, lists, Partial(i));
        i := i - 1;
        assert ListOk(next, prev, heads, lists, Partial(i));
      }
      assert ListOk(next, prev, heads, lists, Partial(i));
    }

    /** A slab whose occupancy has fallen goes to a lower bucket; a drained top bucket is replaced by the next below. */
    method LowerSlab(x: Id, index: nat)
      requires Listed() && CountsOk(bucketOf, lists, top, numNonFull, numFree) && x in bucketOf && bucketOf[x].Partial?
      requires index < bucketOf[x].index && IsBucket(bucketOf[x])
      modifies this`next, this`prev, this`heads, this`lists, this`bucketOf, this`top
      ensures Listed() && CountsOk(bucketOf, lists, top, numNonFull, numFree) && bucketOf == old(bucketOf)[x := Partial(index)]
      ensures old(bucketOf[x] in lists) && (TopIsHighest(lists, top) <==> old(HighestAfter(lists, top, bucketOf[x], Partial(index))))
    {
      var oldIndex := bucketOf[x].index;
      assert PlaceOk(bucketOf, lists, x);
      MovedNonFull(bucketOf, x, Partial(index), numNonFull);
      MoveSlab(x, Partial(index));
      assert ListOk(next, prev, heads, lists, top.value);
      if heads[top.value].None? {
        var i := NextBelow(oldIndex, index);
        top := Some(Partial(i));
      }
      CountsAfterMove(old(bucketOf), old(lists), lists, old(top), numNonFull, numFree, x, Partial(index), top);
      TopAfterLower(old(lists), lists, old(top).value, oldIndex, index, top.value);
    }

    /** Take the first free slab off its list and out of the counters; another remains. */
    method UnlinkFreeSlab() returns (x: Id)
      requires Listed() && CountsOk(bucketOf, lists, top, numNonFull, numFree) && numFree > 1
      modifies this`next, this`prev, this`heads, this`lists, this`bucketOf, this`numNonFull, this`numFree
      ensures Listed() && CountsOk(bucketOf, lists, top, numNonFull, numFree) && numFree == old(numFree) - 1
      ensures x in old(bucketOf) && old(bucketOf)[x] == FreeSlabs && bucketOf == old(bucketOf) - {x}
      ensures TopIsHighest(lists, top) <==> old(TopIsHighest(lists, top))
    {
      assert ListOk(next, prev, heads, lists, FreeSlabs) && MembersOk(bucketOf, lists, FreeSlabs);
      x := heads[FreeSlabs].value;
      assert x in lists[FreeSlabs];
      CountsWithoutFree(bucketOf, lists, top, numNonFull, numFree, x);
      RemoveKeepsPlaces(bucketOf, lists, x, FreeSlabs, 0);
      RemoveSlabFromBucket(x, FreeSlabs, 0);
      bucketOf := bucketOf - {x};
      numFree, numNonFull := numFree - 1, numNonFull - 1;
    }

    /** Give the first free slab back to the backing allocator; another remains. */
    method ReleaseSlab()
      requires Valid() && numFree > 1
      modifies this
      ensures Valid() && numFree == old(numFree) - 1 && KeepsLive(old(live), live)
      ensures TopIsHighest(lists, top) <==> old(TopIsHighest(lists, top))
    {
      var x := UnlinkFreeSlab();
      SlabsWithout(slabs, old(bucketOf), chains, live, x);
      slabs, live := slabs - {x}, live - {x};
    }

    method ReleaseFreeSlabsIfNecessary()
      requires Valid()
      modifies this
      ensures Valid() && KeepsLive(old(live), live)
      ensures TopIsHighest(lists, top) <==> old(TopIsHighest(lists, top))
      ensures numFree == if old(numFree) > FREE_RELEASE_THRESHOLD then FREE_RETAIN_LIMIT else old(numFree)
    {
      if numFree > FREE_RELEASE_THRESHOLD {
        while numFree > FREE_RETAIN_LIMIT
          invariant Valid() && numFree >= FREE_RETAIN_LIMIT && KeepsLive(old(live), live)
          invariant TopIsHighest(lists, top) <==> old(TopIsHighest(lists, top))
          decreases numFree
        {
          ReleaseSlab();
        }
      }
    }

    /**
     Take back a slot that a caller holds. If the top bucket was the highest it still is, unless this empties the
     only slab of the top bucket while a lower partial bucket has slabs, and then it is not. If it was not, a full
     slab that comes back makes it so, and any other exactly when the lists after the move have nothing above it.
     */
    method Free(x: Id, slot: nat)
      requires Valid() && x in live && slot in live[x]
      modifies this
      ensures Valid() && KeepsLive(old(live)[x := old(live)[x] - {slot}], live)
      ensures x in old(slabs) && old(slabs)[x].numSlots > 1 && x in old(bucketOf) && old(bucketOf)[x] in old(lists)
      ensures !old(Empties(slabs[x], bucketOf[x])) ==> Gave(old(slabs), old(bucketOf), slabs, bucketOf, x, slot)
      ensures old(TopIsHighest(lists, top)) ==>
        (TopIsHighest(lists, top) <==> !old(Empties(slabs[x], bucketOf[x]) && Strands(lists, top, bucketOf[x])))
      ensures LowerIndex(OccupancyPercent(FreeSlot(old(slabs)[x], slot))) >= 0
      ensures TopIsHighest(lists, top) <==>
        Settles(old(lists), old(top), old(bucketOf)[x], BucketAfterFree(FreeSlot(old(slabs)[x], slot), old(bucketOf)[x]))
    {
      ghost var chain := GiveSlot(slabs, bucketOf, chains, live, x, slot);
      assert PlaceOk(bucketOf, lists, x);
      var s := FreeSlot(slabs[x], slot);
      slabs, chains, live := slabs[x := s], chains[x := chain], live[x := live[x] - {slot}];
      var released := Resettle(x, s);
      if released {
        ReleaseFreeSlabsIfNecessary();
      }
    }

    /** Put a slab that a slot was given back to where it now belongs; says whether it became empty. */
    method Resettle(x: Id, s: Slab) returns (emptied: bool)
      requires Listed() && CountsOk(bucketOf, lists, top, numNonFull, numFree) && x in bucketOf && bucketOf[x] != FreeSlabs
      requires s.numSlots > 1 && 0 <= LowerIndex(OccupancyPercent(s)) < BUCKET_COUNT
      requires bucketOf[x].Partial? ==> LowerIndex(OccupancyPercent(s)) <= bucketOf[x].index
      modifies this`next, this`prev, this`heads, this`lists, this`bucketOf, this`top, this`numNonFull, this`numFree
      ensures Listed() && CountsOk(bucketOf, lists, top, numNonFull, numFree)
      ensures bucketOf == old(bucketOf)[x := BucketAfterFree(s, old(bucketOf)[x])]
      ensures old(bucketOf[x] in lists) && emptied == (old(bucketOf)[x].Partial? && s.freeCount == s.numSlots)
      ensures TopIsHighest(lists, top) <==>
        Settles(old(lists), old(top), old(bucketOf)[x], BucketAfterFree(s, old(bucketOf)[x]))
      ensures old(TopIsHighest(lists, top)) ==> (TopIsHighest(lists, top) <==> !(emptied && old(Strands(lists, top, bucketOf[x]))))
    {
      emptied := false;
      SettlesKept(bucketOf, lists, top, x, BucketAfterFree(s, bucketOf[x]));
      assert PlaceOk(bucketOf, lists, x) && IsBucket(bucketOf[x]);
      if bucketOf[x] == FullSlabs {
        if OccupancyPercent(s) <= REINTRODUCTION_THRESHOLD {
          Reintroduce(x);
        } else {
          assert bucketOf == bucketOf[x := FullSlabs];
        }
      } else if s.freeCount == s.numSlots {
        ReturnToFree(x);
        emptied := true;
      } else {
        var index := LowerIndex(OccupancyPercent(s));
        if bucketOf[x].index != index {
          LowerSlab(x, index);
        } else {
          assert bucketOf == bucketOf[x := Partial(index)];
        }
      }
    }
  }

  // ----- the top bucket need not be the highest -----

  /** Two allocations fill a slab of two slots. */
  method FillSlab() returns (a: Allocator, p: nat, q: nat)
    ensures fresh(a) && a.Valid() && a.numNonFull == 0 && a.top == None
    ensures a.bucketOf == map[1 := FullSlabs] && 1 in a.slabs && a.slabs.Keys == {1} && Holding(a.slabs[1], 0)
    ensures p != q && a.live == map[1 := {p, q}]
  {
    a := new Allocator();
    assert NonFull(a.bucketOf) == {};
    var x;
    x, p := a.Alloc(1, 2);
    assert Holding(a.slabs[1], 1) && 1 in NonFull(a.bucketOf);
    x, q := a.Alloc(3, 2);
    assert NonFull(a.bucketOf) == {};
    assert {p} + {q} == {p, q};
  }

  ghost predicate Holding(s: Slab, freeCount: int) {
    s.numSlots == 2 && s.freeCount == freeCount
  }

  lemma HalfFull(s: Slab)
    requires Holding(s, 1)
    ensures OccupancyPercent(s) == 50 && UpperIndex(50) == 3 && LowerIndex(50) >= 0
  {
  }

  lemma ComesBack(s: Slab, slot: nat)
    requires Holding(s, 0)
    ensures Holding(FreeSlot(s, slot), 1) && LowerIndex(OccupancyPercent(FreeSlot(s, slot))) >= 0
    ensures BucketAfterFree(FreeSlot(s, slot), FullSlabs) == Partial(5)
  {
    HalfFull(FreeSlot(s, slot));
  }

  /** A third makes a second slab, half full. */
  method FullAndHalfFull() returns (a: Allocator, p: nat, q: nat)
    ensures fresh(a) && a.Valid() && TopIsHighest(a.lists, a.top)
    ensures a.bucketOf == map[1 := FullSlabs, 2 := Partial(3)] && 1 in a.slabs && Holding(a.slabs[1], 0)
    ensures p != q && 1 in a.live && a.live[1] == {p, q}
  {
    a, p, q := FillSlab();
    var x, slot := a.Alloc(2, 2);
    HalfFull(a.slabs[2]);
  }

  /** A free brings the first one back, half full too, in the highest bucket. */
  method TwoHalfFull() returns (a: Allocator, q: nat)
    ensures fresh(a) && a.Valid() && TopIsHighest(a.lists, a.top)
    ensures a.bucketOf == map[1 := Partial(5), 2 := Partial(3)] && 1 in a.slabs && Holding(a.slabs[1], 1)
    ensures 1 in a.live && q in a.live[1]
  {
    var p;
    a, p, q := FullAndHalfFull();
    FreeOfFull(a, p, q);
  }

  method FreeOfFull(a: Allocator, p: nat, q: nat)
    requires a.Valid() && 1 in a.slabs && Holding(a.slabs[1], 0) && 1 in a.bucketOf && a.bucketOf[1] == FullSlabs
    requires 1 in a.live && p in a.live[1] && q in a.live[1] && p != q
    modifies a
    ensures a.Valid() && TopIsHighest(a.lists, a.top) && a.bucketOf == old(a.bucketOf)[1 := Partial(5)]
    ensures 1 in a.slabs && Holding(a.slabs[1], 1) && 1 in a.live && q in a.live[1]
  {
    ComesBack(a.slabs[1], p);
    ghost var rest := a.live[1] - {p};
    assert q in rest;
    a.Free(1, p);
  }

  /**
   Freeing the first slab's other slot empties it: the free slabs become the top bucket although the second
   slab is in a partial one.
   */
  method DrainedTopStrandsSlab() returns (a: Allocator)
    ensures fresh(a) && a.Valid() && !TopIsHighest(a.lists, a.top)
  {
    var q;
    a, q := TwoHalfFull();
    assert Partial(5) in a.lists ==> ListOk(a.next, a.prev, a.heads, a.lists, Partial(5));
    TopAlone(a.bucketOf, a.lists, a.top, a.numNonFull, a.numFree);
    a.Free(1, q);
  }

  lemma TopAlone(bucketOf: map<Id, Bucket>, lists: Lists, top: Option<Bucket>, numNonFull: int, numFree: int)
    requires PlacesOk(bucketOf, lists) && CountsOk(bucketOf, lists, top, numNonFull, numFree) && TopIsHighest(lists, top)
    requires bucketOf == map[1 := Partial(5), 2 := Partial(3)] && (Partial(5) in lists ==> NoDup(lists[Partial(5)]))
    ensures Partial(5) in lists && Strands(lists, top, Partial(5))
  {
    assert PlaceOk(bucketOf, lists, 1) && PlaceOk(bucketOf, lists, 2);
    assert 1 in NonFull(bucketOf);
    var xs := lists[Partial(5)];
    assert SetOf(xs) == {1} by {
      assert MembersOk(bucketOf, lists, Partial(5));
    }
    SetOfSize(xs);
    assert lists[Partial(3)] != [];
  }
}
