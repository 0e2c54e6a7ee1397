/**
 One slab of LibAlloc's slab allocator: equal slots with a free list threaded through the free slots
 themselves. Slots from the initialised horizon on have never been used and hold no link yet.
 */
module SlabSlots {

  import opened Wrappers
  import opened Counting
  import opened Arith

  datatype Slab = Slab(
    numSlots: nat,
    freeCount: int,
    nextFree: Option<nat>,
    initializedHorizon: nat,
    link: map<nat, Option<nat>>)     // the word at the start of each slot that has been written

  function Fresh(numSlots: nat): Slab
    requires numSlots > 1
  {
    Slab(numSlots, numSlots, Some(0), 0, map[])
  }

  /** Take the slot that nextFree names. */
  function AllocSlot(s: Slab): Slab
    requires s.nextFree.Some?
  {
    var slot := s.nextFree.value;
    if slot == s.initializedHorizon then
      var horizon := s.initializedHorizon + 1;
      s.(initializedHorizon := horizon, freeCount := s.freeCount - 1,
         nextFree := if horizon + 1 > s.numSlots then None else Some(horizon))
    else
      s.(nextFree := if slot in s.link then s.link[slot] else None,
         link := s.link[slot := None], freeCount := s.freeCount - 1)
  }

  function FreeSlot(s: Slab, slot: nat): Slab {
    s.(link := s.link[slot := s.nextFree], nextFree := Some(slot), freeCount := s.freeCount + 1)
  }

  /** 100 less the free share in percent, rounded up. */
  function OccupancyPercent(s: Slab): int
    requires s.numSlots > 0
  {
    100 - (s.freeCount * 100 + s.numSlots - 1) / s.numSlots
  }

  lemma OccupancyInRange(s: Slab)
    requires s.numSlots > 0 && 0 <= s.freeCount <= s.numSlots
    ensures 0 <= OccupancyPercent(s) <= 100
  {
    var a, n := s.freeCount * 100 + s.numSlots - 1, s.numSlots;
    assert a == (a / n) * n + a % n;
    LessByFactor(-1, a / n, n);
    LessByFactor(a / n, 101, n);
  }

  // ----- the free list -----

  /** What the end of the list points at: the first slot never used, if there is one. */
  function Horizon(s: Slab): Option<nat> {
    if s.initializedHorizon < s.numSlots then Some(s.initializedHorizon) else None
  }

  /** The list visits these used and freed slots, in this order, and goes on at the horizon. */
  ghost predicate Threaded(s: Slab, xs: seq<nat>) {
    && s.initializedHorizon <= s.numSlots && s.freeCount == |xs| + (s.numSlots - s.initializedHorizon)
    && (forall i, j :: 0 <= i < j < |xs| ==> xs[i] != xs[j])
    && (forall i :: 0 <= i < |xs| ==> xs[i] < s.initializedHorizon && LinkOk(s, xs, i))
    && s.nextFree == if xs == [] then Horizon(s) else Some(xs[0])
  }

  ghost predicate LinkOk(s: Slab, xs: seq<nat>, i: nat)
    requires i < |xs|
  {
    xs[i] in s.link && s.link[xs[i]] == if i + 1 < |xs| then Some(xs[i + 1]) else Horizon(s)
  }

  ghost function SetOf(xs: seq<nat>): (r: set<nat>)
    ensures forall x :: x in r <==> x in xs
  {
    set x | x in xs
  }

  /** The free slots: those on the list and those beyond the horizon. */
  ghost function FreeSlots(s: Slab, xs: seq<nat>): set<nat> {
    SetOf(xs) + (Upto(s.numSlots) - Upto(s.initializedHorizon))
  }

  lemma FreshThreaded(numSlots: nat)
    requires numSlots > 1
    ensures Threaded(Fresh(numSlots), []) && FreeSlots(Fresh(numSlots), []) == Upto(numSlots)
  {
  }

  /** Taking a slot takes a free one, and leaves the others. */
  lemma AllocThreaded(s: Slab, xs: seq<nat>) returns (xs': seq<nat>)
    requires Threaded(s, xs) && s.freeCount > 0
    ensures s.nextFree.Some? && s.nextFree.value in FreeSlots(s, xs)
    ensures Threaded(AllocSlot(s), xs') && FreeSlots(AllocSlot(s), xs') == FreeSlots(s, xs) - {s.nextFree.value}
  {
    if xs == [] {
      xs' := [];
    } else {
      xs' := xs[1..];
      var s' := AllocSlot(s);
      assert LinkOk(s, xs, 0);
      forall i | 0 <= i < |xs'| ensures xs'[i] < s'.initializedHorizon && LinkOk(s', xs', i) {
        assert LinkOk(s, xs, i + 1);
      }
      assert forall x :: x in xs <==> x == xs[0] || x in xs';
    }
  }

  /** Freeing a slot in use makes it, and no other, free again. */
  lemma FreeThreaded(s: Slab, xs: seq<nat>, slot: nat) returns (xs': seq<nat>)
    requires Threaded(s, xs) && slot < s.numSlots && slot !in FreeSlots(s, xs)
    ensures Threaded(FreeSlot(s, slot), xs') && FreeSlots(FreeSlot(s, slot), xs') == FreeSlots(s, xs) + {slot}
  {
    xs' := [slot] + xs;
    var s' := FreeSlot(s, slot);
    assert slot < s.initializedHorizon && slot !in xs;
    forall i | 0 <= i < |xs'| ensures xs'[i] < s'.initializedHorizon && LinkOk(s', xs', i) {
      if i > 0 {
        assert LinkOk(s, xs, i - 1);
      }
    }
    assert forall x :: x in xs' <==> x == slot || x in xs;
  }

  lemma FreeSlotsInside(s: Slab, xs: seq<nat>)
    requires Threaded(s, xs)
    ensures FreeSlots(s, xs) <= Upto(s.numSlots)
  {
    assert forall x :: x in xs ==> x < s.initializedHorizon;
  }

  /** The count of free slots is right. */
  lemma FreeCountIsSize(s: Slab, xs: seq<nat>)
    requires Threaded(s, xs)
    ensures s.freeCount == |FreeSlots(s, xs)| <= s.numSlots
  {
    var listed, h := SetOf(xs), s.initializedHorizon;
    SetOfSize(xs);
    BeyondSize(h, s.numSlots);
    assert listed <= Upto(h);
    assert listed !! Upto(s.numSlots) - Upto(h);
    SubsetSize(FreeSlots(s, xs), Upto(s.numSlots));
    UptoSize(s.numSlots);
  }

  lemma BeyondSize(low: nat, high: nat)
    requires low <= high
    ensures |Upto(high) - Upto(low)| == high - low
  {
    UptoSize(low);
    UptoSize(high);
    assert Upto(high) == (Upto(high) - Upto(low)) + Upto(low);
  }

  lemma {:induction false} SetOfSize(xs: seq<nat>)
    requires forall i, j :: 0 <= i < j < |xs| ==> xs[i] != xs[j]
    ensures |SetOf(xs)| == |xs|
  {
    if xs != [] {
      var rest := xs[1..];
      SetOfSize(rest);
      assert xs[0] !in rest;
      assert SetOf(xs) == {xs[0]} + SetOf(rest);
    }
  }
}
