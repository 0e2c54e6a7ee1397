/**
 NUMAPool::allocatePages with one caller at a time and no BIG_PAGE_ONLY flag. A pool keeps wholly free
 big pages in a ring buffer and partly allocated ones in a bit pool; the ring is a queue here and the
 bit pool a set, from which any element may come. A big page is perBig small pages.
 */
module PagePool {

  import opened Wrappers
  import opened Counting
  import opened Arith

  type Id = nat

  /** A small page: the big page it is in and its place there. */
  datatype Page = Page(big: Id, slot: nat)

  function PagesOf(big: Id, slots: set<nat>): set<Page> {
    set s | s in slots :: Page(big, s)
  }

  lemma {:induction false} PagesOfSize(big: Id, slots: set<nat>)
    ensures |PagesOf(big, slots)| == |slots|
  {
    if slots != {} {
      var s :| s in slots;
      PagesOfSize(big, slots - {s});
      assert PagesOf(big, slots) == PagesOf(big, slots - {s}) + {Page(big, s)};
    }
  }

  /** The free small pages of some big pages. */
  ghost function FreeIn(free: map<Id, set<nat>>, bigs: set<Id>): set<Page> {
    set b, s | b in free && b in bigs && s in free[b] :: Page(b, s)
  }

  ghost function Members(ring: seq<Id>): set<Id> {
    set x | x in ring
  }

  /** Giving out slots of one big page takes exactly those pages from the free ones. */
  lemma GiveOut(free: map<Id, set<nat>>, bigs: set<Id>, b: Id, slots: set<nat>)
    requires b in free && b in bigs && slots <= free[b]
    ensures FreeIn(free[b := free[b] - slots], bigs) == FreeIn(free, bigs) - PagesOf(b, slots)
    ensures PagesOf(b, slots) <= FreeIn(free, bigs)
  {
  }

  /** A big page without free slots can be left out. */
  lemma LeaveOut(free: map<Id, set<nat>>, bigs: set<Id>, b: Id)
    requires b in free && free[b] == {}
    ensures FreeIn(free, bigs - {b}) == FreeIn(free, bigs)
  {
  }

  /** The free pages of one more big page. */
  lemma FreeInSplit(free: map<Id, set<nat>>, bigs: set<Id>, b: Id)
    requires b in free && b !in bigs
    ensures FreeIn(free, bigs + {b}) == FreeIn(free, bigs) + PagesOf(b, free[b])
    ensures FreeIn(free, bigs) !! PagesOf(b, free[b])
  {
  }

  /** From the free pages before, a number of pages has been given out, and the rest is free still. */
  ghost predicate Took(before: set<Page>, after: set<Page>, given: set<Page>, count: nat) {
    given <= before && |given| == count && after == before - given
  }

  lemma TookMore(before: set<Page>, mid: set<Page>, after: set<Page>, given: set<Page>, n: nat, more: set<Page>, m: nat)
    requires Took(before, mid, given, n) && Took(mid, after, more, m)
    ensures Took(before, after, given + more, n + m)
  {
  }

  /** Some of the given slots, as many as asked for if there are that many. */
  method PickSlots(slots: set<nat>, count: nat) returns (picked: set<nat>)
    ensures picked <= slots && |picked| == if count <= |slots| then count else |slots|
  {
    picked := {};
    var left := slots;
    while |picked| < count && left != {}
      invariant picked !! left && picked + left == slots && |picked| <= count && |picked| + |left| == |slots|
      decreases |left|
    {
      var s :| s in left;
      picked, left := picked + {s}, left - {s};
    }
    if left == {} {
      assert picked == slots;
    }
  }

  lemma DivParts(n: nat, k: nat)
    requires k > 0
    ensures n == (n / k) * k + n % k && 0 <= n % k < k
  {
  }

  /** Division rounded up. */
  lemma CeilParts(n: nat, k: nat)
    requires k > 0 && n > 0
    ensures var q := (n + k - 1) / k;
      q >= 1 && (q - 1) * k < n <= q * k && (n % k == 0 ==> n == q * k) && (n % k != 0 ==> n < q * k)
  {
    var m := n + k - 1;
    var q := m / k;
    DivParts(m, k);
    DivParts(n, k);
    assert (q - 1) * k == q * k - k;
    LessByFactor(0, q, k);
    if n % k == 0 {
      assert (n / k - 1) * k == n - k && (n / k + 1) * k == n + k;
      LessByFactor(q - 1, n / k, k);
      LessByFactor(n / k - 1, q, k);
    } else if n == q * k {
      MultipleHasNoRest(q, k);
    }
  }

  /** No read of the ring takes more than the request. */
  lemma ReadSizes(count: nat, k: nat, required: nat, available: nat)
    requires k > 0 && count > 0 && available > 0 && required == (count + k - 1) / k
    ensures required >= 1
    ensures var grabbed := if required <= available then required else available;
      if count % k == 0 || available < required then k <= grabbed * k <= count
      else 0 < required <= available && (required - 1) * k < count < required * k
  {
    CeilParts(count, k);
    var grabbed := if required <= available then required else available;
    MulMono(1, grabbed, k);
    if count % k == 0 {
      MulMono(grabbed, required, k);
    } else if available < required {
      MulMono(grabbed, required - 1, k);
    }
  }

  lemma MultipleHasNoRest(q: nat, k: nat)
    requires k > 0
    ensures (q * k) % k == 0
  {
    var n := q * k;
    DivParts(n, k);
    assert (n / k) * k <= n < (n / k + 1) * k;
    LessByFactor(n / k - 1, q, k);
    LessByFactor(q, n / k + 1, k);
  }

  ghost predicate NoDup(xs: seq<Id>) {
    forall i, j :: 0 <= i < j < |xs| ==> xs[i] != xs[j]
  }

  class Pool {
    const perBig: nat
    var ring: seq<Id>                // freeBigPages
    var pa: set<Id>                  // paPages
    var free: map<Id, set<nat>>      // the free slots of each big page

    /** Ring pages are wholly free, bit pool pages have a free page, and no page is in both. */
    ghost predicate Valid()
      reads this
    {
      && perBig > 0 && NoDup(ring) && Members(ring) !! pa
      && (forall b :: b in ring ==> b in free && free[b] == Upto(perBig))
      && (forall b :: b in pa ==> b in free && free[b] != {})
    }

    ghost function Available(): set<Page>
      reads this
    {
      FreeIn(free, Members(ring) + pa)
    }

    /** The free pages, with those of a big page that is being handed back. */
    ghost function AvailableWith(remaining: Option<Id>): set<Page>
      reads this
    {
      FreeIn(free, Members(ring) + pa + if remaining.Some? then {remaining.value} else {})
    }

    /** A big page that is handed back is out of the ring and the bit pool, and has a free slot. */
    ghost predicate HandedBack(remaining: Option<Id>)
      reads this
    {
      remaining.Some? ==>
        remaining.value !in pa && remaining.value !in ring && remaining.value in free && free[remaining.value] != {}
    }

    lemma NothingHeld()
      ensures AvailableWith(None) == Available()
    {
      assert Members(ring) + pa + {} == Members(ring) + pa;
    }

    constructor (perBig: nat, ring: seq<Id>, pa: set<Id>, free: map<Id, set<nat>>)
      ensures this.perBig == perBig && this.ring == ring && this.pa == pa && this.free == free
    {
      this.perBig, this.ring, this.pa, this.free := perBig, ring, pa, free;
    }

    /** Give out the big page at the front of the ring. */
    method TakeOne() returns (ghost given: set<Page>)
      requires Valid() && ring != []
      modifies this`ring, this`free
      ensures Valid() && ring == old(ring)[1..] && free == old(free)[old(ring)[0] := {}]
      ensures Took(old(Available()), Available(), given, perBig)
    {
      var b := ring[0];
      given := PagesOf(b, free[b]);
      PagesOfSize(b, free[b]);
      UptoSize(perBig);
      GiveOut(free, Members(ring) + pa, b, free[b]);
      LeaveOut(free[b := {}], Members(ring) + pa, b);
      assert free[b] - free[b] == {};
      ring, free := ring[1..], free[b := {}];
      assert Members(ring) + pa == Members(old(ring)) + pa - {b};
    }

    /** bulkReadBestEffort: up to count whole big pages from the ring. */
    method TakeWhole(count: nat) returns (grabbed: nat, ghost given: set<Page>)
      requires Valid()
      modifies this`ring, this`free
      ensures Valid() && grabbed == (if count <= |old(ring)| then count else |old(ring)|) && ring == old(ring)[grabbed..]
      ensures forall b :: b in old(free) && b !in old(ring) ==> b in free && free[b] == old(free)[b]
      ensures Took(old(Available()), Available(), given, grabbed * perBig)
    {
      grabbed, given := 0, {};
      while grabbed < count && ring != []
        invariant Valid() && grabbed <= count && grabbed <= |old(ring)| && ring == old(ring)[grabbed..]
        invariant forall b :: b in old(free) && b !in old(ring) ==> b in free && free[b] == old(free)[b]
        invariant Took(old(Available()), Available(), given, grabbed * perBig)
        decreases |ring|
      {
        ghost var mid := Available();
        ghost var more := TakeOne();
        TookMore(old(Available()), mid, Available(), given, grabbed * perBig, more, perBig);
        assert (grabbed + 1) * perBig == grabbed * perBig + perBig;
        grabbed, given := grabbed + 1, given + more;
      }
    }

    /** Allocate from one big page of the bit pool; it is left over if it has free pages when the request is met. */
    method TakeFromPartial(count: nat) returns (taken: nat, remaining: Option<Id>, ghost given: set<Page>)
      requires Valid() && pa != {} && count > 0
      modifies this`pa, this`free
      ensures Valid() && |pa| == |old(pa)| - 1 && 0 < taken <= count && (taken < count ==> remaining.None?)
      ensures HandedBack(remaining)
      ensures Took(old(Available()), AvailableWith(remaining), given, taken)
    {
      var b :| b in pa;
      var slots := PickSlots(free[b], count);
      taken := |slots|;
      SubsetSize(slots, free[b]);
      given := GiveFrom(b, slots);
      remaining := HandBack(b);
    }

    /** Take a big page out of the bit pool; it is handed back unless it has no free page. */
    method HandBack(b: Id) returns (remaining: Option<Id>)
      requires b in pa && b in free && b !in ring
      modifies this`pa
      ensures pa == old(pa) - {b} && remaining == (if free[b] == {} then None else Some(b)) && HandedBack(remaining)
      ensures AvailableWith(remaining) == old(Available())
    {
      pa := pa - {b};
      remaining := if free[b] == {} then None else Some(b);
      if remaining.None? {
        LeaveOut(free, Members(ring) + old(pa), b);
        assert Members(ring) + pa == Members(ring) + old(pa) - {b};
        NothingHeld();
      } else {
        assert Members(ring) + pa + {b} == Members(ring) + old(pa);
      }
    }

    /** Give out slots of one big page of the bit pool. */
    method GiveFrom(b: Id, slots: set<nat>) returns (ghost given: set<Page>)
      requires b in pa && b in free && slots <= free[b]
      modifies this`free
      ensures free == old(free)[b := old(free)[b] - slots] && Took(old(Available()), Available(), given, |slots|)
    {
      given := PagesOf(b, slots);
      PagesOfSize(b, slots);
      GiveOut(free, Members(ring) + pa, b, slots);
      free := free[b := free[b] - slots];
    }

    /** allocateFromPAPages: go through the bit pool until the request is met or the pool is empty. */
    method AllocateFromPAPages(count: nat) returns (left: nat, remaining: Option<Id>, ghost given: set<Page>)
      requires Valid()
      modifies this`pa, this`free
      ensures Valid() && left <= count && (left > 0 ==> pa == {} && remaining.None?)
      ensures HandedBack(remaining)
      ensures Took(old(Available()), AvailableWith(remaining), given, count - left)
    {
      left, remaining, given := count, None, {};
      NothingHeld();
      while left > 0 && pa != {}
        invariant Valid() && left <= count && (left > 0 ==> remaining.None?)
        invariant HandedBack(remaining)
        invariant Took(old(Available()), AvailableWith(remaining), given, count - left)
        decreases |pa|
      {
        NothingHeld();
        ghost var mid := Available();
        var taken;
        ghost var more;
        taken, remaining, more := TakeFromPartial(left);
        TookMore(old(Available()), mid, AvailableWith(remaining), given, count - left, more, taken);
        left, given := left - taken, given + more;
      }
    }

    /** Part of a big page that has been read from the ring. */
    method TakeFromHeld(b: Id, count: nat) returns (ghost given: set<Page>)
      requires Valid() && b in free && free[b] == Upto(perBig) && b !in ring && b !in pa && 0 < count < perBig
      modifies this`free
      ensures Valid() && b in free && free[b] != {} && Took(old(AvailableWith(Some(b))), AvailableWith(Some(b)), given, count)
    {
      UptoSize(perBig);
      var slots := PickSlots(free[b], count);
      given := PagesOf(b, slots);
      PagesOfSize(b, slots);
      GiveOut(free, Members(ring) + pa + {b}, b, slots);
      free := free[b := free[b] - slots];
    }

    /** The last big page of a request that is not a whole number of big pages: the one read first is kept partly free. */
    method TakeLastPart(required: nat, count: nat) returns (remaining: Option<Id>, ghost given: set<Page>)
      requires Valid() && 0 < required <= |ring| && (required - 1) * perBig < count < required * perBig
      modifies this`ring, this`free
      ensures Valid() && |ring| < |old(ring)| && remaining.Some? && HandedBack(remaining)
      ensures Took(old(Available()), AvailableWith(remaining), given, count)
    {
      var b := ring[0];
      ring := ring[1..];
      assert Members(old(ring)) == Members(ring) + {b} && b !in ring;
      assert Members(old(ring)) + pa == Members(ring) + pa + {b};
      FreeInSplit(free, Members(ring) + pa, b);
      var grabbed;
      ghost var whole, part;
      grabbed, whole := TakeWhole(required - 1);
      FreeInSplit(free, Members(ring) + pa, b);
      assert required * perBig == (required - 1) * perBig + perBig;
      assert FreeIn(free, Members(ring) + pa + {b}) == old(Available()) - whole;
      ghost var mid := AvailableWith(Some(b));
      part := TakeFromHeld(b, count - grabbed * perBig);
      TookMore(old(Available()), mid, AvailableWith(Some(b)), whole, grabbed * perBig, part, count - grabbed * perBig);
      given, remaining := whole + part, Some(b);
    }

    /** One read of the ring: whole big pages, or all that the request still needs with the last one in part. */
    method ReadRing(count: nat) returns (left: nat, remaining: Option<Id>, ghost given: set<Page>)
      requires Valid() && count > 0 && ring != []
      modifies this`ring, this`free
      ensures Valid() && left < count && |ring| < |old(ring)| && (left > 0 ==> remaining.None?)
      ensures HandedBack(remaining)
      ensures Took(old(Available()), AvailableWith(remaining), given, count - left)
    {
      var requiredPages := (count + perBig - 1) / perBig;
      ReadSizes(count, perBig, requiredPages, |ring|);
      if count % perBig == 0 || |ring| < requiredPages {
        var grabbed;
        grabbed, given := TakeWhole(requiredPages);
        NothingHeld();
        left, remaining := count - grabbed * perBig, None;
      } else {
        remaining, given := TakeLastPart(requiredPages, count);
        left := 0;
      }
    }

    /** What is left of the request from the ring, as whole big pages and at most one in part. */
    method AllocateFromRing(count: nat) returns (left: nat, remaining: Option<Id>, ghost given: set<Page>)
      requires Valid()
      modifies this`ring, this`free
      ensures Valid() && left <= count && (left > 0 ==> ring == [] && remaining.None?)
      ensures HandedBack(remaining)
      ensures Took(old(Available()), AvailableWith(remaining), given, count - left)
    {
      left, remaining, given := count, None, {};
      NothingHeld();
      while left > 0 && ring != []
        invariant Valid() && left <= count && (left > 0 ==> remaining.None?)
        invariant HandedBack(remaining)
        invariant Took(old(Available()), AvailableWith(remaining), given, count - left)
        decreases |ring|
      {
        NothingHeld();
        ghost var mid := Available();
        ghost var before, more := left, {};
        left, remaining, more := ReadRing(left);
        TookMore(old(Available()), mid, AvailableWith(remaining), given, count - before, more, before - left);
        given := given + more;
      }
    }

    /** The rest of a request after the bit pool has been gone through once: the ring, then the bit pool again. */
    method AllocateRest(count: nat) returns (left: nat, remaining: Option<Id>, ghost given: set<Page>)
      requires Valid()
      modifies this
      ensures Valid() && left <= count && (left > 0 ==> ring == [] && pa == {} && remaining.None?)
      ensures HandedBack(remaining)
      ensures Took(old(Available()), AvailableWith(remaining), given, count - left)
    {
      left, remaining, given := AllocateFromRing(count);
      if left > 0 {
        NothingHeld();
        ghost var mid, more, before := Available(), {}, left;
        left, remaining, more := AllocateFromPAPages(left);
        TookMore(old(Available()), mid, AvailableWith(remaining), given, count - before, more, before - left);
        given := given + more;
      }
    }

    /**
     Allocate small pages: exactly as many as requested, or all that are free in the ring and the bit
     pool if those are fewer. A big page left over with free pages is handed back to the caller.
     */
    method AllocatePages(smallPageCount: nat) returns (total: nat, remaining: Option<Id>, ghost given: set<Page>)
      requires Valid()
      modifies this
      ensures Valid() && total == if smallPageCount <= |old(Available())| then smallPageCount else |old(Available())|
      ensures Took(old(Available()), AvailableWith(remaining), given, total)
      ensures HandedBack(remaining)
    {
      DivParts(smallPageCount, perBig);
      var grabbed;
      grabbed, given := TakeWhole(smallPageCount / perBig);
      MulMono(grabbed, smallPageCount / perBig, perBig);
      var count := smallPageCount - grabbed * perBig;
      ghost var mid, more := Available(), {};
      count, remaining, more := AllocateFromPAPages(count);
      TookMore(old(Available()), mid, AvailableWith(remaining), given, grabbed * perBig, more, smallPageCount - grabbed * perBig - count);
      given := given + more;
      if count > 0 {
        NothingHeld();
        ghost var before := count;
        mid := Available();
        count, remaining, more := AllocateRest(count);
        TookMore(old(Available()), mid, AvailableWith(remaining), given, smallPageCount - before, more, before - count);
        given := given + more;
      }
      total := smallPageCount - count;
      SubsetSize(given, old(Available()));
      if count > 0 {
        NothingHeld();
        assert Available() == {};
      }
    }
  }
}
