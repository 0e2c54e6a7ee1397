/**
 partitionMemoryByDomain for one usable memory range: the range is split at the page-rounded bounds of
 the NUMA memory regions, and runs of intervals of one domain are given to that domain. Regions and the
 usable range are in bytes, a page is 1 << w bytes; split points and runs are page numbers, the source's
 addresses being their multiples.
 */
module NumaPartition {

  import opened Wrappers
  import opened Arith

  /** A memory region of a domain; regions are listed domain by domain, as allMemoryRegions visits them. */
  datatype Region = Region(domain: nat, start: nat, end: nat)

  /** Pages for one domain, or for none. */
  datatype Run = Run(start: nat, end: nat, domain: Option<nat>)

  /** domainForAddress: the first region that holds the address. */
  function DomainFor(regions: seq<Region>, addr: nat): Option<nat> {
    if regions == [] then None
    else if regions[0].start <= addr < regions[0].end then Some(regions[0].domain)
    else DomainFor(regions[1..], addr)
  }

  // ----- split points -----

  ghost predicate Ordered(xs: seq<nat>) {
    forall i, j :: 0 <= i < j < |xs| ==> xs[i] <= xs[j]
  }

  /** A region's rounded bounds are split points when they lie inside the range. */
  ghost predicate SplitAt(splits: seq<nat>, lo: nat, hi: nat, page: nat) {
    lo < page < hi ==> page in splits
  }

  ghost predicate RegionSplit(splits: seq<nat>, lo: nat, hi: nat, r: Region, w: nat) {
    SplitAt(splits, lo, hi, CeilShr(r.start, w)) && SplitAt(splits, lo, hi, Shr(r.end, w))
  }

  /** The rounded bounds of the regions, where the source splits a range. */
  ghost predicate IsBound(regions: seq<Region>, w: nat, page: nat) {
    exists k :: 0 <= k < |regions| && (page == CeilShr(regions[k].start, w) || page == Shr(regions[k].end, w))
  }

  ghost predicate Bounded(splits: seq<nat>, lo: nat, hi: nat) {
    lo in splits && hi in splits && forall x :: x in splits ==> lo <= x <= hi
  }

  method CollectSplits(regions: seq<Region>, w: nat, lo: nat, hi: nat) returns (splits: seq<nat>)
    requires lo < hi
    ensures Bounded(splits, lo, hi)
    ensures forall k {:trigger regions[k]} :: 0 <= k < |regions| ==> RegionSplit(splits, lo, hi, regions[k], w)
    ensures forall x :: x in splits ==> x == lo || x == hi || IsBound(regions, w, x)
  {
    splits := [lo, hi];
    var i := 0;
    while i < |regions|
      invariant 0 <= i <= |regions| && Bounded(splits, lo, hi)
      invariant forall k {:trigger regions[k]} :: 0 <= k < i ==> RegionSplit(splits, lo, hi, regions[k], w)
      invariant forall x :: x in splits ==> x == lo || x == hi || IsBound(regions, w, x)
    {
      ghost var before := splits;
      var rStart, rEnd := CeilShr(regions[i].start, w), Shr(regions[i].end, w);
      if lo < rStart < hi {
        splits := splits + [rStart];
      }
      if lo < rEnd < hi {
        splits := splits + [rEnd];
      }
      assert forall x :: x in before ==> x in splits;
      i := i + 1;
    }
  }

  function InsertAt(xs: seq<nat>, j: nat, key: nat): seq<nat>
    requires j <= |xs|
  {
    xs[..j] + [key] + xs[j..]
  }

  lemma InsertOrdered(xs: seq<nat>, j: nat, key: nat)
    requires Ordered(xs) && j <= |xs| && (j > 0 ==> xs[j - 1] <= key) && (j < |xs| ==> key <= xs[j])
    ensures Ordered(InsertAt(xs, j, key))
  {
    var ys := InsertAt(xs, j, key);
    assert forall p :: 0 <= p < |ys| ==> ys[p] == if p < j then xs[p] else if p == j then key else xs[p - 1];
    assert forall p :: 0 <= p < j ==> xs[p] <= key;
    assert forall p :: j <= p < |xs| ==> key <= xs[p];
  }

  lemma InsertMultiset(xs: seq<nat>, j: nat, key: nat, rest: seq<nat>)
    requires j <= |xs|
    ensures multiset(InsertAt(xs, j, key) + rest) == multiset(xs + [key] + rest)
  {
    assert xs == xs[..j] + xs[j..];
  }

  /** Move the elements above key up by one, from the one before s down; says where key goes. */
  method MakeRoom(a: array<nat>, s: nat, key: nat, ghost front: seq<nat>, ghost rest: seq<nat>) returns (j: nat)
    requires s < a.Length && front == a[..s] && rest == a[s + 1..]
    modifies a
    ensures j <= s && a[..j] == front[..j] && a[j + 1..s + 1] == front[j..] && a[s + 1..] == rest
    ensures (j > 0 ==> front[j - 1] <= key) && (j < s ==> key <= front[j])
  {
    j := s;
    while j > 0 && a[j - 1] > key
      invariant 0 <= j <= s && a[..j] == front[..j] && a[j + 1..s + 1] == front[j..] && a[s + 1..] == rest
      invariant j < s ==> key <= front[j]
    {
      a[j] := a[j - 1];
      j := j - 1;
    }
  }

  lemma SplitArray(a: array<nat>, s: nat)
    requires s < a.Length
    ensures a[..] == a[..s] + [a[s]] + a[s + 1..] && a[..] == a[..s + 1] + a[s + 1..]
  {
  }

  /** One pass of the insertion sort: the element at s goes down to its place among those before it. */
  method InsertOne(a: array<nat>, s: nat)
    requires s < a.Length && Ordered(a[..s])
    modifies a
    ensures Ordered(a[..s + 1]) && multiset(a[..]) == multiset(old(a[..]))
  {
    var key := a[s];
    ghost var front, rest := a[..s], a[s + 1..];
    SplitArray(a, s);
    var j := MakeRoom(a, s, key, front, rest);
    WriteKey(a, s, j, key, front, rest);
    SplitArray(a, s);
    InsertOrdered(front, j, key);
    InsertMultiset(front, j, key, rest);
  }

  method WriteKey(a: array<nat>, s: nat, j: nat, key: nat, ghost front: seq<nat>, ghost rest: seq<nat>)
    requires j <= s < a.Length && |front| == s
    requires a[..j] == front[..j] && a[j + 1..s + 1] == front[j..] && a[s + 1..] == rest
    modifies a
    ensures a[..s + 1] == InsertAt(front, j, key) && a[s + 1..] == rest
  {
    a[j] := key;
    assert a[..s + 1] == a[..j] + [key] + a[j + 1..s + 1];
  }

  method SortSplits(a: array<nat>)
    requires a.Length > 0
    modifies a
    ensures Ordered(a[..]) && multiset(a[..]) == multiset(old(a[..]))
  {
    var s := 1;
    while s < a.Length
      invariant 1 <= s <= a.Length && Ordered(a[..s]) && multiset(a[..]) == multiset(old(a[..]))
    {
      InsertOne(a, s);
      s := s + 1;
    }
    assert a[..s] == a[..];
  }

  // ----- runs -----

  /** The runs follow one another without gap or overlap. */
  ghost predicate Tiles(runs: seq<Run>, lo: nat, hi: nat) {
    if runs == [] then lo == hi
    else runs[0].start == lo && runs[0].start < runs[0].end && Tiles(runs[1..], runs[0].end, hi)
  }

  lemma {:induction false} TilesAppend(runs: seq<Run>, lo: nat, mid: nat, r: Run)
    requires Tiles(runs, lo, mid) && r.start == mid && r.start < r.end
    ensures Tiles(runs + [r], lo, r.end)
  {
    if runs == [] {
      assert runs + [r] == [r];
      assert Tiles([], r.end, r.end);
    } else {
      TilesAppend(runs[1..], runs[0].end, mid, r);
      assert (runs + [r])[1..] == runs[1..] + [r];
    }
  }

  /** Two consecutive split points that differ. */
  ghost predicate Interval(splits: seq<nat>, i: int) {
    0 <= i && i + 1 < |splits| && splits[i] < splits[i + 1]
  }

  /** The intervals from one page up to another have this domain at their start. */
  ghost predicate DomainFrom(regions: seq<Region>, w: nat, splits: seq<nat>, from: nat, upto: nat, domain: Option<nat>) {
    forall i {:trigger Interval(splits, i)} :: Interval(splits, i) && from <= splits[i] < upto ==>
      domain == DomainFor(regions, Shl(splits[i], w))
  }

  ghost predicate RunOk(regions: seq<Region>, w: nat, splits: seq<nat>, r: Run) {
    r.start in splits && r.end in splits && DomainFrom(regions, w, splits, r.start, r.end, r.domain)
  }

  /** The next interval joins the run if its domain is the run's, and starts a run otherwise. */
  lemma NextInterval(regions: seq<Region>, w: nat, splits: seq<nat>, from: nat, s: nat, domain: Option<nat>)
    requires Ordered(splits) && Interval(splits, s) && DomainFrom(regions, w, splits, from, splits[s], domain) && from <= splits[s]
    ensures DomainFor(regions, Shl(splits[s], w)) == domain ==> DomainFrom(regions, w, splits, from, splits[s + 1], domain)
    ensures DomainFrom(regions, w, splits, splits[s], splits[s + 1], DomainFor(regions, Shl(splits[s], w)))
  {
    forall i | Interval(splits, i) && splits[s] <= splits[i] < splits[s + 1] ensures i == s {
    }
  }

  lemma Ends(splits: seq<nat>, lo: nat, hi: nat)
    requires Ordered(splits) && Bounded(splits, lo, hi)
    ensures |splits| > 0 && splits[0] == lo && splits[|splits| - 1] == hi
  {
    var i :| 0 <= i < |splits| && splits[i] == lo;
    var j :| 0 <= j < |splits| && splits[j] == hi;
    assert splits[0] in splits && splits[|splits| - 1] in splits;
  }

  /** Walk the intervals and close a run whenever the domain changes. */
  method WalkIntervals(regions: seq<Region>, w: nat, splits: seq<nat>, lo: nat, hi: nat) returns (runs: seq<Run>)
    requires Ordered(splits) && Bounded(splits, lo, hi) && lo < hi
    ensures Tiles(runs, lo, hi) && forall k {:trigger runs[k]} :: 0 <= k < |runs| ==> RunOk(regions, w, splits, runs[k])
  {
    runs := [];
    var runDomain: Option<nat>, runStart := None, lo;
    var s := 0;
    Ends(splits, lo, hi);
    while s + 1 < |splits|
      invariant 0 <= s < |splits| && lo <= runStart <= splits[s] && runStart in splits
      invariant runStart == splits[s] ==> runStart == lo
      invariant Tiles(runs, lo, runStart) && forall k {:trigger runs[k]} :: 0 <= k < |runs| ==> RunOk(regions, w, splits, runs[k])
      invariant DomainFrom(regions, w, splits, runStart, splits[s], runDomain)
    {
      if splits[s] != splits[s + 1] {
        var intervalDomain := DomainFor(regions, Shl(splits[s], w));
        NextInterval(regions, w, splits, runStart, s, runDomain);
        if intervalDomain != runDomain {
          if splits[s] > lo {
            runs := FlushRun(runs, Run(runStart, splits[s], runDomain), lo);
          }
          runDomain, runStart := intervalDomain, splits[s];
        }
      }
      s := s + 1;
    }
    runs := FlushRun(runs, Run(runStart, hi, runDomain), lo);
  }

  /** Runs shorter than a page would be dropped; between split points there are none. */
  method FlushRun(runs: seq<Run>, r: Run, ghost lo: nat) returns (runs': seq<Run>)
    requires Tiles(runs, lo, r.start) && r.start < r.end
    ensures Tiles(runs', lo, r.end) && runs' == runs + [r]
  {
    runs' := runs;
    if r.end - r.start >= 1 {
      runs' := runs + [r];
      TilesAppend(runs, lo, r.start, r);
    }
  }

  // ----- every page in its domain -----

  ghost predicate SplitAlong(regions: seq<Region>, w: nat, splits: seq<nat>, lo: nat, hi: nat) {
    forall k {:trigger regions[k]} :: 0 <= k < |regions| ==> RegionSplit(splits, lo, hi, regions[k], w)
  }

  /** The split points are the ends of the range and the rounded bounds inside it, in order. */
  ghost predicate SplitsOk(regions: seq<Region>, w: nat, splits: seq<nat>, lo: nat, hi: nat) {
    && Ordered(splits) && Bounded(splits, lo, hi) && SplitAlong(regions, w, splits, lo, hi)
    && forall x :: x in splits ==> x == lo || x == hi || IsBound(regions, w, x)
  }

  ghost predicate EndsAligned(regions: seq<Region>, w: nat) {
    forall k :: 0 <= k < |regions| ==> Low(regions[k].end, w) == 0
  }

  /** Two neighbouring pages are in the same domain. */
  ghost predicate SameDomain(regions: seq<Region>, w: nat, page: nat)
    requires page > 0
  {
    DomainFor(regions, Shl(page - 1, w)) == DomainFor(regions, Shl(page, w))
  }

  /**
   Where a region's end, rounded up, is a page inside the range at which the source does not split, the pages
   on both sides of it are in one domain.
   */
  ghost predicate EndsHarmless(regions: seq<Region>, w: nat, lo: nat, hi: nat) {
    forall k :: 0 <= k < |regions| ==>
      var e := CeilShr(regions[k].end, w);
      lo < e < hi && !IsBound(regions, w, e) ==> SameDomain(regions, w, e)
  }

  /** A page's first byte is at or after an address exactly when the page is not before the address rounded up. */
  lemma PageAfter(addr: nat, w: nat, p: nat)
    ensures addr <= Shl(p, w) <==> CeilShr(addr, w) <= p
  {
    CeilCovers(addr, w);
    if CeilShr(addr, w) <= p {
      ShlMono(CeilShr(addr, w), p, w);
    }
    if addr <= Shl(p, w) {
      CeilBelow(addr, p, w);
    }
  }

  /** From one page to the next the domain changes only where a bound, rounded up, is. */
  lemma {:induction false} DomainChangesAtBounds(regions: seq<Region>, w: nat, p: nat)
    requires p > 0
    requires forall k :: 0 <= k < |regions| ==> CeilShr(regions[k].start, w) != p && CeilShr(regions[k].end, w) != p
    ensures SameDomain(regions, w, p)
    decreases |regions|
  {
    if regions != [] {
      var r := regions[0];
      PageAfter(r.start, w, p - 1);
      PageAfter(r.start, w, p);
      PageAfter(r.end, w, p - 1);
      PageAfter(r.end, w, p);
      assert forall k :: 0 <= k < |regions[1..]| ==> regions[1..][k] == regions[k + 1];
      DomainChangesAtBounds(regions[1..], w, p);
    }
  }

  /** A page strictly between two consecutive split points is no split point. */
  lemma NoSplitInside(splits: seq<nat>, i: nat, p: nat)
    requires Ordered(splits) && Interval(splits, i) && splits[i] < p < splits[i + 1]
    ensures p !in splits
  {
    forall j | 0 <= j < |splits| ensures splits[j] != p {
      assert j <= i || i + 1 <= j;
    }
  }

  lemma InsideSameDomain(regions: seq<Region>, w: nat, splits: seq<nat>, lo: nat, hi: nat, p: nat)
    requires SplitsOk(regions, w, splits, lo, hi) && EndsHarmless(regions, w, lo, hi) && lo < p < hi && p !in splits
    ensures SameDomain(regions, w, p)
  {
    forall k | 0 <= k < |regions| ensures CeilShr(regions[k].start, w) != p && Shr(regions[k].end, w) != p {
      assert RegionSplit(splits, lo, hi, regions[k], w);
    }
    assert !IsBound(regions, w, p);
    if k :| 0 <= k < |regions| && CeilShr(regions[k].end, w) == p {
    } else {
      DomainChangesAtBounds(regions, w, p);
    }
  }

  /** Then every page of an interval is in the domain of its first page. */
  lemma {:induction false} IntervalHasOneDomain(regions: seq<Region>, w: nat, splits: seq<nat>, lo: nat, hi: nat, i: nat, p: nat)
    requires SplitsOk(regions, w, splits, lo, hi) && EndsHarmless(regions, w, lo, hi)
    requires Interval(splits, i) && splits[i] <= p < splits[i + 1]
    ensures DomainFor(regions, Shl(p, w)) == DomainFor(regions, Shl(splits[i], w))
    decreases p
  {
    if splits[i] < p {
      assert splits[i] in splits && splits[i + 1] in splits;
      IntervalHasOneDomain(regions, w, splits, lo, hi, i, p - 1);
      NoSplitInside(splits, i, p);
      InsideSameDomain(regions, w, splits, lo, hi, p);
    }
  }

  /** The interval that a page of the range lies in. */
  lemma IntervalOf(splits: seq<nat>, lo: nat, hi: nat, p: nat) returns (i: nat)
    requires Ordered(splits) && Bounded(splits, lo, hi) && lo <= p < hi
    ensures Interval(splits, i) && splits[i] <= p < splits[i + 1]
  {
    Ends(splits, lo, hi);
    i := 0;
    while splits[i + 1] <= p
      invariant i + 1 < |splits| && splits[i] <= p
      decreases |splits| - i
    {
      i := i + 1;
    }
  }

  /** A split point not above a page is not above the start of the page's interval. */
  lemma SplitBefore(splits: seq<nat>, i: nat, x: nat, p: nat)
    requires Ordered(splits) && Interval(splits, i) && splits[i] <= p < splits[i + 1] && x in splits && x <= p
    ensures x <= splits[i]
  {
    var j :| 0 <= j < |splits| && splits[j] == x;
    assert j <= i || i + 1 <= j;
  }

  /** When the region ends are harmless, every page of a run has the run's domain. */
  lemma RunPagesInDomain(regions: seq<Region>, w: nat, splits: seq<nat>, lo: nat, hi: nat, r: Run, p: nat)
    requires SplitsOk(regions, w, splits, lo, hi) && EndsHarmless(regions, w, lo, hi)
    requires RunOk(regions, w, splits, r) && r.start <= p < r.end
    ensures DomainFor(regions, Shl(p, w)) == r.domain
  {
    assert lo <= r.start && r.end <= hi;
    var i := IntervalOf(splits, lo, hi, p);
    SplitBefore(splits, i, r.start, p);
    IntervalHasOneDomain(regions, w, splits, lo, hi, i, p);
  }

  /** And only then: runs begin at split points, so the pages on both sides of a harmful end are in one run. */
  lemma HarmfulEndMisassigns(regions: seq<Region>, w: nat, splits: seq<nat>, lo: nat, hi: nat, runs: seq<Run>, e: nat)
    requires SplitsOk(regions, w, splits, lo, hi) && Tiles(runs, lo, hi)
    requires forall k {:trigger runs[k]} :: 0 <= k < |runs| ==> RunOk(regions, w, splits, runs[k])
    requires lo < e < hi && !IsBound(regions, w, e) && !SameDomain(regions, w, e)
    ensures exists k :: 0 <= k < |runs| && !AllInDomain(regions, w, runs[k])
  {
    var k := OneRun(runs, lo, hi, e);
    assert RunOk(regions, w, splits, runs[k]) && e !in splits;
    assert runs[k].start <= e - 1 < e < runs[k].end;
  }

  /** Page-aligned region ends are split points, so they are harmless. */
  lemma AlignedEndsHarmless(regions: seq<Region>, w: nat, lo: nat, hi: nat)
    requires EndsAligned(regions, w)
    ensures EndsHarmless(regions, w, lo, hi)
  {
    forall k | 0 <= k < |regions| ensures IsBound(regions, w, CeilShr(regions[k].end, w)) {
      assert CeilShr(regions[k].end, w) == Shr(regions[k].end, w);
    }
  }

  /** With page-aligned region starts as well, so has every byte of it. */
  lemma {:induction false} BytesInDomain(regions: seq<Region>, w: nat, x: nat)
    requires EndsAligned(regions, w) && forall k :: 0 <= k < |regions| ==> Low(regions[k].start, w) == 0
    ensures DomainFor(regions, x) == DomainFor(regions, Shl(Shr(x, w), w))
    decreases |regions|
  {
    if regions != [] {
      BoundAtPage(regions[0].start, w, x);
      BoundAtPage(regions[0].end, w, x);
      BytesInDomain(regions[1..], w, x);
    }
  }

  lemma BoundAtPage(bound: nat, w: nat, x: nat)
    requires Low(bound, w) == 0
    ensures bound <= x <==> bound <= Shl(Shr(x, w), w)
  {
    ShrLow(bound, w);
    ShrLow(x, w);
    if bound <= x {
      ShrAtLeast(x, Shr(bound, w), w);
      ShlMono(Shr(bound, w), Shr(x, w), w);
    }
  }

  /** Every page of a tiled stretch lies in exactly one run. */
  lemma {:induction false} OneRun(runs: seq<Run>, lo: nat, hi: nat, p: nat) returns (k: nat)
    requires Tiles(runs, lo, hi) && lo <= p < hi
    ensures k < |runs| && runs[k].start <= p < runs[k].end
    ensures forall l :: 0 <= l < |runs| && runs[l].start <= p < runs[l].end ==> l == k
    decreases |runs|
  {
    var rest := runs[1..];
    if p < runs[0].end {
      k := 0;
      forall l | 0 < l < |runs| ensures p < runs[l].start {
        RunsWithin(rest, runs[0].end, hi, l - 1);
      }
    } else {
      var j := OneRun(rest, runs[0].end, hi, p);
      assert forall l :: 0 < l < |runs| ==> runs[l] == rest[l - 1];
      k := j + 1;
    }
  }

  lemma {:induction false} RunsWithin(runs: seq<Run>, lo: nat, hi: nat, l: nat)
    requires Tiles(runs, lo, hi) && l < |runs|
    ensures lo <= runs[l].start < runs[l].end <= hi
    decreases |runs|
  {
    TilesUp(runs[1..], runs[0].end, hi);
    if l > 0 {
      RunsWithin(runs[1..], runs[0].end, hi, l - 1);
    }
  }

  lemma {:induction false} TilesUp(runs: seq<Run>, lo: nat, hi: nat)
    requires Tiles(runs, lo, hi)
    ensures lo <= hi
    decreases |runs|
  {
    if runs != [] {
      TilesUp(runs[1..], runs[0].end, hi);
    }
  }

  /**
   One usable range: its whole pages, as runs of one domain each. Every page of every run is in the run's
   domain if and only if the region ends are harmless.
   */
  method PartitionUsable(regions: seq<Region>, w: nat, start: nat, end: nat) returns (runs: seq<Run>)
    ensures var lo, hi := CeilShr(start, w), Shr(end, w);
      if hi <= lo then runs == []
      else Tiles(runs, lo, hi)
    ensures (forall k {:trigger runs[k]} :: 0 <= k < |runs| ==> AllInDomain(regions, w, runs[k]))
       <==> EndsHarmless(regions, w, CeilShr(start, w), Shr(end, w))
  {
    var lo, hi := CeilShr(start, w), Shr(end, w);
    if hi <= lo {
      return [];
    }
    var collected := CollectSplits(regions, w, lo, hi);
    var a := new nat[|collected|](i requires 0 <= i < |collected| => collected[i]);
    assert a[..] == collected;
    SortSplits(a);
    var splits := a[..];
    SameMembers(collected, splits);
    runs := WalkIntervals(regions, w, splits, lo, hi);
    RightExactly(regions, w, splits, lo, hi, runs);
  }

  lemma RightExactly(regions: seq<Region>, w: nat, splits: seq<nat>, lo: nat, hi: nat, runs: seq<Run>)
    requires SplitsOk(regions, w, splits, lo, hi) && Tiles(runs, lo, hi)
    requires forall k {:trigger runs[k]} :: 0 <= k < |runs| ==> RunOk(regions, w, splits, runs[k])
    ensures (forall k {:trigger runs[k]} :: 0 <= k < |runs| ==> AllInDomain(regions, w, runs[k]))
       <==> EndsHarmless(regions, w, lo, hi)
  {
    if EndsHarmless(regions, w, lo, hi) {
      forall k | 0 <= k < |runs| ensures AllInDomain(regions, w, runs[k]) {
        forall p | runs[k].start <= p < runs[k].end ensures DomainFor(regions, Shl(p, w)) == runs[k].domain {
          RunPagesInDomain(regions, w, splits, lo, hi, runs[k], p);
        }
      }
    } else {
      var k :| 0 <= k < |regions| && var e := CeilShr(regions[k].end, w);
        lo < e < hi && !IsBound(regions, w, e) && !SameDomain(regions, w, e);
      HarmfulEndMisassigns(regions, w, splits, lo, hi, runs, CeilShr(regions[k].end, w));
    }
  }

  ghost predicate AllInDomain(regions: seq<Region>, w: nat, r: Run) {
    forall p :: r.start <= p < r.end ==> DomainFor(regions, Shl(p, w)) == r.domain
  }

  /** What goes wrong, whatever the page size: four pages, and one region of a page and a half. */
  method UnalignedEndMisassigns(w: nat) returns (runs: seq<Run>)
    requires w >= 1
    ensures Tiles(runs, 0, 4)
    ensures exists k, p :: 0 <= k < |runs| && runs[k].start <= p < runs[k].end
                        && runs[k].domain != DomainFor([Region(0, 0, Shl(3, w - 1))], Shl(p, w))
  {
    ghost var regions := [Region(0, 0, Shl(3, w - 1))];
    HalfPageHarmful(w);
    runs := PartitionUsable([Region(0, 0, Shl(3, w - 1))], w, 0, Shl(4, w));
    assert exists k :: 0 <= k < |runs| && !AllInDomain(regions, w, runs[k]);
  }

  lemma HalfPageHarmful(w: nat)
    requires w >= 1
    ensures !EndsHarmless([Region(0, 0, Shl(3, w - 1))], w, CeilShr(0, w), Shr(Shl(4, w), w))
    ensures CeilShr(0, w) == 0 && Shr(Shl(4, w), w) == 4
  {
    var end := Shl(3, w - 1);
    var regions := [Region(0, 0, end)];
    ZeroParts(w);
    ShlJoin(4, 0, w);
    PageAndHalf(w, end);
    OneRegion(0, end, Shl(1, w));
    OneRegion(0, end, Shl(2, w));
    assert regions[0].end == end && !IsBound(regions, w, 2) && !SameDomain(regions, w, 2);
  }

  lemma OneRegion(domain: nat, end: nat, addr: nat)
    ensures DomainFor([Region(domain, 0, end)], addr) == if addr < end then Some(domain) else None
  {
    assert [Region(domain, 0, end)][1..] == [];
  }

  /** A page and a half, in whole pages: one rounded down, two rounded up. */
  lemma PageAndHalf(w: nat, end: nat)
    requires w >= 1 && end == Shl(3, w - 1)
    ensures Shl(1, w) < end < Shl(2, w) && Shr(end, w) == 1 && CeilShr(end, w) == 2
  {
    ShlShl(1, 1, w - 1);
    ShlShl(2, 1, w - 1);
    ShlAdd(2, 1, w - 1);
    ShlAdd(3, 1, w - 1);
    ShrAtLeast(end, 1, w);
    ShrBelow(end, 2, w);
    CeilBelow(end, 2, w);
    CeilCovers(end, w);
  }

  lemma SameMembers(a: seq<nat>, b: seq<nat>)
    requires multiset(a) == multiset(b)
    ensures forall x :: x in a <==> x in b
  {
    assert forall x :: x in a <==> x in multiset(a);
    assert forall x :: x in b <==> x in multiset(b);
  }
}
