/**
 How a NUMA pool is laid out over the memory ranges of a domain: the ranges, sorted by start, are
 merged into stretches of whole big pages, and the small pages of those stretches that belong to no
 range are reserved. A range is given in small pages, a merged range in big pages; a big page is
 1 << w small pages.
 */
module MergedRanges {

  import opened Arith

  datatype Range = Range(start: nat, end: nat)

  datatype Merged = Merged(start: nat, end: nat, firstIdx: nat, lastIdx: nat)

  ghost predicate NonEmpty(rs: seq<Range>) {
    forall i :: 0 <= i < |rs| ==> rs[i].start < rs[i].end
  }

  ghost predicate Sorted(rs: seq<Range>) {
    forall i, j :: 0 <= i < j < |rs| ==> rs[i].start <= rs[j].start
  }

  /** The big page that a range starts in, and the one after the big page that it ends in. */
  function First(r: Range, w: nat): nat { Shr(r.start, w) }
  function Past(r: Range, w: nat): nat { CeilShr(r.end, w) }

  lemma ShrMono(x: nat, y: nat, w: nat)
    requires x <= y
    ensures Shr(x, w) <= Shr(y, w)
  {
    ShrLow(x, w);
    ShrAtLeast(y, Shr(x, w), w);
  }

  /** A non-empty range touches a big page. */
  lemma FirstBeforePast(r: Range, w: nat)
    requires r.start < r.end
    ensures First(r, w) < Past(r, w)
  {
    CeilCovers(r.end, w);
    ShrBelow(r.start, Past(r, w), w);
  }

  // ----- merging -----

  /** The big page b is touched by one of the ranges i0 to i1. */
  ghost predicate Touched(rs: seq<Range>, w: nat, i0: nat, i1: nat, b: nat) {
    exists i :: i0 <= i <= i1 < |rs| && First(rs[i], w) <= b < Past(rs[i], w)
  }

  ghost predicate Inside(rs: seq<Range>, w: nat, m: Merged, i: nat)
    requires i < |rs|
  {
    m.start <= First(rs[i], w) && Past(rs[i], w) <= m.end
  }

  /** A merged range holds its ranges, and none of its big pages is without a page of them. */
  ghost predicate MergeOk(rs: seq<Range>, w: nat, m: Merged) {
    && m.firstIdx <= m.lastIdx < |rs| && m.start < m.end
    && (forall i {:trigger Inside(rs, w, m, i)} :: m.firstIdx <= i <= m.lastIdx ==> Inside(rs, w, m, i))
    && (forall b {:trigger Touched(rs, w, m.firstIdx, m.lastIdx, b)} ::
          m.start <= b < m.end ==> Touched(rs, w, m.firstIdx, m.lastIdx, b))
  }

  /** One more range that starts inside the merged range, or not. */
  function Extend(rs: seq<Range>, w: nat, m: Merged, i: nat): Merged
    requires i < |rs|
  {
    m.(end := if Past(rs[i], w) > m.end then Past(rs[i], w) else m.end, lastIdx := i)
  }

  lemma ExtendOk(rs: seq<Range>, w: nat, m: Merged, i: nat)
    requires Sorted(rs) && NonEmpty(rs) && MergeOk(rs, w, m) && i == m.lastIdx + 1 < |rs| && First(rs[i], w) < m.end
    requires m.start == First(rs[m.firstIdx], w)
    ensures MergeOk(rs, w, Extend(rs, w, m, i))
  {
    var m' := Extend(rs, w, m, i);
    ShrMono(rs[m.firstIdx].start, rs[i].start, w);
    forall j | m'.firstIdx <= j <= m'.lastIdx ensures Inside(rs, w, m', j) {
      assert j < i ==> Inside(rs, w, m, j);
    }
    forall b | m'.start <= b < m'.end ensures Touched(rs, w, m'.firstIdx, m'.lastIdx, b) {
      if b < m.end {
        assert Touched(rs, w, m.firstIdx, m.lastIdx, b);
        var j :| m.firstIdx <= j <= m.lastIdx < |rs| && First(rs[j], w) <= b < Past(rs[j], w);
        assert m'.firstIdx <= j <= m'.lastIdx;
      } else {
        assert First(rs[i], w) <= b < Past(rs[i], w);
      }
    }
  }

  lemma StartOk(rs: seq<Range>, w: nat, i: nat)
    requires NonEmpty(rs) && i < |rs|
    ensures MergeOk(rs, w, Merged(First(rs[i], w), Past(rs[i], w), i, i))
  {
    var m := Merged(First(rs[i], w), Past(rs[i], w), i, i);
    FirstBeforePast(rs[i], w);
    assert Inside(rs, w, m, i);
    forall b | m.start <= b < m.end ensures Touched(rs, w, i, i, b) {
      assert First(rs[i], w) <= b < Past(rs[i], w);
    }
  }

  /** The merged ranges so far are right, disjoint, in order, and take up the ranges below upto. */
  ghost predicate GroupsOk(rs: seq<Range>, w: nat, out: seq<Merged>, upto: nat) {
    && (forall k {:trigger MergeOk(rs, w, out[k])} :: 0 <= k < |out| ==> MergeOk(rs, w, out[k]))
    && (forall k {:trigger Follows(out, k)} :: 0 <= k < |out| ==> Follows(out, k))
    && (if out == [] then upto == 0 else out[|out| - 1].lastIdx + 1 == upto)
  }

  ghost predicate Follows(out: seq<Merged>, k: nat)
    requires k < |out|
  {
    if k == 0 then out[k].firstIdx == 0
    else out[k].firstIdx == out[k - 1].lastIdx + 1 && out[k - 1].end <= out[k].start
  }

  lemma GroupsAppend(rs: seq<Range>, w: nat, out: seq<Merged>, m: Merged)
    requires GroupsOk(rs, w, out, m.firstIdx) && MergeOk(rs, w, m) && (out != [] ==> out[|out| - 1].end <= m.start)
    ensures GroupsOk(rs, w, out + [m], m.lastIdx + 1)
  {
    var out' := out + [m];
    forall k | 0 <= k < |out'| ensures MergeOk(rs, w, out'[k]) {
      assert k < |out| ==> MergeOk(rs, w, out[k]);
    }
    forall k | 0 <= k < |out'| ensures Follows(out', k) {
      assert k < |out| ==> Follows(out, k);
    }
  }

  /** Merge sorted ranges that start in a big page already covered. */
  method ComputeMergedRanges(sorted: seq<Range>, w: nat) returns (out: seq<Merged>)
    requires Sorted(sorted) && NonEmpty(sorted)
    ensures GroupsOk(sorted, w, out, |sorted|)
  {
    out := [];
    if sorted == [] {
      return;
    }
    var m := Merged(First(sorted[0], w), Past(sorted[0], w), 0, 0);
    StartOk(sorted, w, 0);
    var i := 1;
    while i < |sorted|
      invariant 1 <= i <= |sorted| && m.lastIdx == i - 1
      invariant MergeOk(sorted, w, m) && m.start == First(sorted[m.firstIdx], w)
      invariant GroupsOk(sorted, w, out, m.firstIdx) && (out != [] ==> out[|out| - 1].end <= m.start)
    {
      var nextBigPageStart := First(sorted[i], w);
      if nextBigPageStart < m.end {
        ExtendOk(sorted, w, m, i);
        m := Extend(sorted, w, m, i);
      } else {
        GroupsAppend(sorted, w, out, m);
        StartOk(sorted, w, i);
        out := out + [m];
        m := Merged(nextBigPageStart, Past(sorted[i], w), i, i);
      }
      i := i + 1;
    }
    GroupsAppend(sorted, w, out, m);
    out := out + [m];
  }

  // ----- reserving the gaps -----

  /** The page belongs to one of the ranges i0 to i1. */
  ghost predicate InSome(rs: seq<Range>, i0: nat, i1: nat, p: nat) {
    exists i :: i0 <= i <= i1 && i < |rs| && rs[i].start <= p < rs[i].end
  }

  /** reserveSmallPageRange: every page of a gap, each of them for the first time. */
  method ReserveSmallPageRange(reserved: set<nat>, from: nat, to: nat) returns (r: set<nat>)
    requires from <= to && forall p :: from <= p < to ==> p !in reserved
    ensures forall p :: p in r <==> p in reserved || from <= p < to
  {
    r := reserved;
    var p := from;
    while p < to
      invariant from <= p <= to
      invariant forall q :: q in r <==> q in reserved || from <= q < p
    {
      r := r + {p};
      p := p + 1;
    }
  }

  /** Nothing from prevEnd up to the end of the big page lies in the ranges below ri. */
  ghost predicate Swept(rs: seq<Range>, i0: nat, ri: nat, prevEnd: nat, bigEnd: nat) {
    forall j :: i0 <= j < ri && j < |rs| ==> rs[j].end <= prevEnd || prevEnd == bigEnd
  }

  /** The pages of the big page before prevEnd that are in no range are the reserved ones. */
  ghost predicate GapsReserved(rs: seq<Range>, m: Merged, bigStart: nat, prevEnd: nat, reserved: set<nat>) {
    forall p :: p in reserved <==> bigStart <= p < prevEnd && !InSome(rs, m.firstIdx, m.lastIdx, p)
  }

  lemma NothingBetween(rs: seq<Range>, m: Merged, ri: nat, prevEnd: nat, bigEnd: nat, to: nat)
    requires Sorted(rs) && m.firstIdx <= ri && m.lastIdx < |rs| && Swept(rs, m.firstIdx, ri, prevEnd, bigEnd)
    requires prevEnd < to <= bigEnd && (ri <= m.lastIdx ==> to <= rs[ri].start)
    ensures forall p :: prevEnd <= p < to ==> !InSome(rs, m.firstIdx, m.lastIdx, p)
  {
    forall p | prevEnd <= p < to ensures !InSome(rs, m.firstIdx, m.lastIdx, p) {
      forall i | m.firstIdx <= i <= m.lastIdx ensures !(rs[i].start <= p < rs[i].end) {
        if ri < i {
          assert rs[ri].start <= rs[i].start;
        }
      }
    }
  }

  /** A page from the start of the clamped range to its end is in some range. */
  lemma ClampedIn(rs: seq<Range>, m: Merged, ri: nat, from: nat, to: nat)
    requires m.firstIdx <= ri <= m.lastIdx < |rs| && rs[ri].start <= from && to <= rs[ri].end
    ensures forall p :: from <= p < to ==> InSome(rs, m.firstIdx, m.lastIdx, p)
  {
  }

  /** One sweep over the ranges of a merged range reserves exactly the pages of a big page that are in none of them. */
  method ReserveGaps(sorted: seq<Range>, m: Merged, bigStart: nat, bigEnd: nat) returns (reserved: set<nat>)
    requires Sorted(sorted) && NonEmpty(sorted) && m.firstIdx <= m.lastIdx < |sorted| && bigStart < bigEnd
    ensures GapsReserved(sorted, m, bigStart, bigEnd, reserved)
  {
    reserved := {};
    var prevEnd, ri := bigStart, m.firstIdx;
    while ri <= m.lastIdx
      invariant m.firstIdx <= ri <= m.lastIdx + 1 && bigStart <= prevEnd <= bigEnd
      invariant Swept(sorted, m.firstIdx, ri, prevEnd, bigEnd) && GapsReserved(sorted, m, bigStart, prevEnd, reserved)
    {
      var orig := sorted[ri];
      var origClampedStart := if orig.start > bigStart then orig.start else bigStart;
      var origClampedEnd := if orig.end < bigEnd then orig.end else bigEnd;
      if origClampedStart >= bigEnd {
        break;
      }
      if origClampedEnd > bigStart {
        if prevEnd < origClampedStart {
          NothingBetween(sorted, m, ri, prevEnd, bigEnd, origClampedStart);
          reserved := ReserveSmallPageRange(reserved, prevEnd, origClampedStart);
        }
        if origClampedEnd > prevEnd {
          ClampedIn(sorted, m, ri, if prevEnd < origClampedStart then origClampedStart else prevEnd, origClampedEnd);
          prevEnd := origClampedEnd;
        }
      }
      ri := ri + 1;
    }
    if prevEnd < bigEnd {
      NothingBetween(sorted, m, ri, prevEnd, bigEnd, bigEnd);
      reserved := ReserveSmallPageRange(reserved, prevEnd, bigEnd);
    }
  }

  // ----- the pool as a whole -----

  ghost predicate InAny(rs: seq<Range>, p: nat) {
    InSome(rs, 0, |rs|, p)
  }

  lemma {:induction false} MergedInOrder(rs: seq<Range>, w: nat, out: seq<Merged>, upto: nat, k: nat, l: nat)
    requires GroupsOk(rs, w, out, upto) && k < l < |out|
    ensures out[k].end <= out[l].start && out[k].lastIdx < out[l].firstIdx
    decreases l
  {
    assert Follows(out, l) && MergeOk(rs, w, out[l - 1]);
    if k < l - 1 {
      MergedInOrder(rs, w, out, upto, k, l - 1);
    }
  }

  /** Every range is in one of the groups. */
  lemma GroupOf(rs: seq<Range>, w: nat, out: seq<Merged>, upto: nat, i: nat) returns (k: nat)
    requires GroupsOk(rs, w, out, upto) && i < upto
    ensures k < |out| && out[k].firstIdx <= i <= out[k].lastIdx
  {
    k := |out| - 1;
    while out[k].firstIdx > i
      invariant 0 <= k < |out| && i <= out[k].lastIdx
      decreases k
    {
      assert Follows(out, k);
      k := k - 1;
    }
  }

  /** A page of a range lies in a big page that the range touches. */
  lemma PageTouches(r: Range, w: nat, p: nat)
    requires r.start <= p < r.end
    ensures First(r, w) <= Shr(p, w) < Past(r, w)
  {
    ShrMono(r.start, p, w);
    CeilCovers(r.end, w);
    ShrBelow(p, Past(r, w), w);
  }

  /** The page lies in a big page of merged range k. */
  predicate InMerged(out: seq<Merged>, w: nat, k: nat, p: nat)
    requires k < |out|
  {
    out[k].start <= Shr(p, w) < out[k].end
  }

  /** A page of a merged range that is in some range is in a range of that group. */
  lemma OwnGroup(rs: seq<Range>, w: nat, out: seq<Merged>, k: nat, i: nat, p: nat)
    requires GroupsOk(rs, w, out, |rs|) && k < |out| && InMerged(out, w, k, p) && i < |rs| && rs[i].start <= p < rs[i].end
    ensures out[k].firstIdx <= i <= out[k].lastIdx
  {
    var l := GroupOf(rs, w, out, |rs|, i);
    assert MergeOk(rs, w, out[l]) && Inside(rs, w, out[l], i);
    PageTouches(rs[i], w, p);
    if l < k {
      MergedInOrder(rs, w, out, |rs|, l, k);
    } else if k < l {
      MergedInOrder(rs, w, out, |rs|, k, l);
    }
  }

  /** Each input page lies in exactly one merged range. */
  lemma InputsAreMerged(rs: seq<Range>, w: nat, out: seq<Merged>, p: nat) returns (k: nat)
    requires GroupsOk(rs, w, out, |rs|) && InAny(rs, p)
    ensures k < |out| && InMerged(out, w, k, p)
    ensures forall l :: 0 <= l < |out| && InMerged(out, w, l, p) ==> l == k
  {
    var i :| 0 <= i <= |rs| && i < |rs| && rs[i].start <= p < rs[i].end;
    k := GroupOf(rs, w, out, |rs|, i);
    assert MergeOk(rs, w, out[k]) && Inside(rs, w, out[k], i);
    PageTouches(rs[i], w, p);
    forall l | 0 <= l < |out| && InMerged(out, w, l, p) ensures l == k {
      if l < k {
        MergedInOrder(rs, w, out, |rs|, l, k);
      } else if k < l {
        MergedInOrder(rs, w, out, |rs|, k, l);
      }
    }
  }

  /** Every big page of a merged range keeps at least one page that is not reserved. */
  lemma BigPageIsUsed(rs: seq<Range>, w: nat, m: Merged, b: nat) returns (p: nat)
    requires NonEmpty(rs) && MergeOk(rs, w, m) && m.start <= b < m.end
    ensures Shl(b, w) <= p < Shl(b + 1, w) && InSome(rs, m.firstIdx, m.lastIdx, p)
  {
    assert Touched(rs, w, m.firstIdx, m.lastIdx, b);
    var i :| m.firstIdx <= i <= m.lastIdx < |rs| && First(rs[i], w) <= b < Past(rs[i], w);
    var start, end := rs[i].start, rs[i].end;
    ShlAdd(b, 1, w);
    p := if start > Shl(b, w) then start else Shl(b, w);
    if start > Shl(b, w) {
      ShrBelow(start, b + 1, w);
    } else {
      PastReaches(end, b, w);
    }
  }

  lemma PastReaches(end: nat, b: nat, w: nat)
    requires b < CeilShr(end, w)
    ensures Shl(b, w) < end
  {
    if end <= Shl(b, w) {
      CeilBelow(end, b, w);
    }
  }

  /** The pages of a big page that lie in no input range. */
  ghost predicate GapsOf(rs: seq<Range>, w: nat, b: nat, reserved: set<nat>) {
    forall p :: p in reserved <==> Shl(b, w) <= p < Shl(b + 1, w) && !InAny(rs, p)
  }

  /** What is in no range of the group is in no range at all. */
  lemma GroupGapsAreGaps(rs: seq<Range>, w: nat, out: seq<Merged>, k: nat, b: nat, reserved: set<nat>)
    requires GroupsOk(rs, w, out, |rs|) && k < |out| && out[k].start <= b < out[k].end
    requires GapsReserved(rs, out[k], Shl(b, w), Shl(b + 1, w), reserved)
    ensures GapsOf(rs, w, b, reserved)
  {
    var m := out[k];
    assert MergeOk(rs, w, m);
    forall p | Shl(b, w) <= p < Shl(b + 1, w) ensures InSome(rs, m.firstIdx, m.lastIdx, p) <==> InAny(rs, p) {
      ShrAtLeast(p, b, w);
      ShrBelow(p, b + 1, w);
      if InAny(rs, p) {
        var i :| 0 <= i <= |rs| && i < |rs| && rs[i].start <= p < rs[i].end;
        OwnGroup(rs, w, out, k, i, p);
      }
    }
  }

  /**
   The reserved pages of every big page of the pool. Together with InputsAreMerged: a page of the pool's
   big pages is left unreserved exactly when it belongs to an input range.
   */
  method ReserveAll(sorted: seq<Range>, w: nat, out: seq<Merged>) returns (reserved: map<nat, set<nat>>)
    requires Sorted(sorted) && NonEmpty(sorted) && GroupsOk(sorted, w, out, |sorted|)
    ensures forall b :: b in reserved <==> exists k :: 0 <= k < |out| && out[k].start <= b < out[k].end
    ensures forall b {:trigger reserved[b]} :: b in reserved ==> GapsOf(sorted, w, b, reserved[b])
  {
    reserved := map[];
    var k := 0;
    while k < |out|
      invariant 0 <= k <= |out|
      invariant forall b :: b in reserved <==> exists l :: 0 <= l < k && out[l].start <= b < out[l].end
      invariant forall b {:trigger reserved[b]} :: b in reserved ==> GapsOf(sorted, w, b, reserved[b])
    {
      var m := out[k];
      assert MergeOk(sorted, w, m);
      var b := m.start;
      while b < m.end
        invariant m.start <= b <= m.end
        invariant forall c :: c in reserved <==> (exists l :: 0 <= l < k && out[l].start <= c < out[l].end) || m.start <= c < b
        invariant forall c {:trigger reserved[c]} :: c in reserved ==> GapsOf(sorted, w, c, reserved[c])
      {
        ShlAdd(b, 1, w);
        var gaps := ReserveGaps(sorted, m, Shl(b, w), Shl(b + 1, w));
        GroupGapsAreGaps(sorted, w, out, k, b, gaps);
        reserved := reserved[b := gaps];
        b := b + 1;
      }
      k := k + 1;
    }
  }

  /** A page is in the pool and not reserved exactly when it belongs to an input range. */
  lemma UnreservedAreInputs(rs: seq<Range>, w: nat, out: seq<Merged>, reserved: map<nat, set<nat>>, p: nat)
    requires GroupsOk(rs, w, out, |rs|)
    requires forall b :: b in reserved <==> exists k :: 0 <= k < |out| && out[k].start <= b < out[k].end
    requires forall b {:trigger reserved[b]} :: b in reserved ==> GapsOf(rs, w, b, reserved[b])
    ensures Shr(p, w) in reserved && p !in reserved[Shr(p, w)] <==> InAny(rs, p)
  {
    var b := Shr(p, w);
    ShrLow(p, w);
    ShlAdd(b, 1, w);
    if InAny(rs, p) {
      var k := InputsAreMerged(rs, w, out, p);
      assert out[k].start <= b < out[k].end;
    }
    assert b in reserved ==> GapsOf(rs, w, b, reserved[b]);
  }

  /** Sorting the ranges does not change which pages they hold. */
  lemma SortingKeepsPages(ranges: seq<Range>, sorted: seq<Range>, p: nat)
    requires multiset(ranges) == multiset(sorted)
    ensures InAny(ranges, p) <==> InAny(sorted, p)
  {
    if InAny(ranges, p) {
      SameElements(ranges, sorted, p);
    }
    if InAny(sorted, p) {
      SameElements(sorted, ranges, p);
    }
  }

  lemma SameElements(a: seq<Range>, b: seq<Range>, p: nat)
    requires multiset(a) == multiset(b) && InAny(a, p)
    ensures InAny(b, p)
  {
    var i :| 0 <= i <= |a| && i < |a| && a[i].start <= p < a[i].end;
    assert a[i] in multiset(b);
    var j :| 0 <= j < |b| && b[j] == a[i];
  }
}
