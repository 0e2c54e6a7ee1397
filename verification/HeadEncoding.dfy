/**
 The head word of a shared slab stack in vmsmalloc: a page offset into the VMSubstrate window in the
 low bits and a push counter in the rest of the word. The widths are parameters; offset zero stands
 for the empty stack.
 */
module HeadEncoding {

  import opened Wrappers
  import opened Arith

  /** The window's base address, the page shift, the width of the page offset and of the counter. */
  datatype Encoding = Encoding(base: nat, pageShift: nat, offsetBits: nat, counterBits: nat)

  function Pack(e: Encoding, p: Option<nat>, tag: nat): nat
    requires p.Some? ==> p.value >= e.base
  {
    match p
    case None => Shl(Low(tag, e.counterBits), e.offsetBits)
    case Some(a) => Shl(Low(tag, e.counterBits), e.offsetBits) + Low(Shr(a - e.base, e.pageShift), e.offsetBits)
  }

  function UnpackPointer(e: Encoding, s: nat): Option<nat> {
    var off := Low(s, e.offsetBits);
    if off == 0 then None else Some(e.base + Shl(off, e.pageShift))
  }

  function UnpackTag(e: Encoding, s: nat): nat {
    Low(Shr(s, e.offsetBits), e.counterBits)
  }

  function AdvanceTag(e: Encoding, tag: nat): nat {
    Low(tag + 1, e.counterBits)
  }

  /** A page inside the window. */
  ghost predicate InWindow(e: Encoding, a: nat) {
    a >= e.base && Low(a - e.base, e.pageShift) == 0 && Shr(a - e.base, e.pageShift) < Shl(1, e.offsetBits)
  }

  lemma {:induction false} LowOfSmall(x: nat, n: nat)
    requires x < Shl(1, n)
    ensures Low(x, n) == x
  {
    if n > 0 {
      LowOfSmall(x / 2, n - 1);
    }
  }

  lemma LowLow(x: nat, n: nat)
    ensures Low(Low(x, n), n) == Low(x, n)
  {
    ShrLow(x, n);
    LowOfSmall(Low(x, n), n);
  }

  /** The two halves of a packed head. */
  lemma PackedHalves(e: Encoding, p: Option<nat>, tag: nat)
    requires p.Some? ==> InWindow(e, p.value)
    ensures Shr(Pack(e, p, tag), e.offsetBits) == Low(tag, e.counterBits)
    ensures Low(Pack(e, p, tag), e.offsetBits) == if p.None? then 0 else Shr(p.value - e.base, e.pageShift)
  {
    var off := if p.None? then 0 else Shr(p.value - e.base, e.pageShift);
    LowOfSmall(off, e.offsetBits);
    ShlJoin(Low(tag, e.counterBits), off, e.offsetBits);
  }

  /** The empty pointer and every page of the window survive packing, except the first page of the window. */
  lemma PointerRoundTrip(e: Encoding, p: Option<nat>, tag: nat)
    requires p.Some? ==> InWindow(e, p.value)
    ensures UnpackPointer(e, Pack(e, p, tag)) == p <==> p != Some(e.base)
  {
    PackedHalves(e, p, tag);
    if p.Some? {
      ShrLow(p.value - e.base, e.pageShift);
      if Shr(p.value - e.base, e.pageShift) == 0 {
        ZeroParts(e.pageShift);
      } else {
        assert Shl(Shr(p.value - e.base, e.pageShift), e.pageShift) > 0;
      }
    }
  }

  /** A zero word is the empty stack. */
  lemma ZeroIsEmpty(e: Encoding)
    ensures UnpackPointer(e, 0) == None
  {
    ZeroParts(e.offsetBits);
  }

  lemma TagRoundTrip(e: Encoding, p: Option<nat>, tag: nat)
    requires p.Some? ==> InWindow(e, p.value)
    ensures UnpackTag(e, Pack(e, p, tag)) == Low(tag, e.counterBits)
  {
    PackedHalves(e, p, tag);
    LowLow(tag, e.counterBits);
  }

  // ----- the counter as a guard against a stale head -----

  /** The tag after n more pushes. */
  function Advanced(e: Encoding, tag: nat, n: nat): nat {
    if n == 0 then tag else AdvanceTag(e, Advanced(e, tag, n - 1))
  }

  lemma {:induction false} LowAdd(x: nat, y: nat, n: nat)
    ensures Low(Low(x, n) + y, n) == Low(x + y, n)
  {
    if n > 0 {
      LowAdd(x / 2, (x % 2 + y) / 2, n - 1);
      assert (Low(x, n) + y) / 2 == Low(x / 2, n - 1) + (x % 2 + y) / 2;
    }
  }

  lemma {:induction false} AdvancedIsSum(e: Encoding, tag: nat, n: nat)
    ensures Low(Advanced(e, tag, n), e.counterBits) == Low(tag + n, e.counterBits)
  {
    if n > 0 {
      AdvancedIsSum(e, tag, n - 1);
      LowAdd(Advanced(e, tag, n - 1), 1, e.counterBits);
      LowAdd(tag + n - 1, 1, e.counterBits);
      LowLow(Advanced(e, tag, n - 1) + 1, e.counterBits);
    }
  }

  lemma {:induction false} SameLow(x: nat, y: nat, n: nat)
    ensures Low(x + y, n) == Low(x, n) <==> Low(y, n) == 0
    decreases n
  {
    if n > 0 {
      var x', y' := x / 2, y / 2;
      if y % 2 == 0 {
        SameLow(x', y', n - 1);
        assert (x + y) / 2 == x' + y';
      }
    }
  }

  /**
   A head is mistaken for an earlier one by a compare-and-swap only when it names the same page and
   the number of pushes in between is a multiple of the counter's range.
   */
  lemma HeadsRepeatOnlyOnWrap(e: Encoding, p: Option<nat>, q: Option<nat>, tag: nat, pushes: nat)
    requires (p.Some? ==> InWindow(e, p.value) && p.value != e.base) && (q.Some? ==> InWindow(e, q.value) && q.value != e.base)
    ensures Pack(e, p, tag) == Pack(e, q, Advanced(e, tag, pushes)) <==> p == q && Low(pushes, e.counterBits) == 0
  {
    var later := Advanced(e, tag, pushes);
    AdvancedIsSum(e, tag, pushes);
    SameLow(tag, pushes, e.counterBits);
    PointerRoundTrip(e, p, tag);
    PointerRoundTrip(e, q, later);
    PackedHalves(e, p, tag);
    PackedHalves(e, q, later);
  }
}
