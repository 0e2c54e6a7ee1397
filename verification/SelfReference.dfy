/**
 The self-reference trick of a VMSubstrate arena. Slot 0 of the arena's root table points at the
 root itself, so that the page-table entries of the arena are themselves readable and writable as
 arena addresses, found by dividing the address by the entry count. The number of levels is a
 parameter and so is the entry count, a power of two 1 << w; an entry has 8 bytes and a table fills
 a page.
 */
module SelfReference {

  import opened Wrappers
  import opened Arith

  type Frame = nat

  /** A byte of a physical page. */
  datatype Place = Place(frame: Frame, byte: nat)

  /** Page tables by physical frame; an absent entry is None. */
  type Memory = map<Frame, seq<Option<Frame>>>

  // ----- repeated division -----

  /** x divided by the entry count k times. */
  function Div(x: nat, w: nat, k: nat): nat
    decreases k
  {
    if k == 0 then x else Div(Shr(x, w), w, k - 1)
  }

  /** The table index that a page number holds for the level k above the leaf. */
  function Digit(page: nat, w: nat, k: nat): (d: nat)
    ensures d < Shl(1, w)
  {
    ShrLow(Div(page, w, k), w);
    Low(Div(page, w, k), w)
  }

  lemma {:induction false} DivDiv(x: nat, w: nat, j: nat, k: nat)
    ensures Div(Div(x, w, j), w, k) == Div(x, w, j + k)
    decreases j
  {
    if j > 0 {
      DivDiv(Shr(x, w), w, j - 1, k);
    }
  }

  lemma {:induction false} DivZero(x: nat, w: nat, k: nat, m: nat)
    requires k <= m && Div(x, w, k) == 0
    ensures Div(x, w, m) == 0
    decreases m - k
  {
    if k < m {
      DivDiv(x, w, k, 1);
      ZeroParts(w);
      DivZero(x, w, k + 1, m);
    }
  }

  /** Dividing by the entry count and by a power of two can be done in either order. */
  lemma {:induction false} DivShr(x: nat, w: nat, k: nat, n: nat)
    ensures Shr(Div(x, w, k), n) == Div(Shr(x, n), w, k)
    decreases k
  {
    if k > 0 {
      ShrShr(x, w, n);
      ShrShr(x, n, w);
      DivShr(Shr(x, w), w, k - 1, n);
    }
  }

  lemma {:induction false} LowSplit(x: nat, a: nat, b: nat)
    ensures Low(x, a + b) == Shl(Low(Shr(x, a), b), a) + Low(x, a)
  {
    if a > 0 {
      LowSplit(x / 2, a - 1, b);
    }
  }

  // ----- the hardware walk -----

  /** Descend from a table, following the page number's digits hi-1 down to lo. */
  function Walk(mem: Memory, w: nat, table: Frame, page: nat, hi: nat, lo: nat): Option<Frame>
    requires lo <= hi
    decreases hi
  {
    if hi == lo then Some(table)
    else if table !in mem || |mem[table]| != Shl(1, w) then None
    else
      match mem[table][Digit(page, w, hi - 1)]
      case None => None
      case Some(next) => Walk(mem, w, next, page, hi - 1, lo)
  }

  /** The frame and byte that an arena offset translates to. */
  function Translate(mem: Memory, w: nat, root: Frame, levels: nat, offset: nat): Option<Place> {
    match Walk(mem, w, root, Shr(offset, w + 3), levels, 0)
    case None => None
    case Some(frame) => Some(Place(frame, Low(offset, w + 3)))
  }

  ghost predicate SelfRef(mem: Memory, w: nat, root: Frame) {
    root in mem && |mem[root]| == Shl(1, w) && mem[root][0] == Some(root)
  }

  lemma {:induction false} WalkCompose(mem: Memory, w: nat, table: Frame, page: nat, hi: nat, mid: nat, lo: nat)
    requires lo <= mid <= hi
    ensures Walk(mem, w, table, page, hi, lo) ==
            match Walk(mem, w, table, page, hi, mid)
            case None => None
            case Some(t) => Walk(mem, w, t, page, mid, lo)
    decreases hi
  {
    if hi > mid && table in mem && |mem[table]| == Shl(1, w) {
      match mem[table][Digit(page, w, hi - 1)]
      case None =>
      case Some(next) => WalkCompose(mem, w, next, page, hi - 1, mid, lo);
    }
  }

  /** Leading zero digits stay at the root. */
  lemma {:induction false} ZerosStayAtRoot(mem: Memory, w: nat, root: Frame, page: nat, hi: nat, lo: nat)
    requires SelfRef(mem, w, root) && lo <= hi && Div(page, w, lo) == 0
    ensures Walk(mem, w, root, page, hi, lo) == Some(root)
    decreases hi
  {
    if hi > lo {
      DivZero(page, w, lo, hi - 1);
      ZeroParts(w);
      ZerosStayAtRoot(mem, w, root, page, hi - 1, lo);
    }
  }

  /** Dropping low digits shifts the walk down. */
  lemma {:induction false} WalkShift(mem: Memory, w: nat, table: Frame, page: nat, m: nat, j: nat)
    ensures Walk(mem, w, table, Div(page, w, j), m, 0) == Walk(mem, w, table, page, m + j, j)
    decreases m
  {
    if m > 0 && table in mem && |mem[table]| == Shl(1, w) {
      DivDiv(page, w, j, m - 1);
      match mem[table][Digit(page, w, m + j - 1)]
      case None =>
      case Some(next) => WalkShift(mem, w, next, page, m - 1, j);
    }
  }

  /** Walking to a page number without its j low digits ends at the table j levels short of the page's own walk. */
  lemma ShiftedPageIsTable(mem: Memory, w: nat, root: Frame, levels: nat, page: nat, j: nat)
    requires SelfRef(mem, w, root) && j <= levels && Div(page, w, levels) == 0
    ensures Walk(mem, w, root, Div(page, w, j), levels, 0) == Walk(mem, w, root, page, levels, j)
  {
    var q := Div(page, w, j);
    DivDiv(page, w, j, levels - j);
    ZerosStayAtRoot(mem, w, root, q, levels, levels - j);
    WalkCompose(mem, w, root, q, levels, levels - j, 0);
    WalkShift(mem, w, root, page, levels - j, j);
  }

  // ----- the addresses -----

  /** x & ~7 */
  function Mask8(x: nat): nat { Shl(Shr(x, 3), 3) }

  /** leafPTEAddrFor, as an offset from the arena base. */
  function LeafEntryOffset(offset: nat, w: nat): nat { Shr(offset, w) }

  /** parentEntryAddrOf. */
  function ParentEntryOffset(entry: nat, w: nat): nat { Mask8(Shr(entry, w)) }

  /** The entry for an address d levels above the leaf level, as ensureSubtableInstalled computes it. */
  function EntryOffset(offset: nat, w: nat, d: nat): nat { Mask8(Div(offset, w, d + 1)) }

  /** The table that holds that entry: the entry's address rounded down to a page. */
  function TableOffset(offset: nat, w: nat, d: nat): nat { Shl(Shr(Div(offset, w, d + 1), w + 3), w + 3) }

  /** Every address computed by division is eight times a shifted page number. */
  lemma EntryIsShiftedPage(offset: nat, w: nat, d: nat)
    ensures Shr(Div(offset, w, d + 1), 3) == Div(Shr(offset, w + 3), w, d)
  {
    DivShr(offset, w, d + 1, 3);
    ShrShr(offset, 3, w);
  }

  /** Eight times q lies at slot q's low digit of the page that is the rest of q. */
  lemma EntrySplit(q: nat, w: nat)
    ensures Shr(Shl(q, 3), w + 3) == Shr(q, w) && Low(Shl(q, 3), w + 3) == 8 * Low(q, w)
  {
    var x := Shl(q, 3);
    ShlJoin(q, 0, 3);
    ShrShr(x, 3, w);
    LowSplit(x, 3, w);
    EightTimes(Low(q, w));
  }

  lemma EightTimes(x: nat)
    ensures Shl(x, 3) == 8 * x
  {
    assert Shl(x, 3) == 2 * Shl(x, 2) && Shl(x, 2) == 2 * Shl(x, 1);
  }

  /**
   The division formula agrees with the level-by-level walk: the computed address translates to the
   slot of the table d levels above the leaf that the walk to the address reads, and translates at
   all exactly when the tables down to that one are installed.
   */
  lemma EntryOffsetIsEntry(mem: Memory, w: nat, root: Frame, levels: nat, offset: nat, d: nat)
    requires SelfRef(mem, w, root) && d < levels && Div(Shr(offset, w + 3), w, levels) == 0
    ensures Translate(mem, w, root, levels, EntryOffset(offset, w, d)) ==
            match Walk(mem, w, root, Shr(offset, w + 3), levels, d + 1)
            case None => None
            case Some(table) => Some(Place(table, 8 * Digit(Shr(offset, w + 3), w, d)))
  {
    var page := Shr(offset, w + 3);
    EntryIsShiftedPage(offset, w, d);
    EntrySplit(Div(page, w, d), w);
    DivDiv(page, w, d, 1);
    ShiftedPageIsTable(mem, w, root, levels, page, d + 1);
  }

  /** The rounded address translates to the start of the same table. */
  lemma TableOffsetIsTable(mem: Memory, w: nat, root: Frame, levels: nat, offset: nat, d: nat)
    requires SelfRef(mem, w, root) && d < levels && Div(Shr(offset, w + 3), w, levels) == 0
    ensures Translate(mem, w, root, levels, TableOffset(offset, w, d)) ==
            match Walk(mem, w, root, Shr(offset, w + 3), levels, d + 1)
            case None => None
            case Some(table) => Some(Place(table, 0))
  {
    var page, entry := Shr(offset, w + 3), Div(offset, w, d + 1);
    EntryIsShiftedPage(offset, w, d);
    ShrShr(entry, 3, w);
    DivDiv(page, w, d, 1);
    ShlJoin(Shr(entry, w + 3), 0, w + 3);
    ShiftedPageIsTable(mem, w, root, levels, page, d + 1);
  }

  /** Applying parentEntryAddrOf to an entry's address gives the entry one level up. */
  lemma ParentOfEntry(offset: nat, w: nat, d: nat)
    ensures ParentEntryOffset(EntryOffset(offset, w, d), w) == EntryOffset(offset, w, d + 1)
  {
    var x := Div(offset, w, d + 1);
    DivDiv(offset, w, d + 1, 1);
    ShrShr(x, w, 3);
    ShrShr(x, 3, w);
    ShlJoin(Shr(x, 3), 0, 3);
    ShrShr(Mask8(x), w, 3);
    ShrShr(Mask8(x), 3, w);
  }

  /**
   leafPTEAddrFor does not clear the low bits. It names the leaf entry of every page-aligned
   address, and in general of exactly those in the first eighth of their page.
   */
  lemma LeafEntryIsExact(offset: nat, w: nat)
    ensures LeafEntryOffset(offset, w) == EntryOffset(offset, w, 0) <==> Low(offset, w + 3) < Shl(1, w)
    ensures Low(offset, w + 3) == 0 ==> LeafEntryOffset(offset, w) == EntryOffset(offset, w, 0)
  {
    var x := Shr(offset, w);
    assert Div(offset, w, 1) == Div(x, w, 0) == x;
    ShrLow(x, 3);
    LowSplit(offset, w, 3);
    ShrLow(offset, w);
    ZeroParts(w);
    if Low(x, 3) > 0 {
      ShlMono(1, Low(x, 3), w);
    }
  }

  // ----- installing tables through the self-reference -----

  function EmptyTable(w: nat): seq<Option<Frame>> {
    seq(Shl(1, w), _ => None)
  }

  /** Every table keeps the entries it has. */
  ghost predicate Extends(mem: Memory, mem': Memory) {
    forall t :: t in mem ==> t in mem' && KeepsEntries(mem[t], mem'[t])
  }

  ghost predicate KeepsEntries(table: seq<Option<Frame>>, table': seq<Option<Frame>>) {
    |table'| == |table| && forall i :: 0 <= i < |table| && table[i].Some? ==> table'[i] == table[i]
  }

  /** What could be walked before can be walked still. */
  lemma {:induction false} WalkSurvives(mem: Memory, mem': Memory, w: nat, table: Frame, page: nat, hi: nat, lo: nat)
    requires Extends(mem, mem') && lo <= hi && Walk(mem, w, table, page, hi, lo).Some?
    ensures Walk(mem', w, table, page, hi, lo) == Walk(mem, w, table, page, hi, lo)
    decreases hi
  {
    if hi > lo {
      assert KeepsEntries(mem[table], mem'[table]);
      WalkSurvives(mem, mem', w, mem[table][Digit(page, w, hi - 1)].value, page, hi - 1, lo);
    }
  }

  /** The memory after a new, empty table f has been entered in a slot. */
  ghost function Install(mem: Memory, w: nat, table: Frame, slot: nat, f: Frame): Memory
    requires table in mem && slot < |mem[table]|
  {
    mem[table := mem[table][slot := Some(f)]][f := EmptyTable(w)]
  }

  /** The walk's last step reads this slot of this table. */
  predicate EndsThrough(mem: Memory, w: nat, from: Frame, page: nat, hi: nat, lo: nat, t: Frame, slot: nat) {
    lo < hi && Walk(mem, w, from, page, hi, lo + 1) == Some(t) && Digit(page, w, lo) == slot
  }

  /** The walks whose last step reads the new entry now end in the new table; every other walk is as before. */
  lemma {:induction false} WalkAfterInstall(mem: Memory, w: nat, t: Frame, slot: nat, f: Frame,
                                            from: Frame, page: nat, hi: nat, lo: nat)
    requires t in mem && slot < |mem[t]| == Shl(1, w) && mem[t][slot].None? && f !in mem && lo <= hi
    ensures Walk(Install(mem, w, t, slot, f), w, from, page, hi, lo) ==
            if EndsThrough(mem, w, from, page, hi, lo, t, slot) then Some(f) else Walk(mem, w, from, page, hi, lo)
    decreases hi
  {
    if hi > lo {
      if from in mem && |mem[from]| == Shl(1, w) {
        var d := Digit(page, w, hi - 1);
        if from == t && d == slot {
          NoWalkFrom(Install(mem, w, t, slot, f), w, f, page, hi - 1, lo);
        } else if mem[from][d].Some? {
          WalkAfterInstall(mem, w, t, slot, f, mem[from][d].value, page, hi - 1, lo);
        }
      } else if from == f {
        NoWalkFrom(Install(mem, w, t, slot, f), w, f, page, hi, lo);
      }
    }
  }

  /** An empty table leads nowhere. */
  lemma NoWalkFrom(mem: Memory, w: nat, f: Frame, page: nat, hi: nat, lo: nat)
    requires f in mem && mem[f] == EmptyTable(w) && lo <= hi
    ensures Walk(mem, w, f, page, hi, lo) == if hi == lo then Some(f) else None
  {
    assert hi > lo ==> mem[f][Digit(page, w, hi - 1)].None?;
  }

  /** One level more of the walk. */
  lemma WalkStep(mem: Memory, w: nat, root: Frame, page: nat, levels: nat, d: nat)
    requires d < levels && Walk(mem, w, root, page, levels, d + 1).Some?
    ensures var t := Walk(mem, w, root, page, levels, d + 1).value;
      t in mem && |mem[t]| == Shl(1, w) ==> Walk(mem, w, root, page, levels, d) == mem[t][Digit(page, w, d)]
  {
    WalkCompose(mem, w, root, page, levels, d + 1, d);
  }

  lemma ExtendsItself(mem: Memory)
    ensures Extends(mem, mem)
  {
    forall t | t in mem ensures KeepsEntries(mem[t], mem[t]) {
    }
  }

  ghost predicate AllTables(mem: Memory, w: nat) {
    forall t :: t in mem ==> |mem[t]| == Shl(1, w)
  }

  ghost predicate TablesReached(mem: Memory, w: nat, root: Frame, levels: nat) {
    forall page, j :: 1 <= j <= levels && Walk(mem, w, root, page, levels, j).Some? ==>
      Walk(mem, w, root, page, levels, j).value in mem
  }

  ghost predicate Unused(frames: seq<Frame>, mem: Memory) {
    (forall i :: 0 <= i < |frames| ==> frames[i] !in mem)
    && forall i, j :: 0 <= i < j < |frames| ==> frames[i] != frames[j]
  }

  lemma ExtendsThrough(a: Memory, b: Memory, c: Memory)
    requires Extends(a, b) && Extends(b, c)
    ensures Extends(a, c)
  {
    forall t | t in a ensures t in c && KeepsEntries(a[t], c[t]) {
      assert KeepsEntries(a[t], b[t]) && KeepsEntries(b[t], c[t]);
    }
  }

  lemma {:induction false} OnlyRoot(mem: Memory, w: nat, root: Frame, page: nat, hi: nat, lo: nat)
    requires lo <= hi && mem == map[root := EmptyTable(w)[0 := Some(root)]]
    ensures Walk(mem, w, root, page, hi, lo) in {None, Some(root)}
    decreases hi
  {
    if hi > lo && Digit(page, w, hi - 1) == 0 {
      OnlyRoot(mem, w, root, page, hi - 1, lo);
    }
  }

  /** Entering a new empty table keeps the arena's shape and every entry there was. */
  lemma InstallKeepsTables(mem: Memory, w: nat, root: Frame, levels: nat, t: Frame, slot: nat, f: Frame)
    requires SelfRef(mem, w, root) && AllTables(mem, w) && TablesReached(mem, w, root, levels)
    requires t in mem && slot < |mem[t]| && mem[t][slot].None? && f !in mem
    ensures var mem' := Install(mem, w, t, slot, f);
      SelfRef(mem', w, root) && AllTables(mem', w) && TablesReached(mem', w, root, levels) && Extends(mem, mem')
  {
    var mem': Memory := Install(mem, w, t, slot, f);
    forall page, j | 1 <= j <= levels && Walk(mem', w, root, page, levels, j).Some?
      ensures Walk(mem', w, root, page, levels, j).value in mem'
    {
      WalkAfterInstall(mem, w, t, slot, f, root, page, levels, j);
    }
    forall k | k in mem ensures k in mem' && KeepsEntries(mem[k], mem'[k]) {
    }
  }

  class PageTables {
    const w: nat
    const levels: nat
    const root: Frame
    var mem: Memory

    /** The root refers to itself, and what a walk reaches above the leaf entries is a table. */
    ghost predicate Valid()
      reads this
    {
      SelfRef(mem, w, root) && AllTables(mem, w) && TablesReached(mem, w, root, levels)
    }

    constructor (w: nat, levels: nat, root: Frame)
      ensures Valid() && this.w == w && this.levels == levels && this.root == root
      ensures forall page :: Walk(mem, w, root, page, levels, levels) == Some(root)
    {
      this.w, this.levels, this.root := w, levels, root;
      mem := map[root := EmptyTable(w)[0 := Some(root)]];
      new;
      forall page: nat, j: nat | j <= levels ensures Walk(mem, w, root, page, levels, j) in {None, Some(root)} {
        OnlyRoot(mem, w, root, page, levels, j);
      }
    }

    /** Enter a new table in an empty slot and clear it, both through the self-reference. */
    method InstallSubtable(offset: nat, d: nat, entry: Place, f: Frame)
      requires Valid() && 1 <= d < levels && Div(Shr(offset, w + 3), w, levels) == 0 && f !in mem
      requires Walk(mem, w, root, Shr(offset, w + 3), levels, d + 1) == Some(entry.frame)
      requires entry.byte == 8 * Digit(Shr(offset, w + 3), w, d) && mem[entry.frame][entry.byte / 8].None?
      modifies this
      ensures mem == Install(old(mem), w, entry.frame, entry.byte / 8, f)
    {
      ghost var page := Shr(offset, w + 3);
      mem := mem[entry.frame := mem[entry.frame][entry.byte / 8 := Some(f)]];
      WalkSurvives(old(mem), mem, w, root, page, levels, d + 1);
      WalkStep(mem, w, root, page, levels, d);
      TableOffsetIsTable(mem, w, root, levels, offset, d - 1);
      var child := Translate(mem, w, root, levels, TableOffset(offset, w, d - 1)).value;
      mem := mem[child.frame := EmptyTable(w)];
    }

    /** One level: the entry d levels above the leaf. */
    method EnsureEntry(offset: nat, d: nat, f: Frame) returns (used: bool)
      requires Valid() && 1 <= d < levels && Div(Shr(offset, w + 3), w, levels) == 0 && f !in mem
      requires Walk(mem, w, root, Shr(offset, w + 3), levels, d + 1).Some?
      modifies this
      ensures Valid() && Extends(old(mem), mem)
      ensures Walk(mem, w, root, Shr(offset, w + 3), levels, d).Some?
      ensures forall t :: t in mem <==> t in old(mem) || (used && t == f)
    {
      ghost var page := Shr(offset, w + 3);
      EntryOffsetIsEntry(mem, w, root, levels, offset, d);
      var entry := Translate(mem, w, root, levels, EntryOffset(offset, w, d)).value;
      WalkStep(mem, w, root, page, levels, d);
      used := mem[entry.frame][entry.byte / 8].None?;
      if used {
        InstallKeepsTables(mem, w, root, levels, entry.frame, entry.byte / 8, f);
        InstallSubtable(offset, d, entry, f);
        WalkSurvives(old(mem), mem, w, root, page, levels, d + 1);
        WalkStep(mem, w, root, page, levels, d);
      } else {
        ExtendsItself(mem);
      }
    }

    /**
     Make sure that the tables for an address are installed, from the entry d levels above the leaf
     down to the leaf table, with new frames taken from the front of a list.
     */
    method EnsureSubtableInstalled(offset: nat, d: nat, frames: seq<Frame>) returns (taken: nat)
      requires Valid() && 1 <= d < levels && Div(Shr(offset, w + 3), w, levels) == 0
      requires Walk(mem, w, root, Shr(offset, w + 3), levels, d + 1).Some?
      requires |frames| >= d && Unused(frames, mem)
      modifies this
      ensures Valid() && Extends(old(mem), mem)
      ensures Walk(mem, w, root, Shr(offset, w + 3), levels, 1).Some?
      ensures taken <= d && forall t :: t in mem <==> t in old(mem) || t in frames[..taken]
      decreases d
    {
      var used := EnsureEntry(offset, d, frames[0]);
      taken := if used then 1 else 0;
      if d > 1 {
        ghost var mid := mem;
        var more := EnsureSubtableInstalled(offset, d - 1, frames[taken..]);
        ExtendsThrough(old(mem), mid, mem);
        assert frames[..taken + more] == frames[..taken] + frames[taken..][..more];
        taken := taken + more;
      }
    }
  }
}
