/**
 initializePageTable: the recursive construction of the page tables that map one physical range into
 a kernel zone. Any number of levels and any entry counts that are powers of two: level l has
 1 << widths[l] entries, level 0 is the zone's root and the last level maps small pages. Addresses
 count small pages.
 */
module BootstrapMapper {

  import opened Wrappers
  import opened Arith

  /** A table of the stack; every level below the root has a lower and an upper one. */
  datatype TableId = TableId(level: nat, upper: bool)

  datatype Entry = Absent | Leaf(page: nat) | Subtable(id: TableId)

  type Tables = map<TableId, seq<Entry>>

  function IdOf(level: nat, upper: bool): TableId {
    TableId(level, level > 0 && upper)
  }

  /** log2 of the pages that one entry of a level maps. */
  function EntryBits(widths: seq<nat>, level: nat): nat
    requires level < |widths|
    decreases |widths| - level
  {
    if level + 1 == |widths| then 0 else widths[level + 1] + EntryBits(widths, level + 1)
  }

  /** The pages that a whole table of a level maps. */
  function Span(widths: seq<nat>, level: nat): nat
    requires level < |widths|
  {
    Shl(1, widths[level] + EntryBits(widths, level))
  }

  function EntryCount(widths: seq<nat>, level: nat): nat
    requires level < |widths|
  {
    Shl(1, widths[level])
  }

  // ----- the hardware walk -----

  function Walk(widths: seq<nat>, tables: Tables, id: TableId, va: nat): Option<nat>
    requires id.level < |widths|
    decreases |widths| - id.level
  {
    var e := EntryBits(widths, id.level);
    if id !in tables || Shr(va, e) >= |tables[id]| then None
    else match tables[id][Shr(va, e)]
      case Absent => None
      case Leaf(page) => Some(page + Low(va, e))
      case Subtable(sub) =>
        if sub.level == id.level + 1 && sub.level < |widths| then Walk(widths, tables, sub, Low(va, e)) else None
  }

  /** The zone maps the pages [start, end), in order, from a given offset on, and nothing else. */
  function Expected(start: nat, end: nat, offset: nat, va: nat): Option<nat>
    requires start <= end
  {
    if offset <= va < offset + (end - start) then Some(start + (va - offset)) else None
  }

  ghost predicate MapsAt(widths: seq<nat>, tables: Tables, id: TableId, start: nat, end: nat, offset: nat, va: nat)
    requires id.level < |widths| && start <= end
  {
    Walk(widths, tables, id, va) == Expected(start, end, offset, va)
  }

  ghost predicate MapsExactly(widths: seq<nat>, tables: Tables, id: TableId, start: nat, end: nat, offset: nat)
    requires id.level < |widths| && start <= end
  {
    forall va {:trigger MapsAt(widths, tables, id, start, end, offset, va)} ::
      0 <= va < Span(widths, id.level) ==> MapsAt(widths, tables, id, start, end, offset, va)
  }

  /** The subtables that a table of a chain refers to stay within the chain. */
  ghost predicate RowInChain(row: seq<Entry>, l: nat, upper: bool) {
    forall i :: 0 <= i < |row| && row[i].Subtable? ==> row[i].id == IdOf(l + 1, upper)
  }

  ghost predicate ChainOk(widths: seq<nat>, tables: Tables, level: nat, upper: bool) {
    forall l {:trigger IdOf(l, upper)} :: level <= l < |widths| ==>
      IdOf(l, upper) in tables && RowInChain(tables[IdOf(l, upper)], l, upper)
  }

  /** A walk below a chain depends on that chain alone. */
  lemma {:induction false} WalkFrame(widths: seq<nat>, tables: Tables, tables': Tables, level: nat, upper: bool, va: nat)
    requires 0 < level < |widths| && ChainOk(widths, tables, level, upper)
    requires forall l {:trigger IdOf(l, upper)} :: level <= l < |widths| ==>
      IdOf(l, upper) in tables' && tables'[IdOf(l, upper)] == tables[IdOf(l, upper)]
    ensures Walk(widths, tables', IdOf(level, upper), va) == Walk(widths, tables, IdOf(level, upper), va)
    decreases |widths| - level
  {
    var id, e := IdOf(level, upper), EntryBits(widths, level);
    if Shr(va, e) < |tables[id]| && tables[id][Shr(va, e)].Subtable? && level + 1 < |widths| {
      WalkFrame(widths, tables, tables', level + 1, upper, Low(va, e));
    }
  }

  // ----- one table -----

  /** The big pages, of 1 << e small pages, between which a range lies. */
  function EntryFor(start: nat, end: nat, e: nat, first: nat, level: nat, i: nat): Entry {
    if i < first then Absent
    else
      var q := Shr(start, e) + (i - first);
      if q == Shr(start, e) && Low(start, e) > 0 then Subtable(IdOf(level + 1, false))
      else if q < Shr(end, e) then Leaf(Shl(q, e))
      else if q == Shr(end, e) && Low(end, e) > 0 then Subtable(IdOf(level + 1, true))
      else Absent
  }

  /** A small page lies in the range exactly when its big page does so, wholly or in part. */
  lemma InRange(start: nat, end: nat, e: nat, q: nat, r: nat)
    requires r < Shl(1, e)
    ensures start <= Shl(q, e) + r <==> Shr(start, e) < q || (Shr(start, e) == q && Low(start, e) <= r)
    ensures Shl(q, e) + r < end <==> q < Shr(end, e) || (Shr(end, e) == q && r < Low(end, e))
  {
    ShrLow(start, e);
    ShrLow(end, e);
    Compare(q, r, Shr(start, e), Low(start, e), e);
    Compare(q, r, Shr(end, e), Low(end, e), e);
  }

  /** Where a zone address falls, in terms of the physical big page that its entry stands for. */
  lemma Placed(start: nat, end: nat, e: nat, first: nat, i: nat, r: nat)
    requires start <= end && r < Shl(1, e)
    ensures i < first ==> Expected(start, end, Shl(first, e) + Low(start, e), Shl(i, e) + r) == None
    ensures i >= first ==>
      var page := Shl(Shr(start, e) + (i - first), e) + r;
      Expected(start, end, Shl(first, e) + Low(start, e), Shl(i, e) + r) == if start <= page < end then Some(page) else None
  {
    ShrLow(start, e);
    if i < first {
      Compare(i, r, first, 0, e);
    } else {
      ShlAdd(first, i - first, e);
      ShlAdd(Shr(start, e), i - first, e);
    }
  }

  lemma IndexInTable(widths: seq<nat>, level: nat, va: nat)
    requires level < |widths| && va < Span(widths, level)
    ensures Shr(va, EntryBits(widths, level)) < EntryCount(widths, level)
  {
    ShlShl(1, widths[level], EntryBits(widths, level));
    ShrBelow(va, EntryCount(widths, level), EntryBits(widths, level));
  }

  /** What is left of a walk after an entry has been read. */
  function WalkEntry(widths: seq<nat>, tables: Tables, level: nat, entry: Entry, r: nat): Option<nat> {
    match entry
    case Absent => None
    case Leaf(page) => Some(page + r)
    case Subtable(sub) =>
      if sub.level == level + 1 && sub.level < |widths| then Walk(widths, tables, sub, r) else None
  }

  /** The lower subtable maps the head of the range up to the first big page boundary. */
  ghost predicate HeadMapped(widths: seq<nat>, tables: Tables, level: nat, start: nat)
    requires level + 1 < |widths|
  {
    var e := EntryBits(widths, level);
    var bound := Shl(Shr(start, e) + 1, e);
    start <= bound && MapsExactly(widths, tables, IdOf(level + 1, false), start, bound, Low(start, e))
  }

  /** The upper subtable maps the tail of the range from the last big page boundary. */
  ghost predicate TailMapped(widths: seq<nat>, tables: Tables, level: nat, end: nat)
    requires level + 1 < |widths|
  {
    var bound := Shl(Shr(end, EntryBits(widths, level)), EntryBits(widths, level));
    bound <= end && MapsExactly(widths, tables, IdOf(level + 1, true), bound, end, 0)
  }

  lemma HeadEntry(widths: seq<nat>, tables: Tables, level: nat, start: nat, r: nat)
    requires level + 1 < |widths| && HeadMapped(widths, tables, level, start) && r < Shl(1, EntryBits(widths, level))
    ensures var e := EntryBits(widths, level);
      Walk(widths, tables, IdOf(level + 1, false), r) == if Low(start, e) <= r then Some(Shl(Shr(start, e), e) + r) else None
  {
    var e := EntryBits(widths, level);
    ShrLow(start, e);
    ShlAdd(Shr(start, e), 1, e);
    assert MapsAt(widths, tables, IdOf(level + 1, false), start, Shl(Shr(start, e) + 1, e), Low(start, e), r);
  }

  lemma TailEntry(widths: seq<nat>, tables: Tables, level: nat, end: nat, r: nat)
    requires level + 1 < |widths| && TailMapped(widths, tables, level, end) && r < Shl(1, EntryBits(widths, level))
    ensures var e := EntryBits(widths, level);
      Walk(widths, tables, IdOf(level + 1, true), r) == if r < Low(end, e) then Some(Shl(Shr(end, e), e) + r) else None
  {
    var e := EntryBits(widths, level);
    ShrLow(end, e);
    assert MapsAt(widths, tables, IdOf(level + 1, true), Shl(Shr(end, e), e), end, 0, r);
  }

  /** An entry leads to the page of its big page if and only if that page is in the range. */
  lemma EntryMaps(widths: seq<nat>, tables: Tables, level: nat, start: nat, end: nat, first: nat, i: nat, r: nat)
    requires level + 1 < |widths| && start <= end && first <= i && r < Shl(1, EntryBits(widths, level))
    requires SubtablesMap(widths, tables, level, start, end)
    ensures var e := EntryBits(widths, level);
      var page := Shl(Shr(start, e) + (i - first), e) + r;
      WalkEntry(widths, tables, level, EntryFor(start, end, e, first, level, i), r) == if start <= page < end then Some(page) else None
  {
    var e := EntryBits(widths, level);
    var q := Shr(start, e) + (i - first);
    InRange(start, end, e, q, r);
    if q == Shr(start, e) && Low(start, e) > 0 {
      HeadEntry(widths, tables, level, start, r);
    } else if q == Shr(end, e) && Low(end, e) > 0 {
      TailEntry(widths, tables, level, end, r);
    }
  }

  /** A table filled entry by entry for a range, with its subtables built. */
  ghost predicate RowReady(widths: seq<nat>, tables: Tables, id: TableId, start: nat, end: nat, first: nat) {
    && id.level + 1 < |widths| && start <= end && id in tables && |tables[id]| == EntryCount(widths, id.level)
    && RowIs(tables[id], start, end, EntryBits(widths, id.level), first, id.level)
    && SubtablesMap(widths, tables, id.level, start, end)
  }

  ghost predicate RowIs(row: seq<Entry>, start: nat, end: nat, e: nat, first: nat, level: nat) {
    forall i :: 0 <= i < |row| ==> row[i] == EntryFor(start, end, e, first, level, i)
  }

  ghost predicate SubtablesMap(widths: seq<nat>, tables: Tables, level: nat, start: nat, end: nat)
    requires level + 1 < |widths|
  {
    var e := EntryBits(widths, level);
    && (Low(start, e) > 0 ==> Shr(start, e) < Shr(end, e) && HeadMapped(widths, tables, level, start))
    && (Low(end, e) > 0 ==> TailMapped(widths, tables, level, end))
  }

  lemma WalkOfRow(widths: seq<nat>, tables: Tables, id: TableId, start: nat, end: nat, first: nat, va: nat)
    requires RowReady(widths, tables, id, start, end, first) && va < Span(widths, id.level)
    ensures var e := EntryBits(widths, id.level);
      Walk(widths, tables, id, va) ==
      WalkEntry(widths, tables, id.level, EntryFor(start, end, e, first, id.level, Shr(va, e)), Low(va, e))
  {
    IndexInTable(widths, id.level, va);
    WalkIsEntry(widths, tables, id, va);
  }

  lemma EntryExpected(widths: seq<nat>, tables: Tables, level: nat, start: nat, end: nat, first: nat, va: nat)
    requires level + 1 < |widths| && start <= end && SubtablesMap(widths, tables, level, start, end)
    ensures var e := EntryBits(widths, level);
      WalkEntry(widths, tables, level, EntryFor(start, end, e, first, level, Shr(va, e)), Low(va, e)) ==
      Expected(start, end, Shl(first, e) + Low(start, e), va)
  {
    var e := EntryBits(widths, level);
    EntryPlaced(start, end, e, first, va);
    if Shr(va, e) >= first {
      assert Low(va, e) < Shl(1, e) by { ShrLow(va, e); }
      EntryMaps(widths, tables, level, start, end, first, Shr(va, e), Low(va, e));
    }
  }

  lemma WalkIsEntry(widths: seq<nat>, tables: Tables, id: TableId, va: nat)
    requires id.level < |widths| && id in tables && Shr(va, EntryBits(widths, id.level)) < |tables[id]|
    ensures var e := EntryBits(widths, id.level);
      Walk(widths, tables, id, va) == WalkEntry(widths, tables, id.level, tables[id][Shr(va, e)], Low(va, e))
  {
  }

  lemma EntryPlaced(start: nat, end: nat, e: nat, first: nat, va: nat)
    requires start <= end
    ensures var expected := Expected(start, end, Shl(first, e) + Low(start, e), va);
      if Shr(va, e) < first then expected == None
      else var page := Shl(Shr(start, e) + (Shr(va, e) - first), e) + Low(va, e);
        expected == if start <= page < end then Some(page) else None
  {
    ShrLow(va, e);
    Placed(start, end, e, first, Shr(va, e), Low(va, e));
  }

  /** Such a table maps the range, and nothing else. */
  lemma RowMaps(widths: seq<nat>, tables: Tables, id: TableId, start: nat, end: nat, first: nat, offset: nat)
    requires RowReady(widths, tables, id, start, end, first)
    requires offset == Shl(first, EntryBits(widths, id.level)) + Low(start, EntryBits(widths, id.level))
    ensures MapsExactly(widths, tables, id, start, end, offset)
  {
    forall va | 0 <= va < Span(widths, id.level) ensures MapsAt(widths, tables, id, start, end, offset, va) {
      var e := EntryBits(widths, id.level);
      var rest := WalkEntry(widths, tables, id.level, EntryFor(start, end, e, first, id.level, Shr(va, e)), Low(va, e));
      assert Walk(widths, tables, id, va) == rest by {
        WalkOfRow(widths, tables, id, start, end, first, va);
      }
      assert rest == Expected(start, end, offset, va) by {
        EntryExpected(widths, tables, id.level, start, end, first, va);
      }
    }
  }

  /** A table whose only entry refers to a subtable maps what the subtable maps. */
  lemma SingleMaps(widths: seq<nat>, tables: Tables, id: TableId, sub: TableId, start: nat, end: nat, first: nat, offset: nat)
    requires id.level + 1 < |widths| && start <= end && id in tables && |tables[id]| == EntryCount(widths, id.level)
    requires sub.level == id.level + 1 && first < |tables[id]|
    requires forall i :: 0 <= i < |tables[id]| ==> tables[id][i] == if i == first then Subtable(sub) else Absent
    requires MapsExactly(widths, tables, sub, start, end, offset) && offset + (end - start) <= Shl(1, EntryBits(widths, id.level))
    ensures MapsExactly(widths, tables, id, start, end, Shl(first, EntryBits(widths, id.level)) + offset)
  {
    var e := EntryBits(widths, id.level);
    var at := Shl(first, e) + offset;
    forall va | 0 <= va < Span(widths, id.level) ensures MapsAt(widths, tables, id, start, end, at, va) {
      var i, r := Shr(va, e), Low(va, e);
      IndexInTable(widths, id.level, va);
      ShrLow(va, e);
      if i == first {
        assert MapsAt(widths, tables, sub, start, end, offset, r);
      } else if i < first {
        Compare(i, r, first, 0, e);
      } else {
        ShlAdd(first, 1, e);
        ShlMono(first + 1, i, e);
      }
    }
  }

  // ----- what the asserts demand -----

  function RoundUp(x: nat, e: nat): nat {
    if Low(x, e) == 0 then x else Shl(Shr(x, e) + 1, e)
  }

  function RoundDown(x: nat, e: nat): nat {
    Shl(Shr(x, e), e)
  }

  /** The entries of a table that the range would take are no more than there are. */
  predicate Fits(widths: seq<nat>, level: nat, start: nat, end: nat)
    requires level < |widths|
  {
    var e := EntryBits(widths, level);
    level + 1 < |widths| ==> CeilShr(end, e) - Shr(start, e) <= EntryCount(widths, level)
  }

  /** The range lies strictly inside one big page. */
  predicate Single(start: nat, end: nat, e: nat) {
    RoundDown(end, e) < RoundUp(start, e)
  }

  /**
   When the asserts of the construction hold: a leaf table is long enough; the open end of a range
   given to a subtable is aligned to the subtable's entries. At the root only a range strictly
   inside one root entry passes its own bounds down, and matters when there are three levels or more.
   */
  predicate Acceptable(widths: seq<nat>, level: nat, upper: bool, start: nat, end: nat)
    requires level < |widths| && start <= end
  {
    var bound := if upper then start else end;
    if level + 1 == |widths| then end - start <= EntryCount(widths, level)
    else if level > 0 then Low(bound, EntryBits(widths, level)) == 0
    else Single(start, end, EntryBits(widths, 0)) && 2 < |widths| ==> Low(bound, EntryBits(widths, 1)) == 0
  }

  lemma SingleMeans(start: nat, end: nat, e: nat)
    requires start <= end
    ensures Single(start, end, e) <==> Shr(start, e) == Shr(end, e) && Low(start, e) > 0
    ensures Shr(start, e) <= Shr(end, e) && (Shr(start, e) == Shr(end, e) ==> Low(start, e) <= Low(end, e))
    ensures !Single(start, end, e) && Low(start, e) > 0 ==> Shr(start, e) < Shr(end, e)
  {
    ShrLow(start, e);
    ShrLow(end, e);
    var p, q := Shr(start, e), Shr(end, e);
    if q < p {
      Compare(q, Low(end, e), p, Low(start, e), e);
    }
    if p + 1 <= q {
      ShlMono(p + 1, q, e);
    }
    ShlAdd(p, 1, e);
    ShlMono(p, q, e);
  }

  /** The rounded bounds in terms of big pages. */
  lemma Rounding(start: nat, end: nat, e: nat)
    requires start <= end && !Single(start, end, e)
    ensures RoundUp(start, e) > start <==> Low(start, e) > 0
    ensures Shr(RoundUp(start, e), e) == CeilShr(start, e) <= Shr(end, e)
    ensures Shr(RoundDown(end, e), e) == Shr(end, e)
    ensures end > RoundDown(end, e) <==> Low(end, e) > 0
  {
    SingleMeans(start, end, e);
    ShrLow(start, e);
    ShrLow(end, e);
    ShlAdd(Shr(start, e), 1, e);
    ShlJoin(Shr(start, e) + 1, 0, e);
    ShlJoin(Shr(end, e), 0, e);
  }

  /** Multiples of a big page are multiples of the smaller pages of the next level. */
  lemma BoundaryBelow(q: nat, w: nat, e: nat)
    ensures Shr(Shl(q, w + e), e) == Shl(q, w) && Low(Shl(q, w + e), e) == 0
  {
    ShlShl(q, w, e);
    ShlJoin(Shl(q, w), 0, e);
  }

  /** A range inside one big page fits the table below. */
  lemma InsideFits(widths: seq<nat>, level: nat, start: nat, end: nat, q: nat)
    requires level + 1 < |widths| && start <= end
    requires Shl(q, EntryBits(widths, level)) <= start && end <= Shl(q + 1, EntryBits(widths, level))
    ensures Fits(widths, level + 1, start, end)
    ensures end - start <= Shl(1, EntryBits(widths, level))
  {
    var w, e := widths[level + 1], EntryBits(widths, level + 1);
    BoundaryBelow(q, w, e);
    BoundaryBelow(q + 1, w, e);
    ShlShl(q, w, e);
    ShlShl(q + 1, w, e);
    ShrAtLeast(start, Shl(q, w), e);
    CeilBelow(end, Shl(q + 1, w), e);
    ShlAdd(q, 1, w);
    ShlAdd(q, 1, w + e);
  }

  lemma HeadAcceptable(widths: seq<nat>, level: nat, start: nat)
    requires level + 1 < |widths| && Low(start, EntryBits(widths, level)) > 0
    ensures var bound := Shl(Shr(start, EntryBits(widths, level)) + 1, EntryBits(widths, level));
      start <= bound && Fits(widths, level + 1, start, bound) && Acceptable(widths, level + 1, false, start, bound)
      && bound - start == Shl(1, EntryBits(widths, level)) - Low(start, EntryBits(widths, level))
  {
    var e := EntryBits(widths, level);
    var q := Shr(start, e);
    ShrLow(start, e);
    ShlAdd(q, 1, e);
    InsideFits(widths, level, start, Shl(q + 1, e), q);
    BoundaryBelow(q + 1, widths[level + 1], EntryBits(widths, level + 1));
  }

  lemma TailAcceptable(widths: seq<nat>, level: nat, end: nat)
    requires level + 1 < |widths|
    ensures var bound := Shl(Shr(end, EntryBits(widths, level)), EntryBits(widths, level));
      bound <= end && Fits(widths, level + 1, bound, end) && Acceptable(widths, level + 1, true, bound, end)
  {
    var e := EntryBits(widths, level);
    var q := Shr(end, e);
    ShrLow(end, e);
    ShlAdd(q, 1, e);
    InsideFits(widths, level, Shl(q, e), end, q);
    BoundaryBelow(q, widths[level + 1], EntryBits(widths, level + 1));
  }

  /** With two levels the asserts hold for every range. */
  lemma TwoLevelsNeverFail(widths: seq<nat>, upper: bool, start: nat, end: nat)
    requires |widths| == 2 && start <= end
    ensures Acceptable(widths, 0, upper, start, end)
  {
  }

  /** With three levels a range inside one root entry that starts off a middle-level boundary fails an assert. */
  lemma ThreeLevelsCanFail()
    ensures !Acceptable([9, 9, 9], 0, true, 1, 2) && Fits([9, 9, 9], 0, 1, 2)
  {
    var widths := [9, 9, 9];
    assert EntryBits(widths, 2) == 0 && EntryBits(widths, 1) == 9 && EntryBits(widths, 0) == 18;
    OneIsLow(9);
    OneIsLow(18);
    ShrLow(2, 18);
    LowOfTwo(18);
    SingleMeans(1, 2, 18);
  }

  lemma OneIsLow(n: nat)
    requires n > 0
    ensures Low(1, n) == 1 && Shr(1, n) == 0
  {
    ZeroParts(n - 1);
  }

  lemma LowOfTwo(n: nat)
    requires n > 1
    ensures Low(2, n) == 2 && Shr(2, n) == 0
  {
    OneIsLow(n - 1);
  }

  /** A range of at most half the zone fits its root table, wherever it starts. */
  lemma HalfTheZoneFits(widths: seq<nat>, start: nat, end: nat)
    requires 0 < |widths| && widths[0] >= 1 && start <= end && 2 * (end - start) <= Span(widths, 0)
    ensures Fits(widths, 0, start, end)
  {
    if 1 < |widths| {
      var e, half := EntryBits(widths, 0), Shl(1, widths[0] - 1);
      var p := Shr(start, e);
      ShlShl(1, widths[0], e);
      assert EntryCount(widths, 0) == 2 * half;
      ShlSum(half, half, 2 * half, e);
      ShrLow(start, e);
      ShlSum(p, 1, p + 1, e);
      ShlSum(p + 1, half, p + 1 + half, e);
      CeilBelow(end, p + 1 + half, e);
    }
  }

  // ----- where the tables lie -----

  /** pageTableStackSize: the tables from a level down, one of each. */
  function StackSize(sizes: seq<nat>, level: nat): nat
    requires level <= |sizes|
    decreases |sizes| - level
  {
    if level == |sizes| then 0 else StackSize(sizes, level + 1) + sizes[level]
  }

  function RequiredTableSize(sizes: seq<nat>): int
    requires |sizes| > 0
  {
    2 * StackSize(sizes, 0) - sizes[0]
  }

  /** The offset of a table from the base of the buffer. */
  function SlotOffset(sizes: seq<nat>, id: TableId): int
    requires id.level < |sizes|
  {
    if id.level == 0 then 0
    else sizes[0] + 2 * (StackSize(sizes, 1) - StackSize(sizes, id.level)) + (if id.upper then sizes[id.level] else 0)
  }

  lemma {:induction false} StackShrinks(sizes: seq<nat>, low: nat, high: nat)
    requires low < high <= |sizes|
    ensures StackSize(sizes, high) + sizes[low] <= StackSize(sizes, low)
    decreases high - low
  {
    if low + 1 < high {
      StackShrinks(sizes, low + 1, high);
    }
  }

  /** Every table has a place of its own inside the buffer. */
  lemma TablesDoNotOverlap(sizes: seq<nat>, a: TableId, b: TableId)
    requires a.level <= b.level < |sizes| && a != b && (a.level == 0 ==> !a.upper) && (b.level == 0 ==> !b.upper)
    ensures 0 <= SlotOffset(sizes, a) && SlotOffset(sizes, a) + sizes[a.level] <= RequiredTableSize(sizes)
    ensures SlotOffset(sizes, a) + sizes[a.level] <= SlotOffset(sizes, b) || SlotOffset(sizes, b) + sizes[b.level] <= SlotOffset(sizes, a)
  {
    StackShrinks(sizes, a.level, |sizes|);
    if a.level > 0 {
      StackShrinks(sizes, 0, a.level);
      if a.level > 1 {
        StackShrinks(sizes, 1, a.level);
      }
    }
    if a.level < b.level {
      StackShrinks(sizes, a.level, b.level);
      if b.level > 1 {
        StackShrinks(sizes, 1, b.level);
      }
    }
  }

  // ----- the construction -----

  datatype Outcome = Failed | Built(id: TableId, offset: nat)

  function AbsentRow(n: nat): seq<Entry> {
    seq(n, _ => Absent)
  }

  /** The tables that a call may write: at the root all of them, below it one chain. */
  predicate InFootprint(id: TableId, level: nat, upper: bool) {
    level == 0 || (id.level >= level && id.upper == upper)
  }

  ghost predicate Untouched(tables: Tables, tables': Tables, level: nat, upper: bool) {
    tables'.Keys == tables.Keys
    && forall id {:trigger tables'[id]} :: id in tables && !InFootprint(id, level, upper) ==> tables'[id] == tables[id]
  }

  /** A chain of tables as the caller hands it over, zero-filled. */
  ghost predicate BlankChain(widths: seq<nat>, tables: Tables, level: nat, upper: bool) {
    forall l {:trigger IdOf(l, upper)} :: level <= l < |widths| ==>
      IdOf(l, upper) in tables && tables[IdOf(l, upper)] == AbsentRow(EntryCount(widths, l))
  }

  ghost predicate Blank(widths: seq<nat>, tables: Tables, level: nat, upper: bool) {
    BlankChain(widths, tables, level, upper) && (level == 0 ==> BlankChain(widths, tables, level, !upper))
  }

  /** A row after count big pages from page number q on have been entered from an index on. */
  function MiddleEntry(row: seq<Entry>, q: nat, index: nat, count: nat, e: nat, k: nat): Entry
    requires k < |row|
  {
    if index <= k < index + count then Leaf(Shl(q + (k - index), e)) else row[k]
  }

  /** Only one row and one chain below it have changed. */
  ghost predicate RowAndChain(tables: Tables, tables': Tables, row: TableId, upper: bool) {
    tables'.Keys == tables.Keys && row in tables &&
    forall id {:trigger tables'[id]} ::
      id in tables && id != row && !InFootprint(id, row.level + 1, upper) ==> tables'[id] == tables[id]
  }

  ghost predicate RowAndChains(tables: Tables, tables': Tables, row: TableId, lower: bool, upper: bool) {
    tables'.Keys == tables.Keys && row in tables &&
    forall id {:trigger tables'[id]} ::
      (id in tables && id != row
       && !(lower && InFootprint(id, row.level + 1, false)) && !(upper && InFootprint(id, row.level + 1, true))) ==>
        tables'[id] == tables[id]
  }

  lemma SingleInside(widths: seq<nat>, upper: bool, start: nat, end: nat)
    requires 1 < |widths| && start <= end && Single(start, end, EntryBits(widths, 0))
    ensures Fits(widths, 1, start, end)
    ensures Acceptable(widths, 1, upper, start, end) <==> Acceptable(widths, 0, upper, start, end)
  {
    var e := EntryBits(widths, 0);
    var q := Shr(start, e);
    SingleMeans(start, end, e);
    ShrLow(start, e);
    ShrLow(end, e);
    ShlAdd(q, 1, e);
    InsideFits(widths, 0, start, end, q);
  }

  lemma EntryInSpan(widths: seq<nat>, level: nat, i: nat, r: nat)
    requires level < |widths| && i < EntryCount(widths, level) && r <= Shl(1, EntryBits(widths, level))
    ensures Shl(i, EntryBits(widths, level)) + r <= Span(widths, level)
  {
    var e := EntryBits(widths, level);
    ShlAdd(i, 1, e);
    ShlMono(i + 1, EntryCount(widths, level), e);
    ShlShl(1, widths[level], e);
  }

  /** The number of entries as the source adds it up. */
  lemma PageCountIs(start: nat, end: nat, e: nat)
    requires start <= end && !Single(start, end, e)
    ensures RoundDown(end, e) >= RoundUp(start, e)
    ensures (if end > RoundDown(end, e) then 1 else 0) + (if RoundUp(start, e) > start then 1 else 0)
            + Shr(RoundDown(end, e) - RoundUp(start, e), e) == CeilShr(end, e) - Shr(start, e)
  {
    Rounding(start, end, e);
    var p, q := CeilShr(start, e), Shr(end, e);
    ShrLow(start, e);
    assert RoundUp(start, e) == Shl(p, e) && RoundDown(end, e) == Shl(q, e);
    ShlAdd(p, q - p, e);
    ShlJoin(q - p, 0, e);
  }

  /** How many entries the range takes: head, tail and the big pages between. */
  method PageCount(start: nat, end: nat, e: nat) returns (n: nat)
    requires start <= end && !Single(start, end, e)
    ensures n == CeilShr(end, e) - Shr(start, e)
  {
    var bottomEnd, topStart := RoundUp(start, e), RoundDown(end, e);
    PageCountIs(start, end, e);
    n := (if end > topStart then 1 else 0) + (if bottomEnd > start then 1 else 0) + Shr(topStart - bottomEnd, e);
  }

  lemma OffsetIs(widths: seq<nat>, level: nat, upper: bool, start: nat, end: nat, first: nat)
    requires level + 1 < |widths| && start <= end
    requires var e := EntryBits(widths, level);
      var pages := CeilShr(end, e) - Shr(start, e);
      0 <= pages <= EntryCount(widths, level) && first == if upper then 0 else EntryCount(widths, level) - pages
    ensures var e := EntryBits(widths, level);
      var offset := Shl(first, e) + Low(start, e);
      && offset + (end - start) <= Span(widths, level)
      && (upper && Low(start, e) == 0 ==> offset == 0)
      && (!upper && Low(end, e) == 0 ==> offset + (end - start) == Span(widths, level))
  {
    var e, n := EntryBits(widths, level), EntryCount(widths, level);
    ShlShl(1, widths[level], e);
    OffsetBound(start, end, e, first, n);
    ZeroParts(e);
  }

  lemma OffsetBound(start: nat, end: nat, e: nat, first: nat, n: nat)
    requires start <= end && Shr(start, e) <= CeilShr(end, e) && first + (CeilShr(end, e) - Shr(start, e)) <= n
    ensures var reach := Shl(first, e) + Low(start, e) + (end - start);
      && reach <= Shl(n, e)
      && (first + (CeilShr(end, e) - Shr(start, e)) == n && Low(end, e) == 0 ==> reach == Shl(n, e))
  {
    var p, q := Shr(start, e), CeilShr(end, e);
    ShrLow(start, e);
    CeilCovers(end, e);
    Shifted(first, p, q, n, e);
    Reach(start, end, Low(start, e), Shl(first, e), Shl(p, e), Shl(q, e), Shl(n, e));
  }

  lemma Reach(start: int, end: int, low: int, at: int, from: int, to: int, bound: int)
    requires start == from + low && end <= to && at + (to - from) <= bound
    ensures at + low + (end - start) <= bound
    ensures end == to && at + (to - from) == bound ==> at + low + (end - start) == bound
  {
  }

  /** Moving a stretch of big pages keeps its length. */
  lemma Shifted(first: nat, p: nat, q: nat, n: nat, e: nat)
    requires p <= q && first + (q - p) <= n
    ensures Shl(first, e) + (Shl(q, e) - Shl(p, e)) <= Shl(n, e)
    ensures first + (q - p) == n ==> Shl(first, e) + (Shl(q, e) - Shl(p, e)) == Shl(n, e)
  {
    var d := q - p;
    var last := first + d;
    ShlSum(first, d, last, e);
    ShlSum(p, d, q, e);
    ShlMono(last, n, e);
  }

  lemma ShlSum(x: nat, y: nat, z: nat, e: nat)
    requires z == x + y
    ensures Shl(z, e) == Shl(x, e) + Shl(y, e)
  {
    ShlAdd(x, y, e);
  }

  ghost predicate ChainsBelow(widths: seq<nat>, tables: Tables, level: nat, start: nat, end: nat)
    requires level + 1 < |widths|
  {
    && (Low(start, EntryBits(widths, level)) > 0 ==> ChainOk(widths, tables, level + 1, false))
    && (Low(end, EntryBits(widths, level)) > 0 ==> ChainOk(widths, tables, level + 1, true))
  }

  /** Below the root, filling a row touches its own chain only. */
  lemma ChainsKept(widths: seq<nat>, tables: Tables, tables': Tables, level: nat, upper: bool, start: nat, end: nat, first: nat)
    requires level + 1 < |widths| && Blank(widths, tables, level, upper)
    requires level > 0 ==> Low(if upper then start else end, EntryBits(widths, level)) == 0
    requires RowAndChains(tables, tables', IdOf(level, upper), Low(start, EntryBits(widths, level)) > 0, Low(end, EntryBits(widths, level)) > 0)
    requires RowIs(tables'[IdOf(level, upper)], start, end, EntryBits(widths, level), first, level)
    requires ChainsBelow(widths, tables', level, start, end)
    ensures Untouched(tables, tables', level, upper)
    ensures level > 0 ==> ChainOk(widths, tables', level, upper)
  {
    if level > 0 {
      assert RowInChain(tables'[IdOf(level, upper)], level, upper);
      BlankBelow(widths, tables, level, upper);
      var used := Low(if upper then end else start, EntryBits(widths, level)) > 0;
      forall l | level + 1 <= l < |widths|
        ensures IdOf(l, upper) in tables' && RowInChain(tables'[IdOf(l, upper)], l, upper)
      {
        assert !used ==> tables'[IdOf(l, upper)] == tables[IdOf(l, upper)];
      }
    }
  }

  function HeadMiddleEntry(row: seq<Entry>, start: nat, end: nat, e: nat, first: nat, level: nat, k: nat): Entry
    requires k < |row|
  {
    if first < k < first + (Shr(end, e) - Shr(start, e)) then Leaf(Shl(Shr(start, e) + (k - first), e))
    else if k == first then Subtable(IdOf(level + 1, false))
    else row[k]
  }

  /** A row after head and middle have been entered. */
  function FrontEntry(start: nat, end: nat, e: nat, first: nat, level: nat, k: nat): Entry
    requires CeilShr(start, e) <= Shr(end, e)
  {
    var index := first + (CeilShr(start, e) - Shr(start, e));
    if index <= k < index + (Shr(end, e) - CeilShr(start, e)) then Leaf(Shl(CeilShr(start, e) + (k - index), e))
    else if Low(start, e) > 0 && k == first then Subtable(IdOf(level + 1, false))
    else Absent
  }

  /** A row after head, middle and tail have been entered. */
  function FilledEntry(start: nat, end: nat, e: nat, first: nat, level: nat, k: nat): Entry
    requires CeilShr(start, e) <= Shr(end, e)
  {
    if Low(end, e) > 0 && k == first + (Shr(end, e) - Shr(start, e)) then Subtable(IdOf(level + 1, true))
    else FrontEntry(start, end, e, first, level, k)
  }

  lemma FilledIsEntryFor(start: nat, end: nat, e: nat, first: nat, level: nat, k: nat)
    requires CeilShr(start, e) <= Shr(end, e)
    ensures FilledEntry(start, end, e, first, level, k) == EntryFor(start, end, e, first, level, k)
  {
  }

  /** The chains below a table, as they are handed over. */
  lemma BlankBelow(widths: seq<nat>, tables: Tables, level: nat, upper: bool)
    requires level < |widths| && Blank(widths, tables, level, upper)
    ensures IdOf(level, upper) in tables && tables[IdOf(level, upper)] == AbsentRow(EntryCount(widths, level))
    ensures BlankChain(widths, tables, level + 1, upper) && (level == 0 ==> BlankChain(widths, tables, level + 1, !upper))
    ensures ChainOk(widths, tables, level + 1, upper)
  {
  }

  /** What a chain maps survives every change outside of it. */
  lemma MapsFrame(widths: seq<nat>, tables: Tables, tables': Tables, level: nat, upper: bool, start: nat, end: nat, offset: nat)
    requires 0 < level < |widths| && start <= end && ChainOk(widths, tables, level, upper)
    requires MapsExactly(widths, tables, IdOf(level, upper), start, end, offset)
    requires forall l {:trigger IdOf(l, upper)} :: level <= l < |widths| ==>
      IdOf(l, upper) in tables' && tables'[IdOf(l, upper)] == tables[IdOf(l, upper)]
    ensures MapsExactly(widths, tables', IdOf(level, upper), start, end, offset) && ChainOk(widths, tables', level, upper)
  {
    forall va | 0 <= va < Span(widths, level)
      ensures MapsAt(widths, tables', IdOf(level, upper), start, end, offset, va)
    {
      WalkFrame(widths, tables, tables', level, upper, va);
      assert MapsAt(widths, tables, IdOf(level, upper), start, end, offset, va);
    }
  }

  /** Mapping the tail leaves what the lower subtable maps alone. */
  lemma HeadSurvives(widths: seq<nat>, tables: Tables, tables': Tables, level: nat, upper: bool, start: nat)
    requires level + 1 < |widths| && HeadMapped(widths, tables, level, start) && ChainOk(widths, tables, level + 1, false)
    requires RowAndChain(tables, tables', IdOf(level, upper), true)
    ensures HeadMapped(widths, tables', level, start) && ChainOk(widths, tables', level + 1, false)
  {
    var e := EntryBits(widths, level);
    forall l | level + 1 <= l < |widths| ensures IdOf(l, false) in tables' && tables'[IdOf(l, false)] == tables[IdOf(l, false)] {
      assert IdOf(l, false) in tables;
    }
    MapsFrame(widths, tables, tables', level + 1, false, start, Shl(Shr(start, e) + 1, e), Low(start, e));
  }

  lemma LeafMaps(widths: seq<nat>, tables: Tables, id: TableId, start: nat, end: nat, first: nat)
    requires id.level + 1 == |widths| && start <= end && id in tables && |tables[id]| == EntryCount(widths, id.level)
    requires first + (end - start) <= |tables[id]|
    requires forall k :: 0 <= k < |tables[id]| ==>
      tables[id][k] == if first <= k < first + (end - start) then Leaf(start + (k - first)) else Absent
    ensures MapsExactly(widths, tables, id, start, end, first)
  {
    forall va | 0 <= va < Span(widths, id.level) ensures MapsAt(widths, tables, id, start, end, first, va) {
      IndexInTable(widths, id.level, va);
      assert Shr(va, 0) == va && Low(va, 0) == 0;
    }
  }

  class Mapper {
    const widths: seq<nat>
    var tables: Tables

    /** The caller provides the zero-filled buffer that holds the tables. */
    constructor (widths: seq<nat>, tables: Tables)
      ensures this.widths == widths && this.tables == tables
    {
      this.widths, this.tables := widths, tables;
    }

    /** Enter one table of the row that is being filled. */
    method SetEntry(id: TableId, index: nat, entry: Entry)
      requires id in tables && index < |tables[id]|
      modifies this
      ensures tables == old(tables)[id := old(tables)[id][index := entry]]
    {
      tables := tables[id := tables[id][index := entry]];
    }

    /** The last level: one entry for every small page, from the bottom up or up to the top. */
    method InitializeLeaf(level: nat, upper: bool, start: nat, end: nat) returns (r: Outcome)
      requires level + 1 == |widths| && start <= end && Blank(widths, tables, level, upper)
      modifies this
      ensures r.Built? <==> end - start <= EntryCount(widths, level)
      ensures Untouched(old(tables), tables, level, upper)
      ensures r.Built? ==> r.id == IdOf(level, upper) && MapsExactly(widths, tables, r.id, start, end, r.offset)
      ensures r.Built? ==> if upper then r.offset == 0 else r.offset + (end - start) == Span(widths, level)
      ensures r.Built? && level > 0 ==> ChainOk(widths, tables, level, upper)
    {
      var n, id := EntryCount(widths, level), IdOf(level, upper);
      var rangePages := end - start;
      if rangePages > n {
        return Failed;
      }
      var first := if upper then 0 else n - rangePages;
      var i := 0;
      while i < rangePages
        invariant 0 <= i <= rangePages && tables.Keys == old(tables.Keys)
        invariant tables == old(tables)[id := tables[id]] && |tables[id]| == n
        invariant forall k :: 0 <= k < n ==> tables[id][k] == if first <= k < first + i then Leaf(start + (k - first)) else Absent
      {
        SetEntry(id, first + i, Leaf(start + i));
        i := i + 1;
      }
      LeafMaps(widths, tables, id, start, end, first);
      r := Built(id, first);
    }

    /** The unaligned head goes to the lower table of the next level. */
    method MapHead(level: nat, upper: bool, start: nat, index: nat) returns (offset: nat)
      requires level + 1 < |widths| && Low(start, EntryBits(widths, level)) > 0
      requires BlankChain(widths, tables, level + 1, false)
      requires IdOf(level, upper) in tables && index < |tables[IdOf(level, upper)]|
      modifies this
      ensures HeadMapped(widths, tables, level, start) && ChainOk(widths, tables, level + 1, false)
      ensures offset == Low(start, EntryBits(widths, level))
      ensures RowAndChain(old(tables), tables, IdOf(level, upper), false)
      ensures tables[IdOf(level, upper)] == old(tables)[IdOf(level, upper)][index := Subtable(IdOf(level + 1, false))]
      decreases |widths| - level, 0
    {
      ghost var e := EntryBits(widths, level);
      ghost var bound := Shl(Shr(start, e) + 1, e);
      HeadAcceptable(widths, level, start);
      var data := InitializePageTable(level + 1, false, start, RoundUp(start, EntryBits(widths, level)));
      ghost var mid := tables;
      SetEntry(IdOf(level, upper), index, Subtable(data.id));
      MapsFrame(widths, mid, tables, level + 1, false, start, bound, data.offset);
      offset := data.offset;
    }

    /** The unaligned tail goes to the upper table of the next level. */
    method MapTail(level: nat, upper: bool, end: nat, index: nat)
      requires level + 1 < |widths| && Low(end, EntryBits(widths, level)) > 0
      requires BlankChain(widths, tables, level + 1, true)
      requires IdOf(level, upper) in tables && index < |tables[IdOf(level, upper)]|
      modifies this
      ensures TailMapped(widths, tables, level, end) && ChainOk(widths, tables, level + 1, true)
      ensures RowAndChain(old(tables), tables, IdOf(level, upper), true)
      ensures tables[IdOf(level, upper)] == old(tables)[IdOf(level, upper)][index := Subtable(IdOf(level + 1, true))]
      decreases |widths| - level, 0
    {
      ghost var bound := RoundDown(end, EntryBits(widths, level));
      TailAcceptable(widths, level, end);
      var data := InitializePageTable(level + 1, true, RoundDown(end, EntryBits(widths, level)), end);
      ghost var mid := tables;
      SetEntry(IdOf(level, upper), index, Subtable(data.id));
      MapsFrame(widths, mid, tables, level + 1, true, bound, end, data.offset);
    }

    /** The aligned middle is mapped by big-page leaves. */
    method MapMiddle(level: nat, upper: bool, from: nat, to: nat, index: nat)
      requires level + 1 < |widths| && from <= to && IdOf(level, upper) in tables
      requires index + (to - from) <= |tables[IdOf(level, upper)]|
      modifies this
      ensures var id := IdOf(level, upper);
        && tables.Keys == old(tables.Keys)
        && tables == old(tables)[id := tables[id]] && |tables[id]| == |old(tables)[id]|
        && forall k :: 0 <= k < |tables[id]| ==>
             tables[id][k] == MiddleEntry(old(tables)[id], from, index, to - from, EntryBits(widths, level), k)
    {
      var e, id := EntryBits(widths, level), IdOf(level, upper);
      var page, i := Shl(from, e), 0;
      while i < to - from
        invariant 0 <= i <= to - from && page == Shl(from + i, e) && tables.Keys == old(tables.Keys)
        invariant tables == old(tables)[id := tables[id]] && |tables[id]| == |old(tables)[id]|
        invariant forall k :: 0 <= k < |tables[id]| ==> tables[id][k] == MiddleEntry(old(tables)[id], from, index, i, e, k)
      {
        SetEntry(id, index + i, Leaf(page));
        ShlAdd(from + i, 1, e);
        page, i := page + Shl(1, e), i + 1;
      }
    }

    /** The head and the middle of a range that reaches past its first big page boundary. */
    method FillHeadAndMiddle(level: nat, upper: bool, start: nat, end: nat, first: nat) returns (offset: nat)
      requires level + 1 < |widths| && Low(start, EntryBits(widths, level)) > 0
      requires BlankChain(widths, tables, level + 1, false) && IdOf(level, upper) in tables
      requires Shr(start, EntryBits(widths, level)) < Shr(end, EntryBits(widths, level))
      requires first + (Shr(end, EntryBits(widths, level)) - Shr(start, EntryBits(widths, level))) <= |tables[IdOf(level, upper)]|
      modifies this
      ensures RowAndChain(old(tables), tables, IdOf(level, upper), false)
      ensures HeadMapped(widths, tables, level, start) && ChainOk(widths, tables, level + 1, false)
      ensures offset == Low(start, EntryBits(widths, level))
      ensures var id := IdOf(level, upper);
        && |tables[id]| == |old(tables)[id]|
        && forall k :: 0 <= k < |tables[id]| ==>
             tables[id][k] == HeadMiddleEntry(old(tables)[id], start, end, EntryBits(widths, level), first, level, k)
      decreases |widths| - level, 1
    {
      var e := EntryBits(widths, level);
      offset := MapHead(level, upper, start, first);
      ghost var mid := tables;
      MapMiddle(level, upper, Shr(start, e) + 1, Shr(end, e), first + 1);
      MapsFrame(widths, mid, tables, level + 1, false, start, Shl(Shr(start, e) + 1, e), Low(start, e));
    }

    /** The head and the middle of a range that does not lie strictly inside one entry. */
    method FillFront(level: nat, upper: bool, start: nat, end: nat, first: nat) returns (offset: nat)
      requires level + 1 < |widths| && start <= end && !Single(start, end, EntryBits(widths, level))
      requires Low(start, EntryBits(widths, level)) > 0 ==> BlankChain(widths, tables, level + 1, false)
      requires IdOf(level, upper) in tables && tables[IdOf(level, upper)] == AbsentRow(EntryCount(widths, level))
      requires first + (CeilShr(end, EntryBits(widths, level)) - Shr(start, EntryBits(widths, level))) <= EntryCount(widths, level)
      modifies this
      ensures tables.Keys == old(tables.Keys) && |tables[IdOf(level, upper)]| == EntryCount(widths, level)
      ensures offset == Low(start, EntryBits(widths, level))
      ensures CeilShr(start, EntryBits(widths, level)) <= Shr(end, EntryBits(widths, level))
      ensures forall k :: 0 <= k < EntryCount(widths, level) ==>
        tables[IdOf(level, upper)][k] == FrontEntry(start, end, EntryBits(widths, level), first, level, k)
      ensures if Low(start, EntryBits(widths, level)) > 0
              then RowAndChain(old(tables), tables, IdOf(level, upper), false)
                   && HeadMapped(widths, tables, level, start) && ChainOk(widths, tables, level + 1, false)
              else tables == old(tables)[IdOf(level, upper) := tables[IdOf(level, upper)]]
      decreases |widths| - level, 2
    {
      var e := EntryBits(widths, level);
      Rounding(start, end, e);
      if RoundUp(start, e) > start {
        offset := FillHeadAndMiddle(level, upper, start, end, first);
      } else {
        offset := 0;
        MapMiddle(level, upper, Shr(start, e), Shr(end, e), first);
      }
    }

    /** Fill a table for a range that does not lie strictly inside one of its entries. */
    method FillRow(level: nat, upper: bool, start: nat, end: nat, first: nat) returns (offset: nat)
      requires level + 1 < |widths| && start <= end && !Single(start, end, EntryBits(widths, level))
      requires Low(start, EntryBits(widths, level)) > 0 ==> BlankChain(widths, tables, level + 1, false)
      requires Low(end, EntryBits(widths, level)) > 0 ==> BlankChain(widths, tables, level + 1, true)
      requires IdOf(level, upper) in tables && tables[IdOf(level, upper)] == AbsentRow(EntryCount(widths, level))
      requires first + (CeilShr(end, EntryBits(widths, level)) - Shr(start, EntryBits(widths, level))) <= EntryCount(widths, level)
      modifies this
      ensures RowAndChains(old(tables), tables, IdOf(level, upper), Low(start, EntryBits(widths, level)) > 0, Low(end, EntryBits(widths, level)) > 0)
      ensures offset == Low(start, EntryBits(widths, level)) && RowReady(widths, tables, IdOf(level, upper), start, end, first)
      ensures ChainsBelow(widths, tables, level, start, end)
      decreases |widths| - level, 3
    {
      var e, id := EntryBits(widths, level), IdOf(level, upper);
      offset := FillFront(level, upper, start, end, first);
      ghost var mid := tables;
      Rounding(start, end, e);
      SingleMeans(start, end, e);
      if end > RoundDown(end, e) {
        MapTail(level, upper, end, first + (Shr(end, e) - Shr(start, e)));
        if Low(start, e) > 0 {
          HeadSurvives(widths, mid, tables, level, upper, start);
        }
      }
      forall k | 0 <= k < |tables[id]| ensures tables[id][k] == EntryFor(start, end, e, first, level, k) {
        FilledIsEntryFor(start, end, e, first, level, k);
      }
    }

    /** A range strictly inside one entry goes whole to a table of the next level. */
    method InitializeSingle(level: nat, upper: bool, start: nat, end: nat) returns (r: Outcome)
      requires level == 0 && 1 < |widths| && start <= end && Blank(widths, tables, level, upper)
      requires Single(start, end, EntryBits(widths, level))
      modifies this
      ensures r.Built? <==> Acceptable(widths, level, upper, start, end)
      ensures tables.Keys == old(tables.Keys)
      ensures r.Built? ==> r.id == IdOf(level, upper) && MapsExactly(widths, tables, r.id, start, end, r.offset)
      ensures r.Built? ==> r.offset + (end - start) <= Span(widths, level)
      decreases |widths| - level, 2
    {
      var e, id := EntryBits(widths, level), IdOf(level, upper);
      BlankBelow(widths, tables, level, upper);
      SingleInside(widths, upper, start, end);
      var first := if upper then 0 else EntryCount(widths, level) - 1;
      var data := InitializePageTable(level + 1, upper, start, end);
      if data.Failed? {
        return Failed;
      }
      ghost var mid := tables;
      SetEntry(id, first, Subtable(data.id));
      assert MapsExactly(widths, tables, data.id, start, end, data.offset) by {
        MapsFrame(widths, mid, tables, level + 1, upper, start, end, data.offset);
      }
      SingleMaps(widths, tables, id, data.id, start, end, first, data.offset);
      EntryInSpan(widths, level, first, data.offset + (end - start));
      r := Built(id, Shl(first, e) + data.offset);
    }

    /**
     Build the table of a level, and those below it, for a range; upper says whether the range fills
     the table from the bottom up or up to its top.
     */
    method InitializePageTable(level: nat, upper: bool, start: nat, end: nat) returns (r: Outcome)
      requires level < |widths| && start <= end && Fits(widths, level, start, end) && Blank(widths, tables, level, upper)
      modifies this
      ensures r.Built? <==> Acceptable(widths, level, upper, start, end)
      ensures Untouched(old(tables), tables, level, upper)
      ensures r.Built? ==> r.id == IdOf(level, upper) && MapsExactly(widths, tables, r.id, start, end, r.offset)
      ensures r.Built? ==> r.offset + (end - start) <= Span(widths, level)
      ensures r.Built? && level > 0 ==> ChainOk(widths, tables, level, upper)
      ensures r.Built? && level > 0 ==> if upper then r.offset == 0 else r.offset + (end - start) == Span(widths, level)
      decreases |widths| - level, 5
    {
      if level + 1 == |widths| {
        r := InitializeLeaf(level, upper, start, end);
        return;
      }
      var e := EntryBits(widths, level);
      if level > 0 && Low(if upper then start else end, e) != 0 {
        return Failed;
      }
      SingleMeans(start, end, e);
      if Single(start, end, e) {
        r := InitializeSingle(level, upper, start, end);
      } else {
        r := InitializeInterior(level, upper, start, end);
      }
    }

    method InitializeInterior(level: nat, upper: bool, start: nat, end: nat) returns (r: Outcome)
      requires level + 1 < |widths| && start <= end && Fits(widths, level, start, end) && Blank(widths, tables, level, upper)
      requires !Single(start, end, EntryBits(widths, level))
      requires level > 0 ==> Low(if upper then start else end, EntryBits(widths, level)) == 0
      modifies this
      ensures Untouched(old(tables), tables, level, upper)
      ensures r.Built? && r.id == IdOf(level, upper) && MapsExactly(widths, tables, r.id, start, end, r.offset)
      ensures r.offset + (end - start) <= Span(widths, level)
      ensures level > 0 ==> ChainOk(widths, tables, level, upper)
      ensures level > 0 ==> if upper then r.offset == 0 else r.offset + (end - start) == Span(widths, level)
      decreases |widths| - level, 4
    {
      var e, id := EntryBits(widths, level), IdOf(level, upper);
      var pageCount := PageCount(start, end, e);
      var first := if upper then 0 else EntryCount(widths, level) - pageCount;
      BlankBelow(widths, tables, level, upper);
      SingleMeans(start, end, e);
      var head := FillRow(level, upper, start, end, first);
      r := Built(id, Shl(first, e) + head);
      RowMaps(widths, tables, id, start, end, first, r.offset);
      OffsetIs(widths, level, upper, start, end, first);
      ChainsKept(widths, old(tables), tables, level, upper, start, end, first);
    }
  }
}
