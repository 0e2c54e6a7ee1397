/**
 Reserving a page of an arena whose leaf page tables are installed on demand. A leaf table maps eight
 bitmaps of pages. When it is installed, its first pages become the dirty bitmaps of the CPUs, one page
 for every 64 of them, and are set aside in the radix tree before a page is claimed.
 */
module LazyTables {

  import opened Wrappers
  import opened Counting
  import opened RadixTree

  /** Bitmaps that one leaf page table covers: bigPageSize / (kBranchFactor * smallPageSize). */
  const LEAVES_PER_TABLE: nat := 8
  const TABLE_PAGES: nat := 512

  function TableOf(page: nat): nat {
    page / TABLE_PAGES
  }

  /** The pages of a table that hold dirty bitmaps. */
  ghost predicate IsDirtyPage(page: nat, dirtyWords: nat) {
    page % TABLE_PAGES < dirtyWords
  }

  ghost function DirtyPagesOf(table: nat, count: nat): set<nat> {
    set b | b in Upto(count) :: TABLE_PAGES * table + b
  }

  lemma DirtyPagesAre(table: nat, count: nat, page: nat)
    requires count <= 64
    ensures page in DirtyPagesOf(table, count) <==> TableOf(page) == table && IsDirtyPage(page, count)
  {
    if TableOf(page) == table && IsDirtyPage(page, count) {
      assert page % TABLE_PAGES in Upto(count) && page == TABLE_PAGES * table + page % TABLE_PAGES;
    }
  }

  lemma DirtyPagesMore(table: nat, count: nat)
    ensures DirtyPagesOf(table, count + 1) == DirtyPagesOf(table, count) + {TABLE_PAGES * table + count}
  {
    assert Upto(count + 1) == Upto(count) + {count};
  }

  lemma OneMoreAside(all: set<nat>, before: set<nat>, after: set<nat>, table: nat, first: nat, bit: nat)
    requires first == LEAVES_PER_TABLE * table && before == all - DirtyPagesOf(table, bit) && after == before - {64 * first + bit}
    ensures after == all - DirtyPagesOf(table, bit + 1)
  {
    DirtyPagesMore(table, bit);
  }

  lemma TableOfLeaf(page: nat)
    ensures TableOf(page) == page / 64 / LEAVES_PER_TABLE
  {
  }

  /** No page of a table that is not installed has been handed out, so none has been returned. */
  ghost predicate NoneReturnedYet(freeWord: seq<set<nat>>, installed: set<nat>) {
    forall leaf :: 0 <= leaf < |freeWord| && leaf / LEAVES_PER_TABLE !in installed ==> freeWord[leaf] == {}
  }

  /** The dirty pages of the installed tables are not free. */
  ghost predicate DirtyAside(free: set<nat>, installed: set<nat>, dirtyWords: nat) {
    forall page :: page in free && TableOf(page) in installed ==> !IsDirtyPage(page, dirtyWords)
  }

  /** A page in a caller's hands is mapped through an installed table, holds no dirty bitmap and is not free. */
  ghost predicate Handed(page: nat, free: set<nat>, installed: set<nat>, dirtyWords: nat, leaves: nat) {
    page < 64 * leaves && page !in free && TableOf(page) in installed && !IsDirtyPage(page, dirtyWords)
  }

  ghost predicate AllHanded(live: set<nat>, free: set<nat>, installed: set<nat>, dirtyWords: nat, leaves: nat) {
    forall page :: page in live ==> Handed(page, free, installed, dirtyWords, leaves)
  }

  /** The page was free and is not a dirty page of an installed table. */
  ghost predicate Left(free: set<nat>, installed: set<nat>, dirtyWords: nat, page: nat) {
    page in free && !(IsDirtyPage(page, dirtyWords) && TableOf(page) in installed)
  }

  ghost predicate OnlyLeft(free: set<nat>, free': set<nat>, installed: set<nat>, dirtyWords: nat, except: Option<nat>) {
    forall page :: page in free' <==> Left(free, installed, dirtyWords, page) && except != Some(page)
  }

  lemma AfterInstall(free: set<nat>, installed: set<nat>, table: nat, dirtyWords: nat, live: set<nat>, leaves: nat)
    requires dirtyWords <= 64 && DirtyAside(free, installed, dirtyWords) && AllHanded(live, free, installed, dirtyWords, leaves)
    ensures var free', installed' := free - DirtyPagesOf(table, dirtyWords), installed + {table};
      && DirtyAside(free', installed', dirtyWords) && AllHanded(live, free', installed', dirtyWords, leaves)
      && OnlyLeft(free, free', installed', dirtyWords, None)
  {
    forall page ensures page in DirtyPagesOf(table, dirtyWords) <==> TableOf(page) == table && IsDirtyPage(page, dirtyWords) {
      DirtyPagesAre(table, dirtyWords, page);
    }
  }

  /** The pages that a caller can get: free, and not such as their table will use for a dirty bitmap. */
  ghost function Usable(free: set<nat>, dirtyWords: nat): set<nat> {
    set page | page in free && !IsDirtyPage(page, dirtyWords)
  }

  ghost predicate LeftmostLeaf(free: set<nat>, leaf: nat) {
    (exists page :: page in free && page / 64 == leaf) && forall page :: page in free ==> leaf <= page / 64
  }

  lemma StillUsable(free: set<nat>, free': set<nat>, installed: set<nat>, dirtyWords: nat)
    requires OnlyLeft(free, free', installed, dirtyWords, None)
    ensures Usable(free', dirtyWords) == Usable(free, dirtyWords)
  {
  }

  lemma LeftOfLeft(free: set<nat>, free': set<nat>, free'': set<nat>, installed: set<nat>, installed': set<nat>, dirtyWords: nat,
                   except: Option<nat>)
    requires OnlyLeft(free, free', installed, dirtyWords, None) && OnlyLeft(free', free'', installed', dirtyWords, except)
    requires installed <= installed'
    ensures OnlyLeft(free, free'', installed', dirtyWords, except)
  {
  }

  lemma FoundUsable(free: set<nat>, installed: set<nat>, dirtyWords: nat, leaf: nat, page: nat)
    requires LeftmostLeaf(free, leaf) && Left(free, installed, dirtyWords, page) && page / 64 == leaf
    requires leaf / LEAVES_PER_TABLE in installed
    ensures page in Usable(free, dirtyWords) && TableOf(page) in installed
    ensures forall other :: other in Usable(free, dirtyWords) ==> page / 64 <= other / 64
  {
    TableOfLeaf(page);
  }

  /** A leaf that had a free page and has none once its table is there had dirty pages only, so the table is new. */
  lemma NewlyInstalled(free: set<nat>, free': set<nat>, installed: set<nat>, installed': set<nat>, dirtyWords: nat, leaf: nat, leaves: nat)
    requires DirtyAside(free, installed, dirtyWords) && LeftmostLeaf(free, leaf) && leaf < leaves
    requires installed' == installed + {leaf / LEAVES_PER_TABLE} && OnlyLeft(free, free', installed', dirtyWords, None)
    requires forall page :: page in free' ==> page / 64 != leaf
    ensures Upto(leaves) - installed' < Upto(leaves) - installed
  {
    var page :| page in free && page / 64 == leaf;
    TableOfLeaf(page);
    assert !Left(free, installed', dirtyWords, page);
    assert leaf / LEAVES_PER_TABLE in Upto(leaves) - installed;
  }

  lemma LeafHasPage(bits: seq<set<nat>>, leaf: nat)
    requires BitsLow(bits) && leaf in AvailableIn(bits) && forall a :: a in AvailableIn(bits) ==> leaf <= a
    ensures LeftmostLeaf(PagesIn(bits), leaf)
  {
    var bit :| bit in bits[leaf];
    PagesAt(bits, leaf, bit);
    assert (64 * leaf + bit) / 64 == leaf;
    LeftmostPages(bits, leaf);
  }

  /** In an arena of a single level there is one leaf. */
  lemma OnlyLeafAvailable(leaves: nat, bits: seq<set<nat>>)
    requires leaves >= 1 && |bits| == leaves
    ensures Depth(leaves) == 1 && AvailableIn(bits) != {} ==> AvailableIn(bits) == {0}
  {
    if Depth(leaves) == 1 {
      DepthReachesRoot(leaves, 0);
    }
  }

  /** The free pages from a bound on. */
  ghost function PagesFrom(free: set<nat>, bound: nat): set<nat> {
    set page | page in free && bound <= page
  }

  lemma PagesFromNext(free: set<nat>, bound: nat)
    ensures PagesFrom(free, bound + 1) == PagesFrom(free, bound) - {bound}
  {
  }

  /** The dirty pages of the first table of the data range are at its head. */
  lemma HeadIsDirty(free: set<nat>, leaf: nat, head: nat, dirtyWords: nat)
    requires leaf % LEAVES_PER_TABLE == 0 && dirtyWords <= head
    ensures DirtyAside(PagesFrom(free, 64 * leaf + head), {leaf / LEAVES_PER_TABLE}, dirtyWords)
  {
    var table := leaf / LEAVES_PER_TABLE;
    assert leaf == LEAVES_PER_TABLE * table;
    forall page | page in PagesFrom(free, 64 * leaf + head) && TableOf(page) in {table} ensures !IsDirtyPage(page, dirtyWords) {
      assert page == TABLE_PAGES * table + page % TABLE_PAGES;
    }
  }

  class LazyArena {
    const arena: Arena
    const dirtyWords: nat                // dirtyWordCount
    var installed: set<nat>              // leaf tables that are installed
    ghost var live: set<nat>             // pages in callers' hands

    ghost predicate Valid()
      reads this, arena
    {
      && arena.Valid() && dirtyWords <= 64 && NoneReturnedYet(arena.freeWord, installed)
      && DirtyAside(arena.FreePages(), installed, dirtyWords)
      && AllHanded(live, arena.FreePages(), installed, dirtyWords, arena.leaves)
    }

    constructor (leaves: nat, dirtyWords: nat)
      requires leaves >= 1 && dirtyWords <= 64
      ensures Valid() && fresh(arena) && arena.leaves == leaves && this.dirtyWords == dirtyWords && live == {} && installed == {}
      ensures forall page: nat :: page in arena.FreePages() <==> page < 64 * leaves
    {
      arena := new Arena(leaves);
      this.dirtyWords, installed, live := dirtyWords, {}, {};
    }

    /**
     reserveBootBits, after the first leaf table of the data range has been installed: the self-reference region and
     the pages at the head of the data range are set aside, among them the dirty pages of that table.
     */
    method ReserveBootBits(selfRefLeaves: nat, head: nat)
      requires Valid() && installed == {} && live == {} && selfRefLeaves < arena.leaves && selfRefLeaves % LEAVES_PER_TABLE == 0
      requires dirtyWords <= head <= 64
      modifies this`installed, arena
      ensures Valid() && installed == {selfRefLeaves / LEAVES_PER_TABLE}
      ensures arena.FreePages() == PagesFrom(old(arena.FreePages()), 64 * selfRefLeaves + head)
    {
      ghost var all := arena.FreePages();
      var T := 0;
      assert all == PagesFrom(all, 0);
      while T < selfRefLeaves
        invariant 0 <= T <= selfRefLeaves && Valid() && installed == {} && arena.FreePages() == PagesFrom(all, 64 * T)
      {
        SetLeafAside(T, 64, all);
        T := T + 1;
      }
      SetLeafAside(T, head, all);
      HeadIsDirty(all, selfRefLeaves, head, dirtyWords);
      installed := {selfRefLeaves / LEAVES_PER_TABLE};
    }

    /** The first pages of a leaf, all pages before it being set aside. */
    method SetLeafAside(T: nat, count: nat, ghost all: set<nat>)
      requires Valid() && installed == {} && T < arena.leaves && count <= 64 && arena.FreePages() == PagesFrom(all, 64 * T)
      modifies arena
      ensures Valid() && arena.FreePages() == PagesFrom(all, 64 * T + count)
    {
      var bit := 0;
      while bit < count
        invariant 0 <= bit <= count && Valid() && arena.FreePages() == PagesFrom(all, 64 * T + bit)
      {
        SetAside(T, bit);
        PagesFromNext(all, 64 * T + bit);
        bit := bit + 1;
      }
    }

    method SetAside(T: nat, bit: nat)
      requires Valid() && installed == {} && T < arena.leaves && bit < 64
      modifies arena
      ensures Valid() && arena.FreePages() == old(arena.FreePages()) - {64 * T + bit}
    {
      assert T / LEAVES_PER_TABLE !in installed;
      arena.ReserveLeafBit(T, bit);
    }

    /** The pages of a leaf table that become dirty bitmaps. */
    method SetDirtyPagesAside(table: nat)
      requires arena.Valid() && dirtyWords <= 64 && LEAVES_PER_TABLE * table < arena.leaves
      requires arena.freeWord[LEAVES_PER_TABLE * table] == {}
      modifies arena
      ensures arena.Valid() && arena.freeWord == old(arena.freeWord)
      ensures arena.FreePages() == old(arena.FreePages()) - DirtyPagesOf(table, dirtyWords)
    {
      var first, bit := LEAVES_PER_TABLE * table, 0;
      assert DirtyPagesOf(table, 0) == {};
      while bit < dirtyWords
        invariant 0 <= bit <= dirtyWords && arena.Valid() && arena.freeWord == old(arena.freeWord)
        invariant arena.FreePages() == old(arena.FreePages()) - DirtyPagesOf(table, bit)
      {
        ghost var before := arena.FreePages();
        arena.ReserveLeafBit(first, bit);
        OneMoreAside(old(arena.FreePages()), before, arena.FreePages(), table, first, bit);
        bit := bit + 1;
      }
    }

    method InstallTable(table: nat)
      requires Valid() && table !in installed && LEAVES_PER_TABLE * table < arena.leaves
      modifies this`installed, arena
      ensures Valid() && installed == old(installed) + {table}
      ensures OnlyLeft(old(arena.FreePages()), arena.FreePages(), installed, dirtyWords, None)
    {
      AfterInstall(arena.FreePages(), installed, table, dirtyWords, live, arena.leaves);
      SetDirtyPagesAside(table);
      installed := installed + {table};
    }

    /** ensureSubtableInstalled, as far as the radix tree is concerned. */
    method EnsureTable(T: nat)
      requires Valid() && T < arena.leaves
      modifies this`installed, arena
      ensures Valid() && installed == old(installed) + {T / LEAVES_PER_TABLE}
      ensures OnlyLeft(old(arena.FreePages()), arena.FreePages(), installed, dirtyWords, None)
    {
      var table := T / LEAVES_PER_TABLE;
      if table !in installed {
        InstallTable(table);
      }
    }

    /** One turn of the loop of reserveFreeVA: the table of the leaf, then a page of it. */
    method TryLeaf(T: nat) returns (r: Option<nat>)
      requires Valid() && T < arena.leaves
      modifies this, arena
      ensures Valid() && installed == old(installed) + {T / LEAVES_PER_TABLE}
      ensures OnlyLeft(old(arena.FreePages()), arena.FreePages(), installed, dirtyWords, r)
      ensures r.Some? ==> r.value / 64 == T && Left(old(arena.FreePages()), installed, dirtyWords, r.value)
      ensures live == if r.Some? then old(live) + {r.value} else old(live)
      ensures r.None? ==> forall page :: page in arena.FreePages() ==> page / 64 != T
    {
      EnsureTable(T);
      r := arena.ClaimPage(T);
      if r.Some? {
        TableOfLeaf(r.value);
        live := live + {r.value};
      }
    }

    /** The leaf to try: the left-most with a free page. */
    method Descend() returns (T: Option<nat>)
      requires arena.Valid() && (arena.depth >= 2 || arena.FreePages() != {})
      ensures T.None? ==> arena.FreePages() == {}
      ensures T.Some? ==> T.value < arena.leaves && LeftmostLeaf(arena.FreePages(), T.value)
    {
      ghost var bits := arena.FreeBits();
      PagesAndLeaves(bits);
      T := arena.DescendToFreeLeaf(AvailableIn(bits));
      if T.Some? {
        OnlyLeafAvailable(arena.leaves, bits);
        LeafHasPage(bits, T.value);
      }
    }

    /**
     Descend to a leaf with a free page, install its table, claim; again when the table's dirty pages were all
     that the leaf had. It fails exactly when no free page is usable. The page handed out is mapped through an
     installed table, holds no dirty bitmap, and lies in the left-most leaf that has a usable page.
     */
    method ReserveFreeVA() returns (r: Option<nat>)
      requires Valid() && (arena.depth >= 2 || Usable(arena.FreePages(), dirtyWords) != {})
      modifies this, arena
      ensures Valid() && old(installed) <= installed
      ensures OnlyLeft(old(arena.FreePages()), arena.FreePages(), installed, dirtyWords, r)
      ensures live == if r.Some? then old(live) + {r.value} else old(live)
      ensures var usable := Usable(old(arena.FreePages()), dirtyWords);
        && (r.None? <==> usable == {})
        && (r.Some? ==> r.value in usable && TableOf(r.value) in installed && forall page :: page in usable ==> r.value / 64 <= page / 64)
    {
      while true
        invariant Valid() && old(installed) <= installed && live == old(live)
        invariant OnlyLeft(old(arena.FreePages()), arena.FreePages(), installed, dirtyWords, None)
        decreases Upto(arena.leaves) - installed
      {
        StillUsable(old(arena.FreePages()), arena.FreePages(), installed, dirtyWords);
        var T := Descend();
        if T.None? {
          return None;
        }
        ghost var free, before := arena.FreePages(), installed;
        r := TryLeaf(T.value);
        LeftOfLeft(old(arena.FreePages()), free, arena.FreePages(), before, installed, dirtyWords, r);
        if r.Some? {
          FoundUsable(free, installed, dirtyWords, T.value, r.value);
          return;
        }
        NewlyInstalled(free, arena.FreePages(), before, installed, dirtyWords, T.value, arena.leaves);
      }
    }

    /** A caller gives a page back. */
    method ReleasePage(page: nat)
      requires Valid() && page in live
      modifies this`live, arena
      ensures Valid() && live == old(live) - {page} && arena.FreePages() == old(arena.FreePages()) + {page}
    {
      TableOfLeaf(page);
      live := live - {page};
      arena.ReleasePage(page);
    }
  }
}
