/** A stretch of memory cut into blocks, as a map from the address of each block to its size. */
module BlockTiling {

  type Blocks = map<nat, nat>

  /** A block lies in the stretch, and where it ends the stretch ends or the next block begins. */
  ghost predicate BlockOk(blocks: Blocks, start: nat, end: nat, a: nat)
    requires a in blocks
  {
    start <= a && blocks[a] > 0 && a + blocks[a] <= end && (a + blocks[a] == end || a + blocks[a] in blocks)
  }

  ghost predicate Disjoint(blocks: Blocks, a: nat, b: nat)
    requires a in blocks && b in blocks
  {
    a < b ==> a + blocks[a] <= b
  }

  ghost predicate Tiled(blocks: Blocks, start: nat, end: nat) {
    && start <= end && (start < end ==> start in blocks)
    && (forall a {:trigger BlockOk(blocks, start, end, a)} :: a in blocks ==> BlockOk(blocks, start, end, a))
    && (forall a, b {:trigger Disjoint(blocks, a, b)} :: a in blocks && b in blocks ==> Disjoint(blocks, a, b))
  }

  /** The sum of the sizes. */
  ghost function Total(blocks: Blocks): nat
    decreases |blocks|
  {
    if blocks == map[] then 0
    else
      var a :| a in blocks;
      blocks[a] + Total(blocks - {a})
  }

  lemma {:induction false} TotalWithout(blocks: Blocks, a: nat)
    requires a in blocks
    ensures Total(blocks) == blocks[a] + Total(blocks - {a})
    decreases |blocks|
  {
    var b :| b in blocks && Total(blocks) == blocks[b] + Total(blocks - {b});
    if a != b {
      TotalWithout(blocks - {b}, a);
      TotalWithout(blocks - {a}, b);
      assert blocks - {b} - {a} == blocks - {a} - {b};
    }
  }

  lemma TotalWith(blocks: Blocks, a: nat, size: nat)
    requires a !in blocks
    ensures Total(blocks[a := size]) == Total(blocks) + size
  {
    TotalWithout(blocks[a := size], a);
    assert blocks[a := size] - {a} == blocks;
  }

  /** The blocks of a tiled stretch add up to it. */
  lemma {:induction false} TiledTotal(blocks: Blocks, start: nat, end: nat)
    requires Tiled(blocks, start, end)
    ensures Total(blocks) == end - start
    decreases end - start
  {
    if blocks != map[] {
      var first :| first in blocks;
      assert BlockOk(blocks, start, end, first);
      assert BlockOk(blocks, start, end, start);
      var rest, next := blocks - {start}, start + blocks[start];
      forall a | a in rest ensures BlockOk(rest, next, end, a) {
        assert BlockOk(blocks, start, end, a) && Disjoint(blocks, start, a);
      }
      forall a, b | a in rest && b in rest ensures Disjoint(rest, a, b) {
        assert Disjoint(blocks, a, b);
      }
      TiledTotal(rest, next, end);
      TotalWithout(blocks, start);
    }
  }

  /** Every address of a tiled stretch lies in exactly one block. */
  lemma {:induction false} InOneBlock(blocks: Blocks, start: nat, end: nat, x: nat) returns (a: nat)
    requires Tiled(blocks, start, end) && start <= x < end
    ensures a in blocks && a <= x < a + blocks[a]
    ensures forall b :: b in blocks && b <= x < b + blocks[b] ==> b == a
  {
    a := start;
    assert BlockOk(blocks, start, end, a);
    while x >= a + blocks[a]
      invariant a in blocks && a <= x
      decreases end - a
    {
      assert BlockOk(blocks, start, end, a);
      a := a + blocks[a];
      assert BlockOk(blocks, start, end, a);
    }
    forall b | b in blocks && b <= x < b + blocks[b] ensures b == a {
      assert Disjoint(blocks, a, b) && Disjoint(blocks, b, a);
    }
  }

  // ----- cutting and joining -----

  function Cut(blocks: Blocks, a: nat, at: nat): Blocks
    requires a in blocks && a < at < a + blocks[a]
  {
    blocks[a := at - a][at := a + blocks[a] - at]
  }

  lemma CutTiled(blocks: Blocks, start: nat, end: nat, a: nat, at: nat)
    requires Tiled(blocks, start, end) && a in blocks && a < at < a + blocks[a]
    ensures Tiled(Cut(blocks, a, at), start, end) && at !in blocks
  {
    var cut := Cut(blocks, a, at);
    forall b | b in blocks && a < b ensures a + blocks[a] <= b {
      assert Disjoint(blocks, a, b);
    }
    assert BlockOk(blocks, start, end, a);
    forall b | b in cut ensures BlockOk(cut, start, end, b) {
      if b != a && b != at {
        assert BlockOk(blocks, start, end, b);
      }
    }
    forall b, c | b in cut && c in cut ensures Disjoint(cut, b, c) {
      CutDisjoint(blocks, start, end, a, at, b, c);
    }
  }

  lemma CutDisjoint(blocks: Blocks, start: nat, end: nat, a: nat, at: nat, b: nat, c: nat)
    requires Tiled(blocks, start, end) && a in blocks && a < at < a + blocks[a] && b in Cut(blocks, a, at) && c in Cut(blocks, a, at)
    ensures Disjoint(Cut(blocks, a, at), b, c)
  {
    var b0, c0 := if b == at then a else b, if c == at then a else c;
    assert Disjoint(blocks, b0, c0) && Disjoint(blocks, c0, b0);
    assert BlockOk(blocks, start, end, b0) && BlockOk(blocks, start, end, c0);
  }

  function Join(blocks: Blocks, a: nat): Blocks
    requires a in blocks && a + blocks[a] in blocks
  {
    (blocks - {a + blocks[a]})[a := blocks[a] + blocks[a + blocks[a]]]
  }

  lemma JoinTiled(blocks: Blocks, start: nat, end: nat, a: nat)
    requires Tiled(blocks, start, end) && a in blocks && a + blocks[a] in blocks
    ensures Tiled(Join(blocks, a), start, end)
  {
    var joined := Join(blocks, a);
    assert BlockOk(blocks, start, end, a);
    forall b | b in joined ensures BlockOk(joined, start, end, b) {
      JoinedOk(blocks, start, end, a, b);
    }
    forall b, c | b in joined && c in joined ensures Disjoint(joined, b, c) {
      JoinedDisjoint(blocks, start, end, a, b, c);
    }
  }

  lemma JoinedOk(blocks: Blocks, start: nat, end: nat, a: nat, b: nat)
    requires Tiled(blocks, start, end) && a in blocks && a + blocks[a] in blocks && b in Join(blocks, a)
    ensures BlockOk(Join(blocks, a), start, end, b)
  {
    var next := a + blocks[a];
    assert BlockOk(blocks, start, end, a) && BlockOk(blocks, start, end, next);
    if b != a {
      assert BlockOk(blocks, start, end, b) && Disjoint(blocks, a, b) && Disjoint(blocks, b, a);
    }
  }

  lemma JoinedDisjoint(blocks: Blocks, start: nat, end: nat, a: nat, b: nat, c: nat)
    requires Tiled(blocks, start, end) && a in blocks && a + blocks[a] in blocks && b in Join(blocks, a) && c in Join(blocks, a)
    ensures Disjoint(Join(blocks, a), b, c)
  {
    var next := a + blocks[a];
    assert Disjoint(blocks, b, c) && Disjoint(blocks, next, c) && Disjoint(blocks, c, next);
  }

  lemma CutTotal(blocks: Blocks, a: nat, at: nat)
    requires a in blocks && a < at < a + blocks[a] && at !in blocks
    ensures Total(Cut(blocks, a, at)) == Total(blocks)
  {
    var rest := blocks - {a};
    var shortened := blocks[a := at - a];
    TotalWithout(blocks, a);
    TotalWithout(shortened, a);
    assert shortened - {a} == rest;
    TotalWith(shortened, at, a + blocks[a] - at);
  }

  lemma JoinTotal(blocks: Blocks, a: nat)
    requires a in blocks && a + blocks[a] in blocks && blocks[a] > 0
    ensures Total(Join(blocks, a)) == Total(blocks)
  {
    var next := a + blocks[a];
    var rest := blocks - {next};
    TotalWithout(blocks, next);
    TotalWithout(rest, a);
    TotalWithout(Join(blocks, a), a);
    assert Join(blocks, a) - {a} == rest - {a};
  }

  // ----- two kinds of blocks -----

  /** Free and allocated blocks together tile the stretch. */
  ghost predicate Shared(free: Blocks, used: Blocks, start: nat, end: nat) {
    free.Keys !! used.Keys && Tiled(free + used, start, end)
  }

  lemma CutShared(free: Blocks, used: Blocks, start: nat, end: nat, a: nat, at: nat)
    requires Shared(free, used, start, end) && a in free && a < at < a + free[a]
    ensures at !in free && at !in used && Shared(Cut(free, a, at), used, start, end)
  {
    CutTiled(free + used, start, end, a, at);
    assert Cut(free, a, at) + used == Cut(free + used, a, at);
  }

  lemma JoinShared(free: Blocks, used: Blocks, start: nat, end: nat, a: nat)
    requires Shared(free, used, start, end) && a in free && a + free[a] in free
    ensures free[a] > 0 && Shared(Join(free, a), used, start, end)
  {
    assert BlockOk(free + used, start, end, a);
    JoinTiled(free + used, start, end, a);
    assert Join(free, a) + used == Join(free + used, a);
  }

  lemma TakeShared(free: Blocks, used: Blocks, start: nat, end: nat, a: nat)
    requires Shared(free, used, start, end) && a in free
    ensures Shared(free - {a}, used[a := free[a]], start, end)
  {
    assert (free - {a}) + used[a := free[a]] == free + used;
  }

  lemma GiveShared(free: Blocks, used: Blocks, start: nat, end: nat, a: nat)
    requires Shared(free, used, start, end) && a in used
    ensures Shared(free[a := used[a]], used - {a}, start, end)
  {
    assert free[a := used[a]] + (used - {a}) == free + used;
  }
}
