/**
 The doubly linked lists that hold the slabs of LibAlloc's slab allocator: one list of full slabs, one
 of free slabs and one for each range of occupancy in between. Links are fields of the slabs, found
 here by a slab's identity.
 */
module BucketLists {

  import opened Wrappers

  type Id = nat
  type Links = map<Id, Option<Id>>

  datatype Bucket = FreeSlabs | FullSlabs | Partial(index: nat)

  const BUCKET_COUNT: nat := 6

  predicate IsBucket(b: Bucket) {
    b.Partial? ==> b.index < BUCKET_COUNT
  }

  function At(xs: seq<Id>, i: int): Option<Id> {
    if 0 <= i < |xs| then Some(xs[i]) else None
  }

  ghost predicate NoDup(xs: seq<Id>) {
    forall i, j :: 0 <= i < j < |xs| ==> xs[i] != xs[j]
  }

  ghost predicate NodeOk(next: Links, prev: Links, xs: seq<Id>, i: nat)
    requires i < |xs|
  {
    && xs[i] in next && next[xs[i]] == At(xs, i + 1)
    && xs[i] in prev && prev[xs[i]] == At(xs, i - 1)
  }

  /** The links lead through exactly these slabs, forwards from the head and backwards. */
  ghost predicate Linked(next: Links, prev: Links, head: Option<Id>, xs: seq<Id>) {
    && NoDup(xs) && head == At(xs, 0)
    && forall i {:trigger NodeOk(next, prev, xs, i)} :: 0 <= i < |xs| ==> NodeOk(next, prev, xs, i)
  }

  /** The list without the element at an index. */
  function Without(xs: seq<Id>, k: nat): seq<Id>
    requires k < |xs|
  {
    xs[..k] + xs[k + 1..]
  }

  /** What removeSlabFromBucket does to the links. */
  function NextWithout(next: Links, xs: seq<Id>, k: nat): Links
    requires k < |xs|
  {
    (if k > 0 then next[xs[k - 1] := At(xs, k + 1)] else next)[xs[k] := None]
  }

  function PrevWithout(prev: Links, xs: seq<Id>, k: nat): Links
    requires k < |xs|
  {
    (if k + 1 < |xs| then prev[xs[k + 1] := At(xs, k - 1)] else prev)[xs[k] := None]
  }

  lemma RemoveLinked(next: Links, prev: Links, head: Option<Id>, xs: seq<Id>, k: nat)
    requires Linked(next, prev, head, xs) && k < |xs|
    ensures Linked(NextWithout(next, xs, k), PrevWithout(prev, xs, k), if k == 0 then At(xs, 1) else head, Without(xs, k))
  {
    var ys, next', prev' := Without(xs, k), NextWithout(next, xs, k), PrevWithout(prev, xs, k);
    forall i | 0 <= i < |ys| ensures NodeOk(next', prev', ys, i) {
      assert NodeOk(next, prev, xs, if i < k then i else i + 1);
    }
  }

  lemma InsertLinked(next: Links, prev: Links, head: Option<Id>, xs: seq<Id>, x: Id)
    requires Linked(next, prev, head, xs) && x !in xs && x in prev && prev[x] == None
    ensures Linked(next[x := head], if head.Some? then prev[head.value := Some(x)] else prev, Some(x), [x] + xs)
  {
    var ys, next', prev' := [x] + xs, next[x := head], if head.Some? then prev[head.value := Some(x)] else prev;
    forall i | 0 <= i < |ys| ensures NodeOk(next', prev', ys, i) {
      if i > 0 {
        assert NodeOk(next, prev, xs, i - 1);
      }
    }
  }

  /** Changing links of slabs outside a list does not affect it. */
  lemma LinkedFrame(next: Links, prev: Links, next': Links, prev': Links, head: Option<Id>, xs: seq<Id>)
    requires Linked(next, prev, head, xs)
    requires forall x :: x in xs ==> x in next && x in prev && x in next' && x in prev' && next'[x] == next[x] && prev'[x] == prev[x]
    ensures Linked(next', prev', head, xs)
  {
    forall i | 0 <= i < |xs| ensures NodeOk(next', prev', xs, i) {
      assert NodeOk(next, prev, xs, i);
    }
  }

  type Heads = map<Bucket, Option<Id>>
  type Lists = map<Bucket, seq<Id>>

  ghost predicate Apart(lists: Lists, b: Bucket, c: Bucket)
    requires b in lists && c in lists
  {
    b != c ==> forall x :: x in lists[b] ==> x !in lists[c]
  }

  ghost predicate ListOk(next: Links, prev: Links, heads: Heads, lists: Lists, b: Bucket) {
    b in heads && b in lists && Linked(next, prev, heads[b], lists[b])
  }

  ghost predicate ListsOk(next: Links, prev: Links, heads: Heads, lists: Lists) {
    && (forall b {:trigger ListOk(next, prev, heads, lists, b)} :: IsBucket(b) ==> ListOk(next, prev, heads, lists, b))
    && (forall b, c {:trigger Apart(lists, b, c)} :: b in lists && c in lists ==> Apart(lists, b, c))
    && (forall b {:trigger IsBucket(b)} :: b in lists ==> IsBucket(b))
  }

  lemma RemoveKeepsLists(next: Links, prev: Links, heads: Heads, lists: Lists, b: Bucket, k: nat)
    requires ListsOk(next, prev, heads, lists) && b in lists && k < |lists[b]|
    ensures b in heads
    ensures ListsOk(NextWithout(next, lists[b], k), PrevWithout(prev, lists[b], k),
                    if k == 0 then heads[b := At(lists[b], 1)] else heads, lists[b := Without(lists[b], k)])
  {
    var xs := lists[b];
    assert ListOk(next, prev, heads, lists, b);
    var next', prev', heads', lists' := NextWithout(next, xs, k), PrevWithout(prev, xs, k),
                                        if k == 0 then heads[b := At(xs, 1)] else heads, lists[b := Without(xs, k)];
    forall c | IsBucket(c) ensures ListOk(next', prev', heads', lists', c) {
      assert ListOk(next, prev, heads, lists, c);
      if c == b {
        RemoveLinked(next, prev, heads[b], xs, k);
      } else {
        assert Apart(lists, c, b);
        forall x | x in lists[c] ensures x in next && x in prev && x in next' && x in prev' && next'[x] == next[x] && prev'[x] == prev[x] {
          var i :| 0 <= i < |lists[c]| && lists[c][i] == x;
          assert NodeOk(next, prev, lists[c], i);
        }
        LinkedFrame(next, prev, next', prev', heads[c], lists[c]);
      }
    }
    forall c, d | c in lists' && d in lists' ensures Apart(lists', c, d) {
      assert Apart(lists, c, d);
    }
  }

  lemma InsertKeepsLists(next: Links, prev: Links, heads: Heads, lists: Lists, b: Bucket, x: Id)
    requires ListsOk(next, prev, heads, lists) && IsBucket(b) && x in prev && prev[x] == None
    requires forall c :: c in lists ==> x !in lists[c]
    ensures b in heads && b in lists
    ensures ListsOk(next[x := heads[b]], if heads[b].Some? then prev[heads[b].value := Some(x)] else prev,
                    heads[b := Some(x)], lists[b := [x] + lists[b]])
  {
    assert ListOk(next, prev, heads, lists, b);
    var head, xs := heads[b], lists[b];
    var next', prev' := next[x := head], if head.Some? then prev[head.value := Some(x)] else prev;
    var heads', lists' := heads[b := Some(x)], lists[b := [x] + xs];
    forall c | IsBucket(c) ensures ListOk(next', prev', heads', lists', c) {
      assert ListOk(next, prev, heads, lists, c);
      if c == b {
        InsertLinked(next, prev, head, xs, x);
      } else {
        assert Apart(lists, c, b);
        forall y | y in lists[c] ensures y in next && y in prev && y in next' && y in prev' && next'[y] == next[y] && prev'[y] == prev[y] {
          var i :| 0 <= i < |lists[c]| && lists[c][i] == y;
          assert NodeOk(next, prev, lists[c], i);
        }
        LinkedFrame(next, prev, next', prev', heads[c], lists[c]);
      }
    }
    forall c, d | c in lists' && d in lists' ensures Apart(lists', c, d) {
      assert Apart(lists, c, d);
    }
  }
}
