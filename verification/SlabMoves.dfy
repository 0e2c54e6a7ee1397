/**
 The steps that move slabs out of and between lists: filling up, a pop into a magazine, a flush of
 one, the release of an empty slab and the creation of a fresh one.
 */
module SlabMoves {

  import opened Wrappers
  import opened Counting
  import opened SlabProtocol
  import opened SlabInvariant

  /** The last slot of the magazine's head goes out: the slab leaves the list before the head pointer moves. */
  ghost predicate FillUp(s: State, s': State, w: Own, w': Own, t: nat, c: nat, x: Id) {
    && t in s.cpus && s.cpus[t].Claimed? && s.cpus[t].cls == c && s.cpus[t].head == x && x in s.slabs
    && x in w.place && w.place[x] == Listed(InMag(t, c))
    && ListOf(w, InMag(t, c)) != [] && ListOf(w, InMag(t, c))[0] == x
    && s.slabs[x].count + 1 == s.slabs[x].max
    && s' == SlabStep(s, t, x, s.slabs[x].(count := s.slabs[x].count + 1), Unlinking(c, x, s.cpus[t].next, s.cpus[t].slot))
    && w' == Own(w.lists[InMag(t, c) := ListOf(w, InMag(t, c))[1..]], w.place[x := Unlisted])
  }

  lemma FillUpSlabs(s: State, s': State, w: Own, w': Own, t: nat, c: nat, x: Id)
    requires SlabsOk(s, w) && FillUp(s, s', w, w', t, c, x)
    ensures SlabsOk(s', w')
  {
    OtherCounts(s, w, t, s'.cpus[t], x);
    CpusUpdate(s.cpus, t, s'.cpus[t], x);
    forall y | y in s'.slabs ensures SlabOk(s', w', y) {
      assert SlabOk(s, w, y);
      if y != x {
        assert w.place[y] == Listed(InMag(t, c)) ==> y in ListOf(w', InMag(t, c));
        SlabKept(s, s', w, w', y);
      }
    }
  }

  lemma FillUpCpus(s: State, s': State, w: Own, w': Own, t: nat, c: nat, x: Id)
    requires CpusOk(s, w) && HoldsApart(s) && FillUp(s, s', w, w', t, c, x)
    ensures CpusOk(s', w') && HoldsApart(s')
  {
    forall u | u in s'.cpus ensures CpuOk(s', w', u, s'.cpus[u]) {
      assert CpuOk(s, w, u, s.cpus[u]);
      if u != t {
        CpuKept(s, s', w, w', u, s.cpus[u]);
      }
    }
    forall a, b | a in s'.cpus && b in s'.cpus && a != b ensures Apart(s'.cpus[a], s'.cpus[b]) {
      assert Apart(s.cpus[a], s.cpus[b]);
    }
  }

  lemma FillUpLists(s: State, s': State, w: Own, w': Own, t: nat, c: nat, x: Id)
    requires ListsOk(s, w) && CpusOk(s, w) && FillUp(s, s', w, w', t, c, x)
    ensures ListsOk(s', w')
  {
    var xs := ListOf(w, InMag(t, c));
    assert CpuOk(s, w, t, s.cpus[t]);
    forall l: ListId ensures ListOk(s', w', l) {
      assert ListOk(s, w, l);
      if l == InMag(t, c) {
        LinkedTail(s.chainNext, ViewHead(s, t, c), xs);
      } else {
        ListKept(s, s', w, w', l);
      }
    }
  }

  // A whole list changes its place: a pop into a magazine, or a flush of one.

  function Renamed(w: Own, from: ListId, to: ListId): Own {
    Own(w.lists[to := ListOf(w, from)][from := []],
        map x | x in w.place :: if w.place[x] == Listed(from) then Listed(to) else w.place[x])
  }

  ghost predicate Moves(s: State, s': State, w: Own, from: ListId, to: ListId, t: nat) {
    && t in s.cpus && t in s'.cpus && s'.cpus == s.cpus[t := s'.cpus[t]] && from != to && ListOf(w, to) == []
    && s'.slabs == s.slabs && s'.chainNext == s.chainNext && s'.domainOf == s.domainOf
    && Held(s.cpus[t]).None? && Held(s'.cpus[t]).None?
    && !s.cpus[t].Subtracting? && !s.cpus[t].Publishing? && !s'.cpus[t].Subtracting? && !s'.cpus[t].Publishing?
  }

  lemma MoveSlab(s: State, s': State, w: Own, from: ListId, to: ListId, t: nat, y: Id)
    requires Moves(s, s', w, from, to, t) && y in s.slabs && SlabOk(s, w, y)
    requires Fits(s.domainOf, from, s.slabs[y]) ==> Fits(s.domainOf, to, s.slabs[y])
    ensures SlabOk(s', Renamed(w, from, to), y)
  {
    var w' := Renamed(w, from, to);
    assert CountOk(s'.cpus, s.slabs[y], y) by {
      CpusUpdate(s.cpus, t, s'.cpus[t], y);
    }
    if w.place[y] != Listed(from) {
      SlabKept(s, s', w, w', y);
    }
  }

  lemma MoveSlabs(s: State, s': State, w: Own, from: ListId, to: ListId, t: nat)
    requires SlabsOk(s, w) && Moves(s, s', w, from, to, t)
    requires forall b: Slab :: Fits(s.domainOf, from, b) ==> Fits(s.domainOf, to, b)
    ensures SlabsOk(s', Renamed(w, from, to))
  {
    forall y | y in s'.slabs ensures SlabOk(s', Renamed(w, from, to), y) {
      MoveSlab(s, s', w, from, to, t, y);
    }
  }

  lemma MoveCpus(s: State, s': State, w: Own, from: ListId, to: ListId, t: nat)
    requires CpusOk(s, w) && HoldsApart(s) && Moves(s, s', w, from, to, t)
    requires (from.InMag? ==> from.cpu == t) && (to.InMag? ==> to.cpu == t)
    requires CpuOk(s', Renamed(w, from, to), t, s'.cpus[t])
    ensures CpusOk(s', Renamed(w, from, to)) && HoldsApart(s')
  {
    var w' := Renamed(w, from, to);
    forall u | u in s'.cpus ensures CpuOk(s', w', u, s'.cpus[u]) {
      assert CpuOk(s, w, u, s.cpus[u]);
      if u != t {
        CpuKept(s, s', w, w', u, s.cpus[u]);
      }
    }
  }

  ghost predicate Pops(s: State, s': State, t: nat, c: nat) {
    && t in s.cpus && t in s.domainOf && s.cpus[t] == AtTop(c) && MagOf(s, t, c).depth == 0
    && var d := s.domainOf[t];
    var stack := StackOf(s, d, c);
    stack != [] && var top := stack[|stack| - 1];
    s' == At(s.(stacks := s.stacks[StackId(d, c) := stack[..|stack| - 1]],
                mags := s.mags[MagId(t, c) := Magazine(top.head, top.depth)]), t, Draining(c))
  }

  lemma PopKeepsList(s: State, s': State, w: Own, t: nat, c: nat, from: ListId, l: ListId)
    requires ListOk(s, w, l) && Pops(s, s', t, c) && l != from && l != InMag(t, c)
    requires from == InChain(s.domainOf[t], c, |StackOf(s, s.domainOf[t], c)| - 1)
    ensures ListOk(s', Renamed(w, from, InMag(t, c)), l)
  {
    assert MembersOk(w, l, ListOf(w, l)) && AnchorOk(s, l, ListOf(w, l));
    ListKept(s, s', w, Renamed(w, from, InMag(t, c)), l);
  }

  lemma PopLists(s: State, s': State, w: Own, t: nat, c: nat, from: ListId)
    requires ListsOk(s, w) && Pops(s, s', t, c)
    requires from == InChain(s.domainOf[t], c, |StackOf(s, s.domainOf[t], c)| - 1)
    ensures ListsOk(s', Renamed(w, from, InMag(t, c))) && ListOf(w, from) != [] && ListOf(w, InMag(t, c)) == []
  {
    var w' := Renamed(w, from, InMag(t, c));
    assert ListOk(s, w, from) && ListOk(s, w, InMag(t, c));
    forall l: ListId ensures ListOk(s', w', l) {
      assert ListOk(s, w, l);
      if l != from && l != InMag(t, c) {
        PopKeepsList(s, s', w, t, c, from, l);
      }
    }
  }

  lemma PopKeeps(s: State, s': State, w: Own, t: nat, c: nat) returns (w': Own)
    requires Inv(s, w) && Pops(s, s', t, c)
    ensures Inv(s', w')
    ensures OtherMagazines(w, w', t)
  {
    var from := InChain(s.domainOf[t], c, |StackOf(s, s.domainOf[t], c)| - 1);
    w' := Renamed(w, from, InMag(t, c));
    PopLists(s, s', w, t, c, from);
    MoveSlabs(s, s', w, from, InMag(t, c), t);
    MoveCpus(s, s', w, from, InMag(t, c), t);
  }

  ghost predicate Flushes(s: State, s': State, t: nat, c: nat) {
    && t in s.cpus && t in s.domainOf && s.cpus[t] == Flushing(c)
    && var d, m := s.domainOf[t], MagOf(s, t, c);
    s' == At(s.(stacks := s.stacks[StackId(d, c) := StackOf(s, d, c) + [Chain(m.head, m.depth)]],
                mags := s.mags[MagId(t, c) := Magazine(None, 0)]), t, Idle)
  }

  lemma FlushKeepsList(s: State, s': State, w: Own, t: nat, c: nat, to: ListId, l: ListId)
    requires ListOk(s, w, l) && Flushes(s, s', t, c) && l != to && l != InMag(t, c)
    requires to == InChain(s.domainOf[t], c, |StackOf(s, s.domainOf[t], c)|)
    ensures ListOk(s', Renamed(w, InMag(t, c), to), l)
  {
    assert MembersOk(w, l, ListOf(w, l)) && AnchorOk(s, l, ListOf(w, l));
    ListKept(s, s', w, Renamed(w, InMag(t, c), to), l);
  }

  lemma FlushLists(s: State, s': State, w: Own, t: nat, c: nat, to: ListId)
    requires ListsOk(s, w) && Flushes(s, s', t, c) && ListOf(w, InMag(t, c)) != []
    requires to == InChain(s.domainOf[t], c, |StackOf(s, s.domainOf[t], c)|)
    ensures ListsOk(s', Renamed(w, InMag(t, c), to)) && ListOf(w, to) == []
  {
    var w' := Renamed(w, InMag(t, c), to);
    assert ListOk(s, w, to) && ListOk(s, w, InMag(t, c));
    forall l: ListId ensures ListOk(s', w', l) {
      assert ListOk(s, w, l);
      if l != to && l != InMag(t, c) {
        FlushKeepsList(s, s', w, t, c, to, l);
      }
    }
  }

  lemma FlushKeeps(s: State, s': State, w: Own, t: nat, c: nat) returns (w': Own)
    requires Inv(s, w) && Flushes(s, s', t, c)
    ensures Inv(s', w')
    ensures OtherMagazines(w, w', t)
  {
    var to := InChain(s.domainOf[t], c, |StackOf(s, s.domainOf[t], c)|);
    w' := Renamed(w, InMag(t, c), to);
    assert CpuOk(s, w, t, s.cpus[t]);
    FlushLists(s, s', w, t, c, to);
    MoveSlabs(s, s', w, InMag(t, c), to, t);
    MoveCpus(s, s', w, InMag(t, c), to, t);
  }

  // An empty slab goes back to the page allocator.

  /** A slab in a magazine that counts no slots has all of them free, and no CPU has any business with it. */
  lemma EmptyIsUnused(s: State, w: Own, t: nat, x: Id)
    requires Inv(s, w) && t in s.cpus && s.cpus[t].Draining? && x in s.slabs && s.slabs[x].count == 0
    requires w.place[x] == Listed(InMag(t, s.cpus[t].cls))
    ensures s.slabs[x].free == Upto(s.slabs[x].max) && s.slabs[x].live == {}
    ensures forall u :: u in s.cpus ==> Held(s.cpus[u]).None? || Held(s.cpus[u]).value.slab != x
    ensures forall u :: u in s.cpus ==> s.cpus[u] != Subtracting(x) && s.cpus[u] != Publishing(x)
  {
    var b := s.slabs[x];
    assert SlabOk(s, w, x);
    forall u | u in Claims(s.cpus, x) ensures false {
      HeadIsListed(s, w, u);
    }
    assert Claims(s.cpus, x) == {};
    UptoSize(b.max);
    SubsetSize(b.free, Upto(b.max));
    forall u | u in s.cpus
      ensures (Held(s.cpus[u]).None? || Held(s.cpus[u]).value.slab != x) && s.cpus[u] != Subtracting(x) && s.cpus[u] != Publishing(x)
    {
      assert CpuOk(s, w, u, s.cpus[u]);
      assert Subs(s.cpus, x) == {};
      assert u !in Subs(s.cpus, x);
    }
  }

  ghost predicate Reclaims(s: State, s': State, w: Own, w': Own, t: nat, c: nat, x: Id) {
    && t in s.cpus && s.cpus[t] == Draining(c) && MagOf(s, t, c).head == Some(x) && MagOf(s, t, c).depth > 1
    && x in s.slabs && s.slabs[x].count == 0 && ListOf(w, InMag(t, c)) != [] && ListOf(w, InMag(t, c))[0] == x
    && s' == s.(slabs := s.slabs - {x}, mags := s.mags[MagId(t, c) := Magazine(ChainNext(s, Some(x)), MagOf(s, t, c).depth - 1)])
    && w' == Own(w.lists[InMag(t, c) := ListOf(w, InMag(t, c))[1..]], w.place - {x})
  }

  lemma ReclaimSlabs(s: State, s': State, w: Own, w': Own, t: nat, c: nat, x: Id)
    requires SlabsOk(s, w) && Reclaims(s, s', w, w', t, c, x)
    ensures SlabsOk(s', w')
  {
    forall y | y in s'.slabs ensures SlabOk(s', w', y) {
      assert SlabOk(s, w, y);
      assert w.place[y] == Listed(InMag(t, c)) ==> y in ListOf(w', InMag(t, c));
      SlabKept(s, s', w, w', y);
    }
  }

  lemma ReclaimCpus(s: State, s': State, w: Own, w': Own, t: nat, c: nat, x: Id)
    requires CpusOk(s, w) && HoldsApart(s) && Reclaims(s, s', w, w', t, c, x) && |ListOf(w, InMag(t, c))| > 1
    requires forall u :: u in s.cpus ==> Held(s.cpus[u]).None? || Held(s.cpus[u]).value.slab != x
    requires forall u :: u in s.cpus ==> s.cpus[u] != Subtracting(x) && s.cpus[u] != Publishing(x)
    ensures CpusOk(s', w') && HoldsApart(s')
  {
    forall u | u in s'.cpus ensures CpuOk(s', w', u, s'.cpus[u]) {
      assert CpuOk(s, w, u, s.cpus[u]);
      if u != t {
        CpuKept(s, s', w, w', u, s.cpus[u]);
      }
    }
  }

  lemma ReclaimLists(s: State, s': State, w: Own, w': Own, t: nat, c: nat, x: Id)
    requires ListsOk(s, w) && Reclaims(s, s', w, w', t, c, x)
    ensures ListsOk(s', w')
  {
    assert ListOk(s, w, InMag(t, c));
    forall l: ListId ensures ListOk(s', w', l) {
      assert ListOk(s, w, l);
      if l == InMag(t, c) {
        LinkedTail(s.chainNext, ViewHead(s, t, c), ListOf(w, l));
      } else {
        ListKept(s, s', w, w', l);
      }
    }
  }

  lemma ReclaimKeeps(s: State, s': State, w: Own, t: nat, c: nat, x: Id) returns (w': Own)
    requires Inv(s, w) && t in s.cpus && s.cpus[t] == Draining(c) && MagOf(s, t, c).head == Some(x)
    requires MagOf(s, t, c).depth > 1 && x in s.slabs && s.slabs[x].count == 0
    requires s' == s.(slabs := s.slabs - {x},
                      mags := s.mags[MagId(t, c) := Magazine(ChainNext(s, Some(x)), MagOf(s, t, c).depth - 1)])
    ensures Inv(s', w')
    ensures OtherMagazines(w, w', t)
  {
    assert ListOk(s, w, InMag(t, c)) && AnchorOk(s, InMag(t, c), ListOf(w, InMag(t, c)));
    w' := Own(w.lists[InMag(t, c) := ListOf(w, InMag(t, c))[1..]], w.place - {x});
    EmptyIsUnused(s, w, t, x);
    ReclaimSlabs(s, s', w, w', t, c, x);
    ReclaimCpus(s, s', w, w', t, c, x);
    ReclaimLists(s, s', w, w', t, c, x);
  }

  // A fresh slab.

  ghost predicate Creates(s: State, s': State, w: Own, w': Own, t: nat, c: nat, x: Id, max: nat) {
    && t in s.cpus && t in s.domainOf && s.cpus[t] == Creating(c) && x !in s.slabs && max >= 1 && ListOf(w, InMag(t, c)) == []
    && s' == At(s.(slabs := s.slabs[x := Slab(max, s.domainOf[t], c, Upto(max), {}, 0)],
                   chainNext := s.chainNext[x := None],
                   mags := s.mags[MagId(t, c) := Magazine(Some(x), 1)]), t, AtTop(c))
    && w' == Own(w.lists[InMag(t, c) := [x]], w.place[x := Listed(InMag(t, c))])
  }

  /** No CPU has any business with a slab that does not exist. */
  lemma NobodyAt(s: State, w: Own, x: Id)
    requires CpusOk(s, w) && x !in s.slabs
    ensures Claims(s.cpus, x) == {} && Subs(s.cpus, x) == {}
  {
    forall u | u in s.cpus ensures u !in Claims(s.cpus, x) && u !in Subs(s.cpus, x) {
      assert CpuOk(s, w, u, s.cpus[u]);
    }
  }

  lemma CreatedSlab(s: State, s': State, w: Own, w': Own, t: nat, c: nat, x: Id, max: nat)
    requires CpusOk(s, w) && Creates(s, s', w, w', t, c, x, max)
    ensures SlabOk(s', w', x)
  {
    NobodyAt(s, w, x);
    UptoSize(max);
    CpusUpdate(s.cpus, t, AtTop(c), x);
  }

  lemma CreateSlabs(s: State, s': State, w: Own, w': Own, t: nat, c: nat, x: Id, max: nat)
    requires SlabsOk(s, w) && CpusOk(s, w) && Creates(s, s', w, w', t, c, x, max)
    ensures SlabsOk(s', w')
  {
    forall y | y in s'.slabs ensures SlabOk(s', w', y) {
      if y == x {
        CreatedSlab(s, s', w, w', t, c, x, max);
      } else {
        assert SlabOk(s, w, y);
        assert CountOk(s'.cpus, s.slabs[y], y) by {
          CpusUpdate(s.cpus, t, AtTop(c), y);
        }
        SlabKept(s, s', w, w', y);
      }
    }
  }

  lemma CreateCpus(s: State, s': State, w: Own, w': Own, t: nat, c: nat, x: Id, max: nat)
    requires CpusOk(s, w) && HoldsApart(s) && Creates(s, s', w, w', t, c, x, max)
    ensures CpusOk(s', w') && HoldsApart(s')
  {
    forall u | u in s'.cpus ensures CpuOk(s', w', u, s'.cpus[u]) {
      assert CpuOk(s, w, u, s.cpus[u]);
      if u != t {
        CpuKept(s, s', w, w', u, s.cpus[u]);
      }
    }
  }

  lemma CreatedList(s: State, s': State, w: Own, w': Own, t: nat, c: nat, x: Id, max: nat)
    requires Creates(s, s', w, w', t, c, x, max)
    ensures ListOk(s', w', InMag(t, c))
  {
    assert ListOf(w', InMag(t, c)) == [x];
  }

  lemma CreateKeepsList(s: State, s': State, w: Own, w': Own, t: nat, c: nat, x: Id, max: nat, l: ListId)
    requires ListOk(s, w, l) && x !in w.place && Creates(s, s', w, w', t, c, x, max) && l != InMag(t, c)
    ensures ListOk(s', w', l)
  {
    assert MembersOk(w, l, ListOf(w, l)) && AnchorOk(s, l, ListOf(w, l));
    ListKept(s, s', w, w', l);
  }

  lemma CreateLists(s: State, s': State, w: Own, w': Own, t: nat, c: nat, x: Id, max: nat)
    requires ListsOk(s, w) && w.place.Keys == s.slabs.Keys && Creates(s, s', w, w', t, c, x, max)
    ensures ListsOk(s', w')
  {
    forall l: ListId ensures ListOk(s', w', l) {
      assert ListOk(s, w, l);
      if l == InMag(t, c) {
        CreatedList(s, s', w, w', t, c, x, max);
      } else {
        CreateKeepsList(s, s', w, w', t, c, x, max, l);
      }
    }
  }

  lemma CreateKeeps(s: State, s': State, w: Own, t: nat, x: Id, max: nat) returns (w': Own)
    requires Inv(s, w) && t in s.cpus && t in s.domainOf && s.cpus[t].Creating? && x !in s.slabs && max >= 1
    requires s' == RefillStep(s, Create(t, x, max))
    ensures Inv(s', w')
    ensures OtherMagazines(w, w', t)
  {
    var c := s.cpus[t].cls;
    assert CpuOk(s, w, t, s.cpus[t]);
    w' := Own(w.lists[InMag(t, c) := [x]], w.place[x := Listed(InMag(t, c))]);
    CreateSlabs(s, s', w, w', t, c, x, max);
    CreateCpus(s, s', w, w', t, c, x, max);
    CreateLists(s, s', w, w', t, c, x, max);
  }
}
