/**
 A full slab becomes available again: it leaves the state "full, on no list" with one freer, who
 publishes it in its own magazine or on the shared stack of the slab's home domain.
 */
module SlabPublish {

  import opened Wrappers
  import opened Counting
  import opened SlabProtocol
  import opened SlabInvariant
  import opened SlabMoves

  ghost predicate Departs(s: State, s': State, w: Own, w': Own, t: nat, x: Id) {
    && t in s.cpus && s.cpus[t] == Subtracting(x) && x in s.slabs && s.slabs[x].count == s.slabs[x].max
    && s' == SlabStep(s, t, x, s.slabs[x].(count := s.slabs[x].count - 1), Publishing(x))
    && w' == w.(place := w.place[x := Transit(t)])
  }

  lemma DepartKeeps(s: State, s': State, w: Own, w': Own, t: nat, x: Id)
    requires Inv(s, w) && Departs(s, s', w, w', t, x)
    ensures Inv(s', w')
  {
    assert SlabOk(s, w, x);
    DepartSlabs(s, s', w, w', t, x);
    DepartCpus(s, s', w, w', t, x);
    DepartLists(s, s', w, w', t, x);
  }

  lemma DepartSlabs(s: State, s': State, w: Own, w': Own, t: nat, x: Id)
    requires SlabsOk(s, w) && Departs(s, s', w, w', t, x)
    ensures SlabsOk(s', w')
  {
    assert SlabOk(s', w', x) by {
      assert SlabOk(s, w, x);
      CpusUpdate(s.cpus, t, Publishing(x), x);
    }
    OtherCounts(s, w, t, Publishing(x), x);
    forall y | y in s.slabs && y != x ensures SlabOk(s', w', y) {
      assert SlabOk(s, w, y);
      SlabKept(s, s', w, w', y);
    }
  }

  lemma DepartCpus(s: State, s': State, w: Own, w': Own, t: nat, x: Id)
    requires CpusOk(s, w) && HoldsApart(s) && Departs(s, s', w, w', t, x) && x in w.place && w.place[x].Unlisted?
    ensures CpusOk(s', w') && HoldsApart(s')
  {
    forall u | u in s'.cpus ensures CpuOk(s', w', u, s'.cpus[u]) {
      assert CpuOk(s, w, u, s.cpus[u]);
      if u != t {
        CpuKept(s, s', w, w', u, s.cpus[u]);
      }
    }
  }

  lemma DepartLists(s: State, s': State, w: Own, w': Own, t: nat, x: Id)
    requires ListsOk(s, w) && Departs(s, s', w, w', t, x) && x in w.place && w.place[x].Unlisted?
    ensures ListsOk(s', w')
  {
    ViewKept(s, s', t);
    forall l: ListId ensures ListOk(s', w', l) {
      assert ListOk(s, w, l);
      ListKept(s, s', w, w', l);
    }
  }

  function Arrived(w: Own, x: Id, l: ListId): Own {
    Own(w.lists[l := [x] + ListOf(w, l)], w.place[x := Listed(l)])
  }

  /** A freer puts the slab it carries at the head of list l. */
  ghost predicate Arrives(s: State, s': State, w: Own, w': Own, t: nat, x: Id, l: ListId) {
    && t in s.cpus && t in s'.cpus && s.cpus[t] == Publishing(x) && x in s.slabs
    && s'.domainOf == s.domainOf && s'.slabs == s.slabs && s'.cpus == s.cpus[t := s'.cpus[t]]
    && (s'.cpus[t].Idle? || (s'.cpus[t].Flushing? && l == InMag(t, s'.cpus[t].cls)))
    && (l.InMag? ==> l.cpu == t) && Fits(s.domainOf, l, s.slabs[x])
    && x in s'.chainNext && s'.chainNext == s.chainNext[x := s'.chainNext[x]] && s'.chainNext[x] == First(ListOf(w, l))
    && w' == Arrived(w, x, l)
  }

  lemma ArriveSlabs(s: State, s': State, w: Own, w': Own, t: nat, x: Id, l: ListId)
    requires SlabsOk(s, w) && Arrives(s, s', w, w', t, x, l) && w.place[x] == Transit(t)
    ensures SlabsOk(s', w')
  {
    assert SlabOk(s', w', x) by {
      assert SlabOk(s, w, x);
      CpusUpdate(s.cpus, t, s'.cpus[t], x);
    }
    OtherCounts(s, w, t, s'.cpus[t], x);
    forall y | y in s.slabs && y != x ensures SlabOk(s', w', y) {
      assert SlabOk(s, w, y);
      SlabKept(s, s', w, w', y);
    }
  }

  lemma ArriveCpus(s: State, s': State, w: Own, w': Own, t: nat, x: Id, l: ListId)
    requires CpusOk(s, w) && HoldsApart(s) && Arrives(s, s', w, w', t, x, l) && x in w.place && w.place[x] == Transit(t)
    ensures CpusOk(s', w') && HoldsApart(s')
  {
    forall u | u in s'.cpus ensures CpuOk(s', w', u, s'.cpus[u]) {
      assert CpuOk(s, w, u, s.cpus[u]);
      if u != t {
        CpuKept(s, s', w, w', u, s.cpus[u]);
      }
    }
  }

  lemma ArriveAt(s: State, s': State, w: Own, w': Own, t: nat, x: Id, l: ListId)
    requires ListOk(s, w, l) && Arrives(s, s', w, w', t, x, l) && x in w.place && w.place[x] == Transit(t)
    requires Linked(s.chainNext, First(ListOf(w, l)), ListOf(w, l))
    ensures MembersOk(w', l, [x] + ListOf(w, l)) && Linked(s'.chainNext, Some(x), [x] + ListOf(w, l))
  {
    var xs := ListOf(w, l);
    assert x !in xs;
    assert ([x] + xs)[1..] == xs;
    forall i | 0 < i <= |xs| ensures ([x] + xs)[i + 1..] == xs[i..] {
    }
  }

  lemma PublishLocallyLists(s: State, s': State, w: Own, w': Own, t: nat, x: Id, c: nat)
    requires ListsOk(s, w) && Arrives(s, s', w, w', t, x, InMag(t, c)) && x in w.place && w.place[x] == Transit(t)
    requires s'.mags == s.mags[MagId(t, c) := Magazine(Some(x), MagOf(s, t, c).depth + 1)] && s'.stacks == s.stacks
    ensures ListsOk(s', w')
  {
    var own := InMag(t, c);
    assert ListOk(s, w, own) && AnchorOk(s, own, ListOf(w, own));
    ArriveAt(s, s', w, w', t, x, own);
    forall l: ListId ensures ListOk(s', w', l) {
      assert ListOk(s, w, l);
      if l != own {
        ListKept(s, s', w, w', l);
      }
    }
  }

  lemma PublishAcrossLists(s: State, s': State, w: Own, w': Own, t: nat, x: Id, d: nat, c: nat, k: nat)
    requires ListsOk(s, w) && Arrives(s, s', w, w', t, x, InChain(d, c, k)) && x in w.place && w.place[x] == Transit(t)
    requires s'.mags == s.mags && s'.cpus[t].Idle?
    requires var stack := StackOf(s, d, c);
      || (k == |stack| && s'.stacks == s.stacks[StackId(d, c) := stack + [Chain(Some(x), 1)]])
      || (k < |stack| && s'.stacks == s.stacks[StackId(d, c) := stack[k := Chain(Some(x), stack[k].depth + 1)]])
    ensures ListsOk(s', w')
  {
    var own := InChain(d, c, k);
    assert ListOk(s, w, own) && AnchorOk(s, own, ListOf(w, own));
    ArriveAt(s, s', w, w', t, x, own);
    ViewKept(s, s', t);
    forall l: ListId ensures ListOk(s', w', l) {
      assert ListOk(s, w, l);
      if l != own {
        ListKept(s, s', w, w', l);
      }
    }
  }

  lemma LocalArrival(s: State, s': State, w: Own, t: nat, x: Id, kmax: nat)
    requires t in s.cpus && s.cpus[t] == Publishing(x) && x in s.slabs && t in s.domainOf && s.slabs[x].home == s.domainOf[t]
    requires s' == PublishLocally(s, t, x, kmax) && MagOf(s, t, s.slabs[x].cls).head == First(ListOf(w, InMag(t, s.slabs[x].cls)))
    ensures var c := s.slabs[x].cls;
      Arrives(s, s', w, Arrived(w, x, InMag(t, c)), t, x, InMag(t, c)) && s'.stacks == s.stacks &&
      s'.mags == s.mags[MagId(t, c) := Magazine(Some(x), MagOf(s, t, c).depth + 1)]
  {
  }

  lemma PublishLocallyKeeps(s: State, s': State, w: Own, t: nat, x: Id, kmax: nat) returns (w': Own)
    requires Inv(s, w) && t in s.cpus && s.cpus[t] == Publishing(x) && x in s.slabs && t in s.domainOf
    requires s.slabs[x].home == s.domainOf[t] && s' == PublishLocally(s, t, x, kmax)
    ensures Inv(s', w')
    ensures OtherMagazines(w, w', t)
  {
    var own := InMag(t, s.slabs[x].cls);
    w' := Arrived(w, x, own);
    assert CpuOk(s, w, t, s.cpus[t]);
    assert MagOf(s, t, s.slabs[x].cls).head == First(ListOf(w, own)) by {
      assert ListOk(s, w, own) && AnchorOk(s, own, ListOf(w, own));
    }
    LocalArrival(s, s', w, t, x, kmax);
    ArriveSlabs(s, s', w, w', t, x, own);
    ArriveCpus(s, s', w, w', t, x, own);
    PublishLocallyLists(s, s', w, w', t, x, s.slabs[x].cls);
  }

  function AcrossIndex(s: State, x: Id, kmax: nat): nat
    requires x in s.slabs
  {
    var stack := StackOf(s, s.slabs[x].home, s.slabs[x].cls);
    if stack == [] || stack[|stack| - 1].depth >= kmax then |stack| else |stack| - 1
  }

  lemma AcrossArrival(s: State, s': State, w: Own, t: nat, x: Id, kmax: nat, k: nat)
    requires t in s.cpus && s.cpus[t] == Publishing(x) && x in s.slabs
    requires s' == PublishAcross(s, t, x, kmax) && k == AcrossIndex(s, x, kmax)
    requires var b := s.slabs[x]; var stack := StackOf(s, b.home, b.cls);
      First(ListOf(w, InChain(b.home, b.cls, k))) == if k < |stack| then stack[k].head else None
    ensures var b := s.slabs[x]; var stack := StackOf(s, b.home, b.cls);
      Arrives(s, s', w, Arrived(w, x, InChain(b.home, b.cls, k)), t, x, InChain(b.home, b.cls, k)) &&
      s'.mags == s.mags && s'.cpus[t].Idle? &&
      (|| (k == |stack| && s'.stacks == s.stacks[StackId(b.home, b.cls) := stack + [Chain(Some(x), 1)]])
       || (k < |stack| && s'.stacks == s.stacks[StackId(b.home, b.cls) := stack[k := Chain(Some(x), stack[k].depth + 1)]]))
  {
  }

  lemma PublishAcrossKeeps(s: State, s': State, w: Own, t: nat, x: Id, kmax: nat) returns (w': Own)
    requires Inv(s, w) && t in s.cpus && s.cpus[t] == Publishing(x) && x in s.slabs && s' == PublishAcross(s, t, x, kmax)
    ensures Inv(s', w')
    ensures OtherMagazines(w, w', t)
  {
    var b, k := s.slabs[x], AcrossIndex(s, x, kmax);
    var own := InChain(b.home, b.cls, k);
    w' := Arrived(w, x, own);
    assert CpuOk(s, w, t, s.cpus[t]) && ListOk(s, w, own) && AnchorOk(s, own, ListOf(w, own));
    AcrossArrival(s, s', w, t, x, kmax, k);
    ArriveSlabs(s, s', w, w', t, x, own);
    ArriveCpus(s, s', w, w', t, x, own);
    PublishAcrossLists(s, s', w, w', t, x, b.home, b.cls, k);
  }
}
