/**
 The race that the pre-read of chainNext is for does happen: a run in which a freer overwrites the link
 of a slab between the allocator's read of it and its use.
 */
module SlabRace {

  import opened Wrappers
  import opened Counting
  import opened SlabProtocol
  import opened SlabInvariant
  import opened SlabOwnership

  /** Two CPUs of one domain. */
  const DOMAINS := map[0 := 0, 1 := 0]

  /** The run leads to the state. The quantifier keeps runs from being unfolded where only states matter. */
  ghost predicate Reached(run: seq<Label>, s: State) {
    forall d {:trigger Exec(d, run)} :: d == DOMAINS ==> Exec(d, run) == Some(s)
  }

  lemma Extend(run: seq<Label>, s: State, l: Label) returns (run': seq<Label>, s': State)
    requires Reached(run, s) && Legal(s, l)
    ensures Reached(run', s') && s' == Apply(s, l)
  {
    run' := run + [l];
    s' := Apply(s, l);
    assert Exec(DOMAINS, run) == Some(s) && run'[..|run'| - 1] == run;
  }

  /** All but one CPU and one slab are as they were. */
  ghost predicate Others(s: State, s': State, t: nat, x: Id) {
    && s'.domainOf == s.domainOf && s'.stacks == s.stacks
    && (forall u :: u in s.cpus && u != t ==> u in s'.cpus && s'.cpus[u] == s.cpus[u])
    && (forall y :: y in s.slabs && y != x ==> y in s'.slabs && s'.slabs[y] == s.slabs[y])
  }

  ghost predicate Ready(s: State, t: nat) {
    t in s.domainOf && t in s.cpus && s.cpus[t] == Idle
  }

  /** vmsmalloc from a magazine: a slot of its head, up to the unlink if that was the last one. */
  lemma TakeSlot(run: seq<Label>, s: State, t: nat, c: nat, x: Id, slot: nat) returns (run': seq<Label>, s': State)
    requires Reached(run, s) && t in s.domainOf && t in s.cpus && s.cpus[t] == AtTop(c)
    requires MagOf(s, t, c).head == Some(x) && MagOf(s, t, c).depth > 0 && x in s.slabs && slot in s.slabs[x].free
    requires s.slabs[x].count < s.slabs[x].max
    ensures Reached(run', s') && Others(s, s', t, x) && s'.mags == s.mags && s'.chainNext == s.chainNext
    ensures t in s'.cpus && x in s'.slabs && s'.slabs.Keys == s.slabs.Keys
    ensures var b := s.slabs[x]; var last := b.count + 1 == b.max;
      && s'.slabs[x] == b.(free := b.free - {slot}, count := b.count + 1, live := if last then b.live else b.live + {slot})
      && s'.cpus[t] == if last then Unlinking(c, x, ChainNext(s, Some(x)), slot) else Idle
  {
    var s1, s2;
    run', s1 := Extend(run, s, PreRead(t));
    run', s2 := Extend(run', s1, Claim(t, slot));
    run', s' := Extend(run', s2, CountUp(t));
  }

  lemma Start(run: seq<Label>, s: State, t: nat, c: nat) returns (run': seq<Label>, s': State)
    requires Reached(run, s) && Ready(s, t)
    ensures Reached(run', s') && s' == At(s, t, AtTop(c))
  {
    run', s' := Extend(run, s, StartAlloc(t, c));
  }

  /** vmsmalloc with nothing to allocate from: a fresh slab of two slots. */
  lemma Refill(run: seq<Label>, s: State, t: nat, x: Id) returns (run': seq<Label>, s': State)
    requires Reached(run, s) && t in s.domainOf && s.domainOf[t] == 0 && t in s.cpus && s.cpus[t] == AtTop(0)
    requires MagOf(s, t, 0).depth == 0 && StackOf(s, 0, 0) == [] && x !in s.slabs
    ensures Reached(run', s') && Others(s, s', t, x) && t in s'.cpus && s'.cpus[t] == AtTop(0)
    ensures x in s'.slabs && s'.slabs[x] == Slab(2, 0, 0, {0, 1}, {}, 0)
    ensures s'.mags == s.mags[MagId(t, 0) := Magazine(Some(x), 1)] && s'.chainNext == s.chainNext[x := None]
    ensures s'.slabs.Keys == s.slabs.Keys + {x}
  {
    var s1;
    run', s1 := Extend(run, s, Pop(t));
    assert Upto(2) == {0, 1};
    run', s' := Extend(run', s1, Create(t, x, 2));
  }

  /** vmsfree of a slot of a full slab, up to the publish. */
  lemma FreeSlot(run: seq<Label>, s: State, t: nat, x: Id, slot: nat) returns (run': seq<Label>, s': State)
    requires Reached(run, s) && Ready(s, t) && x in s.slabs && slot in s.slabs[x].live
    requires s.slabs[x].count == s.slabs[x].max
    ensures Reached(run', s') && Others(s, s', t, x) && s'.mags == s.mags && s'.chainNext == s.chainNext
    ensures t in s'.cpus && s'.cpus[t] == Publishing(x) && x in s'.slabs
    ensures var b := s.slabs[x];
      s'.slabs[x] == b.(live := b.live - {slot}, free := b.free + {slot}, count := b.count - 1)
  {
    var s1, s2;
    run', s1 := Extend(run, s, StartFree(t, x, slot));
    run', s2 := Extend(run', s1, Release(t));
    run', s' := Extend(run', s2, CountDown(t));
  }

  /** The slab goes to the freer's magazine. */
  lemma PublishSlab(run: seq<Label>, s: State, t: nat, x: Id) returns (run': seq<Label>, s': State)
    requires Reached(run, s) && t in s.domainOf && s.domainOf[t] == 0 && t in s.cpus && s.cpus[t] == Publishing(x)
    requires x in s.slabs && s.slabs[x].home == 0 && s.slabs[x].cls == 0 && MagOf(s, t, 0).depth < 2
    ensures Reached(run', s') && Others(s, s', t, x) && Ready(s', t) && s'.slabs == s.slabs
    ensures s'.mags == s.mags[MagId(t, 0) := Magazine(Some(x), MagOf(s, t, 0).depth + 1)]
    ensures s'.chainNext == s.chainNext[x := MagOf(s, t, 0).head]
  {
    run', s' := Extend(run, s, Publish(t, 3));
  }

  /** What the story below needs to know of CPU 1: it has done nothing yet. */
  ghost predicate Quiet(s: State) {
    s.domainOf == DOMAINS && s.stacks == map[] && 0 in s.cpus && Ready(s, 1) && MagOf(s, 1, 0) == Magazine(None, 0)
  }

  /** The slabs of the story and CPU 0's magazine. */
  ghost predicate Shows(s: State, x: Id, b: Slab, head: Option<Id>, depth: nat) {
    x in s.slabs && s.slabs[x] == b && MagOf(s, 0, 0) == Magazine(head, depth)
  }

  lemma Boot() returns (s: State)
    ensures Reached([], s) && Quiet(s) && s.cpus[0] == Idle && s.slabs == map[] && s.mags == map[]
  {
    s := State(DOMAINS, map[], map[], map[], map[], map t | t in DOMAINS :: Idle);
  }

  /** CPU 0 fetches a fresh slab. */
  lemma NewSlab(run: seq<Label>, s: State, x: Id) returns (run': seq<Label>, s': State)
    requires Reached(run, s) && Quiet(s) && s.cpus[0] == Idle && x !in s.slabs && MagOf(s, 0, 0) == Magazine(None, 0)
    ensures Reached(run', s') && Quiet(s') && s'.cpus[0] == AtTop(0) && Others(s, s', 0, x)
    ensures Shows(s', x, Slab(2, 0, 0, {0, 1}, {}, 0), Some(x), 1)
    ensures s'.slabs.Keys == s.slabs.Keys + {x} && x in s'.chainNext && ChainNext(s', Some(x)) == None
  {
    var s1;
    run', s1 := Start(run, s, 0, 0);
    run', s' := Refill(run', s1, 0, x);
  }

  /** CPU 0 takes one slot of slab 20. */
  lemma HalfFilledSlab() returns (run: seq<Label>, s: State)
    ensures Reached(run, s) && Quiet(s) && s.cpus[0] == Idle && s.slabs.Keys == {20} && ChainNext(s, Some(20)) == None
    ensures Shows(s, 20, Slab(2, 0, 0, {1}, {0}, 1), Some(20), 1)
  {
    var s0 := Boot();
    var s1;
    run, s1 := NewSlab([], s0, 20);
    run, s := TakeSlot(run, s1, 0, 0, 20, 0);
    assert s.slabs[20].free == {1} && s.slabs[20].live == {0};
  }

  /** CPU 0 fills slab 20, which leaves its magazine empty. */
  lemma FilledSlab() returns (run: seq<Label>, s: State)
    ensures Reached(run, s) && Quiet(s) && s.cpus[0] == Unlinking(0, 20, None, 1)
    ensures Shows(s, 20, Slab(2, 0, 0, {}, {0}, 2), Some(20), 1) && s.slabs.Keys == {20}
  {
    var s1, s2;
    run, s1 := HalfFilledSlab();
    run, s2 := Start(run, s1, 0, 0);
    run, s := TakeSlot(run, s2, 0, 0, 20, 1);
    assert s.slabs[20].free == {} && s.slabs[20].live == {0};
  }

  lemma UnlinkedSlab() returns (run: seq<Label>, s: State)
    ensures Reached(run, s) && Quiet(s) && s.cpus[0] == Idle
    ensures Shows(s, 20, Slab(2, 0, 0, {}, {0, 1}, 2), None, 0) && s.slabs.Keys == {20}
  {
    var s1;
    run, s1 := FilledSlab();
    run, s := Extend(run, s1, Unlink(0));
    assert s.slabs[20].live == {0, 1};
  }

  /** It goes on with a second slab, 10. */
  lemma SecondSlab() returns (run: seq<Label>, s: State)
    ensures Reached(run, s) && Quiet(s) && s.cpus[0] == Idle && 10 in s.slabs
    ensures Shows(s, 20, Slab(2, 0, 0, {}, {0, 1}, 2), Some(10), 1) && ChainNext(s, Some(10)) == None && 10 in s.chainNext
  {
    var s1, s2;
    run, s1 := UnlinkedSlab();
    run, s2 := NewSlab(run, s1, 10);
    run, s := TakeSlot(run, s2, 0, 0, 10, 0);
  }

  /** A free on CPU 0 puts slab 20 in front of slab 10. */
  lemma BothListed() returns (run: seq<Label>, s: State)
    ensures Reached(run, s) && Quiet(s) && s.cpus[0] == Idle && 10 in s.slabs
    ensures Shows(s, 20, Slab(2, 0, 0, {0}, {1}, 1), Some(20), 2)
    ensures ChainNext(s, Some(20)) == Some(10) && 10 in s.chainNext && ChainNext(s, Some(10)) == None
  {
    var s1, s2;
    run, s1 := SecondSlab();
    run, s2 := FreeSlot(run, s1, 0, 20, 0);
    assert s2.slabs[20].free == {0} && s2.slabs[20].live == {1};
    run, s := PublishSlab(run, s2, 0, 20);
  }

  /** The next allocation fills slab 20 again; CPU 0 has read its successor and is about to move its head there. */
  lemma ReadyToUnlink() returns (run: seq<Label>, s: State)
    ensures Reached(run, s) && Quiet(s) && s.cpus[0] == Unlinking(0, 20, Some(10), 0) && 10 in s.slabs
    ensures Shows(s, 20, Slab(2, 0, 0, {}, {1}, 2), Some(20), 2) && 10 in s.chainNext && ChainNext(s, Some(10)) == None
  {
    var s1, s2;
    run, s1 := BothListed();
    run, s2 := Start(run, s1, 0, 0);
    run, s := TakeSlot(run, s2, 0, 0, 20, 0);
    assert s.slabs[20].free == {};
  }

  /** CPU 1 frees a slot of slab 20 and publishes it in its own magazine. */
  lemma Overwritten() returns (run: seq<Label>, s: State)
    ensures Reached(run, s) && 0 in s.cpus && s.cpus[0] == Unlinking(0, 20, Some(10), 0) && 1 in s.cpus && s.cpus[1] == Idle
    ensures MagOf(s, 0, 0) == Magazine(Some(20), 2) && MagOf(s, 1, 0) == Magazine(Some(20), 1)
    ensures 10 in s.chainNext && s.chainNext[10] == None && 20 in s.chainNext && s.chainNext[20] == None
  {
    var s1, s2;
    run, s1 := ReadyToUnlink();
    run, s2 := FreeSlot(run, s1, 1, 20, 1);
    run, s := PublishSlab(run, s2, 1, 20);
  }

  lemma LastOfList(next: map<Id, Option<Id>>, x: Id)
    requires x in next
    ensures Follow(next, Some(x), 1) == Some([x])
  {
    assert Follow(next, next[x], 0) == Some([]);
    assert [x] + [] == [x];
  }

  /**
   Before CPU 0 moves its head past slab 20, CPU 1 frees a slot of it, overwrites its chainNext and has it
   in its own magazine. Reading the link again would now lose slab 10; the successor read before does not.
   */
  lemma FreerOverwritesLink() returns (run: seq<Label>, s: State)
    ensures Exec(DOMAINS, run) == Some(s) && 0 in s.cpus && s.cpus[0] == Unlinking(0, 20, Some(10), 0)
    ensures MagOf(s, 0, 0) == Magazine(Some(20), 2) && ChainNext(s, Some(20)) == None
    ensures Contents(s, InMag(0, 0)) == Some([10]) && Contents(s, InMag(1, 0)) == Some([20])
  {
    run, s := Overwritten();
    assert Exec(DOMAINS, run) == Some(s);
    LastOfList(s.chainNext, 10);
    LastOfList(s.chainNext, 20);
  }
}
