/**
 Slab ownership in vmsmalloc and vmsfree. Every CPU has a private magazine per size class, a list of
 slabs threaded through chainNext; every NUMA domain has a shared stack of such lists per class.
 CPUs interleave in any order, one atomic operation of the source being one step.

 The slot bitmap of a slab and the shared stacks are atomic objects. chainNext, the magazine head
 and depth, and the occupancy count are the source's own fields: a CPU that has made a slab full may
 find its chainNext overwritten by a freer before it has moved its own magazine head past it.
 */
module SlabProtocol {

  import opened Wrappers
  import opened Counting

  type Id = nat

  datatype Slab = Slab(
    max: nat,            // slots in circulation
    home: nat, cls: nat,
    free: set<nat>,      // set bits of the bitmap
    live: set<nat>,      // slots in the hands of callers
    count: int)          // allocatedCount

  datatype MagId = MagId(cpu: nat, cls: nat)
  datatype Magazine = Magazine(head: Option<Id>, depth: nat)
  datatype StackId = StackId(dom: nat, cls: nat)
  datatype Chain = Chain(head: Option<Id>, depth: nat)

  datatype PC =
    | Idle
    | AtTop(cls: nat)                                              // head of vmsmalloc's loop
    | HasNext(cls: nat, head: Id, next: Option<Id>)                // chainNext read, claim of a slot to come
    | Claimed(cls: nat, head: Id, next: Option<Id>, slot: nat)     // fetch_add of the count to come
    | Unlinking(cls: nat, head: Id, next: Option<Id>, slot: nat)   // became full; m.head = next to come
    | Draining(cls: nat)                                           // popped a chain; releasing empty heads
    | Creating(cls: nat)                                           // shared stack was empty
    | Freeing(slab: Id, slot: nat)                                 // release of the bit to come
    | Subtracting(slab: Id)                                        // fetch_sub of the count to come
    | Publishing(slab: Id)                                         // became available; publish to come
    | Flushing(cls: nat)                                           // magazine at its length; pushChain to come

  datatype State = State(
    domainOf: map<nat, nat>,
    slabs: map<Id, Slab>,
    chainNext: map<Id, Option<Id>>,
    mags: map<MagId, Magazine>,
    stacks: map<StackId, seq<Chain>>,                              // top chain last
    cpus: map<nat, PC>)

  function MagOf(s: State, cpu: nat, cls: nat): Magazine {
    if MagId(cpu, cls) in s.mags then s.mags[MagId(cpu, cls)] else Magazine(None, 0)
  }

  function StackOf(s: State, dom: nat, cls: nat): seq<Chain> {
    if StackId(dom, cls) in s.stacks then s.stacks[StackId(dom, cls)] else []
  }

  function ChainNext(s: State, x: Option<Id>): Option<Id> {
    if x.Some? && x.value in s.chainNext then s.chainNext[x.value] else None
  }

  datatype Label =
    | StartAlloc(cpu: nat, cls: nat)
    | PreRead(cpu: nat)
    | Claim(cpu: nat, slot: nat)
    | CountUp(cpu: nat)
    | Unlink(cpu: nat)
    | Pop(cpu: nat)
    | Drain(cpu: nat)
    | Create(cpu: nat, id: Id, max: nat)
    | StartFree(cpu: nat, id: Id, slot: nat)
    | Release(cpu: nat)
    | CountDown(cpu: nat)
    | Publish(cpu: nat, kmax: nat)
    | Flush(cpu: nat)

  predicate Legal(s: State, l: Label) {
    l.cpu in s.cpus && l.cpu in s.domainOf &&
    var pc := s.cpus[l.cpu];
    match l
    case StartAlloc(_, _) => pc.Idle?
    case PreRead(_) => pc.AtTop? && MagOf(s, l.cpu, pc.cls).depth > 0 && MagOf(s, l.cpu, pc.cls).head.Some?
    case Claim(_, slot) => pc.HasNext? && pc.head in s.slabs && slot in s.slabs[pc.head].free
    case CountUp(_) => pc.Claimed? && pc.head in s.slabs
    case Unlink(_) => pc.Unlinking? && pc.head in s.slabs && MagOf(s, l.cpu, pc.cls).depth > 0
    case Pop(_) => pc.AtTop? && MagOf(s, l.cpu, pc.cls).depth == 0
    case Drain(_) => pc.Draining? && MagOf(s, l.cpu, pc.cls).head.Some? && MagOf(s, l.cpu, pc.cls).head.value in s.slabs
    case Create(_, id, max) => pc.Creating? && id !in s.slabs && max >= 1
    case StartFree(_, id, slot) => pc.Idle? && id in s.slabs && slot in s.slabs[id].live
    case Release(_) => pc.Freeing? && pc.slab in s.slabs
    case CountDown(_) => pc.Subtracting? && pc.slab in s.slabs
    case Publish(_, _) => pc.Publishing? && pc.slab in s.slabs
    case Flush(_) => pc.Flushing?
  }

  function At(s: State, cpu: nat, pc: PC): State {
    s.(cpus := s.cpus[cpu := pc])
  }

  function PushChain(s: State, dom: nat, cls: nat, c: Chain): State {
    s.(stacks := s.stacks[StackId(dom, cls) := StackOf(s, dom, cls) + [c]])
  }

  /** A CPU's step that changes one slab. */
  function SlabStep(s: State, t: nat, x: Id, b: Slab, pc: PC): State {
    s.(slabs := s.slabs[x := b], cpus := s.cpus[t := pc])
  }

  /** vmsmalloc's part, by the step it is at. */
  function AllocStep(s: State, l: Label): State
    requires Legal(s, l) && (l.PreRead? || l.Claim? || l.CountUp? || l.Unlink?)
  {
    var t, pc := l.cpu, s.cpus[l.cpu];
    match l
    case PreRead(_) =>
      var head := MagOf(s, t, pc.cls).head;
      At(s, t, HasNext(pc.cls, head.value, ChainNext(s, head)))
    case Claim(_, slot) =>
      var b := s.slabs[pc.head];
      SlabStep(s, t, pc.head, b.(free := b.free - {slot}), Claimed(pc.cls, pc.head, pc.next, slot))
    case CountUp(_) =>
      var b := s.slabs[pc.head];
      if b.count + 1 >= b.max && b.count < b.max then
        SlabStep(s, t, pc.head, b.(count := b.count + 1), Unlinking(pc.cls, pc.head, pc.next, pc.slot))
      else
        SlabStep(s, t, pc.head, b.(count := b.count + 1, live := b.live + {pc.slot}), Idle)
    case Unlink(_) =>
      var b, m := s.slabs[pc.head], MagOf(s, t, pc.cls);
      SlabStep(s, t, pc.head, b.(live := b.live + {pc.slot}), Idle)
        .(mags := s.mags[MagId(t, pc.cls) := Magazine(pc.next, m.depth - 1)])
  }

  /** The refill of an empty magazine. */
  function RefillStep(s: State, l: Label): State
    requires Legal(s, l) && (l.Pop? || l.Drain? || l.Create?)
  {
    var t, pc := l.cpu, s.cpus[l.cpu];
    var dom, m := s.domainOf[t], MagOf(s, t, pc.cls);
    match l
    case Pop(_) =>
      var stack := StackOf(s, dom, pc.cls);
      if stack == [] then At(s, t, Creating(pc.cls))
      else
        var top := stack[|stack| - 1];
        At(s.(stacks := s.stacks[StackId(dom, pc.cls) := stack[..|stack| - 1]],
              mags := s.mags[MagId(t, pc.cls) := Magazine(top.head, top.depth)]), t, Draining(pc.cls))
    case Drain(_) =>
      var head := m.head.value;
      if m.depth > 1 && s.slabs[head].count == 0 then
        s.(slabs := s.slabs - {head}, mags := s.mags[MagId(t, pc.cls) := Magazine(ChainNext(s, m.head), m.depth - 1)])
      else At(s, t, AtTop(pc.cls))
    case Create(_, id, max) =>
      At(s.(slabs := s.slabs[id := Slab(max, dom, pc.cls, Upto(max), {}, 0)],
            chainNext := s.chainNext[id := None],
            mags := s.mags[MagId(t, pc.cls) := Magazine(Some(id), 1)]), t, AtTop(pc.cls))
  }

  /** vmsfree's part. */
  function FreeStep(s: State, l: Label): State
    requires Legal(s, l) && (l.StartFree? || l.Release? || l.CountDown? || l.Publish? || l.Flush?)
  {
    var t, pc := l.cpu, s.cpus[l.cpu];
    match l
    case StartFree(_, id, slot) =>
      var b := s.slabs[id];
      SlabStep(s, t, id, b.(live := b.live - {slot}), Freeing(id, slot))
    case Release(_) =>
      var b := s.slabs[pc.slab];
      SlabStep(s, t, pc.slab, b.(free := b.free + {pc.slot}), Subtracting(pc.slab))
    case CountDown(_) =>
      var b := s.slabs[pc.slab];
      SlabStep(s, t, pc.slab, b.(count := b.count - 1),
               if b.count >= b.max && b.count - 1 < b.max then Publishing(pc.slab) else Idle)
    case Publish(_, kmax) =>
      var b := s.slabs[pc.slab];
      if b.home == s.domainOf[t] then PublishLocally(s, t, pc.slab, kmax) else PublishAcross(s, t, pc.slab, kmax)
    case Flush(_) =>
      var m := MagOf(s, t, pc.cls);
      var s1 := PushChain(s, s.domainOf[t], pc.cls, Chain(m.head, m.depth));
      At(s1.(mags := s1.mags[MagId(t, pc.cls) := Magazine(None, 0)]), t, Idle)
  }

  /** sameDomainPublishAndMaybeFlush, up to the flush. */
  function PublishLocally(s: State, t: nat, x: Id, kmax: nat): State
    requires x in s.slabs
  {
    var c := s.slabs[x].cls;
    var m := MagOf(s, t, c);
    At(s.(chainNext := s.chainNext[x := m.head],
          mags := s.mags[MagId(t, c) := Magazine(Some(x), m.depth + 1)]), t,
       if m.depth + 1 >= kmax then Flushing(c) else Idle)
  }

  /** crossDomainPublish: extend the top chain of the home domain, or start a chain. */
  function PublishAcross(s: State, t: nat, x: Id, kmax: nat): State
    requires x in s.slabs
  {
    var b := s.slabs[x];
    var stack := StackOf(s, b.home, b.cls);
    if stack == [] || stack[|stack| - 1].depth >= kmax then
      At(PushChain(s, b.home, b.cls, Chain(Some(x), 1)).(chainNext := s.chainNext[x := None]), t, Idle)
    else
      var top := stack[|stack| - 1];
      At(s.(chainNext := s.chainNext[x := top.head],
            stacks := s.stacks[StackId(b.home, b.cls) := stack[|stack| - 1 := Chain(Some(x), top.depth + 1)]]), t, Idle)
  }

  function Apply(s: State, l: Label): State
    requires Legal(s, l)
  {
    match l
    case StartAlloc(t, c) => At(s, t, AtTop(c))
    case PreRead(_) => AllocStep(s, l)
    case Claim(_, _) => AllocStep(s, l)
    case CountUp(_) => AllocStep(s, l)
    case Unlink(_) => AllocStep(s, l)
    case Pop(_) => RefillStep(s, l)
    case Drain(_) => RefillStep(s, l)
    case Create(_, _, _) => RefillStep(s, l)
    case _ => FreeStep(s, l)
  }

  /** The state after a run from boot, None when a step of it is not legal. */
  function Exec(domainOf: map<nat, nat>, run: seq<Label>): Option<State> {
    if run == [] then Some(State(domainOf, map[], map[], map[], map[], map t | t in domainOf :: Idle))
    else match Exec(domainOf, run[..|run| - 1])
      case None => None
      case Some(s) => if Legal(s, run[|run| - 1]) then Some(Apply(s, run[|run| - 1])) else None
  }
}
