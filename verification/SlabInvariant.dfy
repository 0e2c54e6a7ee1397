/**
 Where every slab is, as an assignment of slabs to lists that agrees with all the fields of the
 state, and the steps that leave every slab where it is.
 */
module SlabInvariant {

  import opened Wrappers
  import opened Counting
  import opened SlabProtocol

  /** A magazine, or the k-th chain from the bottom of a shared stack. */
  datatype ListId = InMag(cpu: nat, cls: nat) | InChain(dom: nat, cls: nat, k: nat)

  datatype Owner = Listed(l: ListId) | Unlisted | Transit(cpu: nat)

  /** The contents of the lists and the place of every slab, as the fields of the state determine them. */
  datatype Own = Own(lists: map<ListId, seq<Id>>, place: map<Id, Owner>)

  function ListOf(w: Own, l: ListId): seq<Id> {
    if l in w.lists then w.lists[l] else []
  }

  function First(xs: seq<Id>): Option<Id> {
    if xs == [] then None else Some(xs[0])
  }

  function Second(xs: seq<Id>): Option<Id> {
    if |xs| <= 1 then None else Some(xs[1])
  }

  /** Following chainNext from the head visits exactly these slabs and ends. */
  ghost predicate Linked(next: map<Id, Option<Id>>, head: Option<Id>, xs: seq<Id>) {
    head == First(xs) && forall i :: 0 <= i < |xs| ==> xs[i] in next && next[xs[i]] == First(xs[i + 1..])
  }

  ghost predicate NoDup(xs: seq<Id>) {
    forall i, j :: 0 <= i < j < |xs| ==> xs[i] != xs[j]
  }

  /** A magazine's head and depth, taking an unlink in progress as done. */
  function ViewHead(s: State, t: nat, c: nat): Option<Id> {
    if t in s.cpus && s.cpus[t].Unlinking? && s.cpus[t].cls == c then s.cpus[t].next else MagOf(s, t, c).head
  }

  function ViewDepth(s: State, t: nat, c: nat): int {
    if t in s.cpus && s.cpus[t].Unlinking? && s.cpus[t].cls == c then MagOf(s, t, c).depth - 1
    else MagOf(s, t, c).depth
  }

  ghost predicate AnchorOk(s: State, l: ListId, xs: seq<Id>) {
    match l
    case InMag(t, c) => Linked(s.chainNext, ViewHead(s, t, c), xs) && |xs| == ViewDepth(s, t, c)
    case InChain(d, c, k) =>
      var stack := StackOf(s, d, c);
      if k < |stack| then xs != [] && Linked(s.chainNext, stack[k].head, xs) && |xs| == stack[k].depth
      else xs == []
  }

  ghost predicate MembersOk(w: Own, l: ListId, xs: seq<Id>) {
    NoDup(xs) && forall i :: 0 <= i < |xs| ==> xs[i] in w.place && w.place[xs[i]] == Listed(l)
  }

  ghost predicate ListOk(s: State, w: Own, l: ListId) {
    MembersOk(w, l, ListOf(w, l)) && AnchorOk(s, l, ListOf(w, l))
  }

  /** The CPUs between claiming a slot of a slab and counting it, and between releasing and uncounting one. */
  function Claims(cpus: map<nat, PC>, x: Id): set<nat> {
    set t | t in cpus && cpus[t].Claimed? && cpus[t].head == x
  }

  function Subs(cpus: map<nat, PC>, x: Id): set<nat> {
    set t | t in cpus && cpus[t].Subtracting? && cpus[t].slab == x
  }

  ghost predicate CountOk(cpus: map<nat, PC>, b: Slab, x: Id) {
    b.count + |Claims(cpus, x)| == b.max - |b.free| + |Subs(cpus, x)| && b.count <= b.max
  }

  ghost predicate BitsOk(b: Slab) {
    b.max >= 1 && b.free <= Upto(b.max) && b.live <= Upto(b.max) && b.live !! b.free
  }

  /** A list holds slabs of its own domain and size class. */
  predicate Fits(domainOf: map<nat, nat>, l: ListId, b: Slab) {
    match l
    case InMag(t, c) => t in domainOf && domainOf[t] == b.home && c == b.cls
    case InChain(d, c, _) => d == b.home && c == b.cls
  }

  /** A slab is full exactly when it is on no list and no freer is about to put it on one. */
  ghost predicate PlaceOk(s: State, w: Own, x: Id)
    requires x in s.slabs
  {
    x in w.place && x in s.chainNext && (w.place[x].Unlisted? <==> s.slabs[x].count == s.slabs[x].max) &&
    match w.place[x]
    case Listed(l) => x in ListOf(w, l) && Fits(s.domainOf, l, s.slabs[x])
    case Transit(t) => t in s.cpus && s.cpus[t] == Publishing(x)
    case Unlisted => true
  }

  ghost predicate SlabOk(s: State, w: Own, x: Id)
    requires x in s.slabs
  {
    BitsOk(s.slabs[x]) && CountOk(s.cpus, s.slabs[x], x) && PlaceOk(s, w, x)
  }

  datatype SlotId = SlotId(slab: Id, slot: nat)

  /** The slot a CPU has claimed and not yet handed out, or has been given back and not yet released. */
  function Held(pc: PC): Option<SlotId> {
    match pc
    case Claimed(_, h, _, b) => Some(SlotId(h, b))
    case Unlinking(_, h, _, b) => Some(SlotId(h, b))
    case Freeing(x, b) => Some(SlotId(x, b))
    case _ => None
  }

  ghost predicate HoldOk(slabs: map<Id, Slab>, pc: PC) {
    match Held(pc)
    case None => true
    case Some(h) => h.slab in slabs && h.slot < slabs[h.slab].max
                    && h.slot !in slabs[h.slab].free && h.slot !in slabs[h.slab].live
  }

  ghost predicate CpuOk(s: State, w: Own, t: nat, pc: PC) {
    HoldOk(s.slabs, pc) &&
    match pc
    case HasNext(c, h, n) => First(ListOf(w, InMag(t, c))) == Some(h) && n == Second(ListOf(w, InMag(t, c)))
    case Claimed(c, h, n, _) => First(ListOf(w, InMag(t, c))) == Some(h) && n == Second(ListOf(w, InMag(t, c)))
    case Draining(c) => ListOf(w, InMag(t, c)) != []
    case Creating(c) => ListOf(w, InMag(t, c)) == []
    case Subtracting(x) => x in s.slabs
    case Publishing(x) => x in s.slabs && x in w.place && w.place[x] == Transit(t)
    case Flushing(c) => ListOf(w, InMag(t, c)) != []
    case _ => true
  }

  /** Two CPUs never hold the same slot. */
  predicate Apart(p: PC, q: PC) {
    Held(p).None? || Held(p) != Held(q)
  }

  ghost predicate SlabsOk(s: State, w: Own) {
    w.place.Keys == s.slabs.Keys && forall x {:trigger SlabOk(s, w, x)} :: x in s.slabs ==> SlabOk(s, w, x)
  }

  ghost predicate CpusOk(s: State, w: Own) {
    s.cpus.Keys == s.domainOf.Keys && forall t {:trigger CpuOk(s, w, t, s.cpus[t])} :: t in s.cpus ==> CpuOk(s, w, t, s.cpus[t])
  }

  ghost predicate HoldsApart(s: State) {
    forall t, u {:trigger Apart(s.cpus[t], s.cpus[u])} ::
      t in s.cpus && u in s.cpus && t != u ==> Apart(s.cpus[t], s.cpus[u])
  }

  ghost predicate ListsOk(s: State, w: Own) {
    forall l: ListId :: ListOk(s, w, l)
  }

  ghost predicate Inv(s: State, w: Own) {
    SlabsOk(s, w) && CpusOk(s, w) && HoldsApart(s) && ListsOk(s, w)
  }

  // ----- steps that move no slab -----

  lemma CpusUpdate(cpus: map<nat, PC>, t: nat, pc: PC, x: Id)
    requires t in cpus
    ensures |Claims(cpus[t := pc], x)|
         == |Claims(cpus, x)| - B(cpus[t].Claimed? && cpus[t].head == x) + B(pc.Claimed? && pc.head == x)
    ensures |Subs(cpus[t := pc], x)|
         == |Subs(cpus, x)| - B(cpus[t].Subtracting? && cpus[t].slab == x) + B(pc.Subtracting? && pc.slab == x)
  {
    SwapMember(Claims(cpus, x), Claims(cpus[t := pc], x), t);
    SwapMember(Subs(cpus, x), Subs(cpus[t := pc], x), t);
  }

  /** The magazines are the same once an unlink in progress is taken as done. */
  ghost predicate SameView(s: State, s': State) {
    forall t, c :: ViewHead(s', t, c) == ViewHead(s, t, c) && ViewDepth(s', t, c) == ViewDepth(s, t, c)
  }

  lemma ViewKept(s: State, s': State, t: nat)
    requires t in s.cpus && t in s'.cpus && s'.cpus == s.cpus[t := s'.cpus[t]] && s'.mags == s.mags
    requires !s.cpus[t].Unlinking? && !s'.cpus[t].Unlinking?
    ensures SameView(s, s')
  {
    forall u, c ensures ViewHead(s', u, c) == ViewHead(s, u, c) && ViewDepth(s', u, c) == ViewDepth(s, u, c) {
      assert MagOf(s', u, c) == MagOf(s, u, c);
    }
  }

  /** A step of one CPU that changes no list, no place and at most one slab's bits, callers and count. */
  ghost predicate Local(s: State, s': State, t: nat, x: Id) {
    && t in s.cpus && x in s.slabs && t in s'.cpus && x in s'.slabs
    && s' == s.(cpus := s.cpus[t := s'.cpus[t]], slabs := s.slabs[x := s'.slabs[x]], mags := s'.mags)
    && !s.cpus[t].Publishing?
    && var b, b' := s.slabs[x], s'.slabs[x];
    b'.max == b.max && b'.home == b.home && b'.cls == b.cls && (b'.count == b'.max <==> b.count == b.max)
  }

  /** The other CPUs hold what they held, and nothing that t holds now. */
  ghost predicate OthersHold(s: State, s': State, t: nat)
    requires t in s'.cpus
  {
    forall u :: u in s.cpus && u != t ==> HoldOk(s'.slabs, s.cpus[u]) && Apart(s'.cpus[t], s.cpus[u])
  }

  lemma LocalSlabs(s: State, s': State, w: Own, t: nat, x: Id)
    requires SlabsOk(s, w) && Local(s, s', t, x)
    requires BitsOk(s'.slabs[x]) && CountOk(s'.cpus, s'.slabs[x], x)
    requires forall y :: y in s.slabs && y != x ==> CountOk(s'.cpus, s.slabs[y], y)
    ensures SlabsOk(s', w)
  {
    forall y | y in s'.slabs ensures SlabOk(s', w, y) {
      assert SlabOk(s, w, y);
    }
  }

  lemma LocalCpus(s: State, s': State, w: Own, t: nat, x: Id)
    requires CpusOk(s, w) && HoldsApart(s) && Local(s, s', t, x)
    requires OthersHold(s, s', t)
    requires CpuOk(s', w, t, s'.cpus[t])
    ensures CpusOk(s', w) && HoldsApart(s')
  {
    forall u | u in s'.cpus ensures CpuOk(s', w, u, s'.cpus[u]) {
      assert CpuOk(s, w, u, s.cpus[u]);
    }
  }

  lemma SameLists(s: State, s': State, w: Own)
    requires ListsOk(s, w) && SameView(s, s') && s'.chainNext == s.chainNext && s'.stacks == s.stacks
    ensures ListsOk(s', w)
  {
    forall l: ListId ensures ListOk(s', w, l) {
      assert ListOk(s, w, l) && AnchorOk(s, l, ListOf(w, l));
    }
  }

  /** The counts of the slabs that a step of CPU t at slab x does not concern. */
  lemma OtherCounts(s: State, w: Own, t: nat, pc: PC, x: Id)
    requires SlabsOk(s, w) && t in s.cpus
    requires s.cpus[t].Claimed? ==> s.cpus[t].head == x
    requires s.cpus[t].Subtracting? ==> s.cpus[t].slab == x
    requires pc.Claimed? ==> pc.head == x
    requires pc.Subtracting? ==> pc.slab == x
    ensures forall y :: y in s.slabs && y != x ==> CountOk(s.cpus[t := pc], s.slabs[y], y)
  {
    forall y | y in s.slabs && y != x ensures CountOk(s.cpus[t := pc], s.slabs[y], y) {
      assert SlabOk(s, w, y);
      CpusUpdate(s.cpus, t, pc, y);
    }
  }

  /** Between claim and count, and between pre-read and claim, the slab is at the head of the magazine. */
  lemma HeadIsListed(s: State, w: Own, t: nat)
    requires Inv(s, w) && t in s.cpus && (s.cpus[t].HasNext? || s.cpus[t].Claimed?)
    ensures var h := s.cpus[t].head;
      h in s.slabs && h in w.place && w.place[h] == Listed(InMag(t, s.cpus[t].cls)) && s.slabs[h].count < s.slabs[h].max
  {
    var pc := s.cpus[t];
    assert CpuOk(s, w, t, pc);
    assert ListOk(s, w, InMag(t, pc.cls));
    assert SlabOk(s, w, pc.head);
  }

  /** A local step keeps the invariant when it keeps the slab's own bits and count and the holders apart. */
  lemma LocalKeeps(s: State, s': State, w: Own, t: nat, x: Id)
    requires Inv(s, w) && Local(s, s', t, x) && SameView(s, s')
    requires BitsOk(s'.slabs[x]) && CountOk(s'.cpus, s'.slabs[x], x)
    requires s.cpus[t].Claimed? ==> s.cpus[t].head == x
    requires s.cpus[t].Subtracting? ==> s.cpus[t].slab == x
    requires s'.cpus[t].Claimed? ==> s'.cpus[t].head == x
    requires s'.cpus[t].Subtracting? ==> s'.cpus[t].slab == x
    requires OthersHold(s, s', t)
    requires CpuOk(s', w, t, s'.cpus[t])
    ensures Inv(s', w)
  {
    OtherCounts(s, w, t, s'.cpus[t], x);
    LocalSlabs(s, s', w, t, x);
    LocalCpus(s, s', w, t, x);
    SameLists(s, s', w);
  }

  /**
   What a CPU's step does with one slab: the slot it holds afterwards it held before, or it was free
   or in a caller's hands; the slots it adds to those it held.
   */
  ghost predicate Exchange(b: Slab, b': Slab, x: Id, pc: PC, pc': PC) {
    && b'.max == b.max
    && (Held(pc') == None || Held(pc') == Held(pc)
        || (Held(pc').value.slab == x && (Held(pc').value.slot in b.free || Held(pc').value.slot in b.live)))
    && (forall slot :: slot in b'.free ==> slot in b.free || Held(pc) == Some(SlotId(x, slot)))
    && (forall slot :: slot in b'.live ==> slot in b.live || Held(pc) == Some(SlotId(x, slot)))
  }

  /** Then no other CPU holds what it took or gave back. */
  lemma HoldsKept(s: State, s': State, w: Own, t: nat, x: Id)
    requires CpusOk(s, w) && HoldsApart(s) && t in s.cpus && x in s.slabs && t in s'.cpus && x in s'.slabs
    requires s'.slabs == s.slabs[x := s'.slabs[x]] && s'.cpus == s.cpus[t := s'.cpus[t]]
    requires Exchange(s.slabs[x], s'.slabs[x], x, s.cpus[t], s'.cpus[t])
    ensures OthersHold(s, s', t)
  {
    forall u | u in s.cpus && u != t ensures HoldOk(s'.slabs, s.cpus[u]) && Apart(s'.cpus[t], s.cpus[u]) {
      assert CpuOk(s, w, u, s.cpus[u]) && Apart(s.cpus[t], s.cpus[u]);
    }
  }

  lemma ClaimExchange(b: Slab, x: Id, pc: PC, slot: nat)
    requires BitsOk(b) && slot in b.free && pc.HasNext? && pc.head == x
    ensures var b' := b.(free := b.free - {slot});
      BitsOk(b') && Exchange(b, b', x, pc, Claimed(pc.cls, x, pc.next, slot)) && |b'.free| == |b.free| - 1
  {
  }

  lemma HandOutExchange(b: Slab, x: Id, pc: PC, slot: nat, count: int)
    requires BitsOk(b) && Held(pc) == Some(SlotId(x, slot)) && slot < b.max && slot !in b.free
    ensures var b' := b.(count := count, live := b.live + {slot});
      BitsOk(b') && Exchange(b, b', x, pc, Idle)
  {
  }

  lemma StartFreeExchange(b: Slab, x: Id, slot: nat)
    requires BitsOk(b) && slot in b.live
    ensures var b' := b.(live := b.live - {slot});
      BitsOk(b') && Exchange(b, b', x, Idle, Freeing(x, slot))
  {
  }

  lemma ReleaseExchange(b: Slab, x: Id, slot: nat)
    requires BitsOk(b) && slot < b.max && slot !in b.free && slot !in b.live
    ensures var b' := b.(free := b.free + {slot});
      BitsOk(b') && Exchange(b, b', x, Freeing(x, slot), Subtracting(x)) && |b'.free| == |b.free| + 1
  {
  }

  lemma ClaimKeeps(s: State, s': State, w: Own, t: nat, x: Id, slot: nat)
    requires Inv(s, w) && t in s.cpus && s.cpus[t].HasNext? && s.cpus[t].head == x && x in s.slabs
    requires slot in s.slabs[x].free
    requires s' == SlabStep(s, t, x, s.slabs[x].(free := s.slabs[x].free - {slot}),
                            Claimed(s.cpus[t].cls, x, s.cpus[t].next, slot))
    ensures Inv(s', w)
  {
    assert SlabOk(s, w, x) && CpuOk(s, w, t, s.cpus[t]);
    ClaimExchange(s.slabs[x], x, s.cpus[t], slot);
    CpusUpdate(s.cpus, t, s'.cpus[t], x);
    ViewKept(s, s', t);
    HoldsKept(s, s', w, t, x);
    LocalKeeps(s, s', w, t, x);
  }

  lemma CountUpKeeps(s: State, s': State, w: Own, t: nat, x: Id, slot: nat)
    requires Inv(s, w) && t in s.cpus && s.cpus[t].Claimed? && s.cpus[t].head == x && s.cpus[t].slot == slot && x in s.slabs
    requires s.slabs[x].count + 1 < s.slabs[x].max
    requires s' == SlabStep(s, t, x, s.slabs[x].(count := s.slabs[x].count + 1, live := s.slabs[x].live + {slot}), Idle)
    ensures Inv(s', w)
  {
    assert SlabOk(s, w, x) && CpuOk(s, w, t, s.cpus[t]);
    HandOutExchange(s.slabs[x], x, s.cpus[t], slot, s.slabs[x].count + 1);
    CpusUpdate(s.cpus, t, Idle, x);
    ViewKept(s, s', t);
    HoldsKept(s, s', w, t, x);
    LocalKeeps(s, s', w, t, x);
  }

  lemma StartFreeKeeps(s: State, s': State, w: Own, t: nat, x: Id, slot: nat)
    requires Inv(s, w) && t in s.cpus && s.cpus[t].Idle? && x in s.slabs && slot in s.slabs[x].live
    requires s' == SlabStep(s, t, x, s.slabs[x].(live := s.slabs[x].live - {slot}), Freeing(x, slot))
    ensures Inv(s', w)
  {
    assert SlabOk(s, w, x);
    StartFreeExchange(s.slabs[x], x, slot);
    CpusUpdate(s.cpus, t, s'.cpus[t], x);
    ViewKept(s, s', t);
    HoldsKept(s, s', w, t, x);
    LocalKeeps(s, s', w, t, x);
  }

  lemma ReleaseKeeps(s: State, s': State, w: Own, t: nat, x: Id, slot: nat)
    requires Inv(s, w) && t in s.cpus && s.cpus[t] == Freeing(x, slot) && x in s.slabs
    requires s' == SlabStep(s, t, x, s.slabs[x].(free := s.slabs[x].free + {slot}), Subtracting(x))
    ensures Inv(s', w)
  {
    assert SlabOk(s, w, x) && CpuOk(s, w, t, s.cpus[t]);
    ReleaseExchange(s.slabs[x], x, slot);
    CpusUpdate(s.cpus, t, s'.cpus[t], x);
    ViewKept(s, s', t);
    HoldsKept(s, s', w, t, x);
    LocalKeeps(s, s', w, t, x);
  }

  lemma CountDownKeeps(s: State, s': State, w: Own, t: nat, x: Id)
    requires Inv(s, w) && t in s.cpus && s.cpus[t] == Subtracting(x) && x in s.slabs && s.slabs[x].count < s.slabs[x].max
    requires s' == SlabStep(s, t, x, s.slabs[x].(count := s.slabs[x].count - 1), Idle)
    ensures Inv(s', w)
  {
    assert SlabOk(s, w, x);
    CpusUpdate(s.cpus, t, Idle, x);
    ViewKept(s, s', t);
    HoldsKept(s, s', w, t, x);
    LocalKeeps(s, s', w, t, x);
  }

  lemma UnlinkKeeps(s: State, s': State, w: Own, t: nat, c: nat, x: Id, next: Option<Id>, slot: nat)
    requires Inv(s, w) && t in s.cpus && s.cpus[t] == Unlinking(c, x, next, slot) && x in s.slabs && MagOf(s, t, c).depth > 0
    requires s' == SlabStep(s, t, x, s.slabs[x].(live := s.slabs[x].live + {slot}), Idle)
                     .(mags := s.mags[MagId(t, c) := Magazine(next, MagOf(s, t, c).depth - 1)])
    ensures Inv(s', w)
  {
    assert SlabOk(s, w, x) && CpuOk(s, w, t, s.cpus[t]);
    HandOutExchange(s.slabs[x], x, s.cpus[t], slot, s.slabs[x].count);
    CpusUpdate(s.cpus, t, Idle, x);
    UnlinkView(s, s', t);
    HoldsKept(s, s', w, t, x);
    LocalKeeps(s, s', w, t, x);
  }

  lemma UnlinkView(s: State, s': State, t: nat)
    requires t in s.cpus && s.cpus[t].Unlinking? && s'.cpus == s.cpus[t := Idle]
    requires MagOf(s, t, s.cpus[t].cls).depth > 0
    requires s'.mags == s.mags[MagId(t, s.cpus[t].cls) := Magazine(s.cpus[t].next, MagOf(s, t, s.cpus[t].cls).depth - 1)]
    ensures SameView(s, s')
  {
    forall u, c ensures ViewHead(s', u, c) == ViewHead(s, u, c) && ViewDepth(s', u, c) == ViewDepth(s, u, c) {
      assert MagId(u, c) != MagId(t, s.cpus[t].cls) ==> MagOf(s', u, c) == MagOf(s, u, c);
    }
  }

  /** A step that moves one CPU's control only. */
  lemma ControlKeeps(s: State, s': State, w: Own, t: nat)
    requires Inv(s, w) && t in s.cpus && t in s'.cpus && s' == At(s, t, s'.cpus[t])
    requires Held(s.cpus[t]).None? && Held(s'.cpus[t]).None?
    requires !s.cpus[t].Subtracting? && !s.cpus[t].Publishing? && !s'.cpus[t].Subtracting?
    requires CpuOk(s', w, t, s'.cpus[t])
    ensures Inv(s', w)
  {
    ControlSlabs(s, s', w, t);
    ControlCpus(s, s', w, t);
    ViewKept(s, s', t);
    SameLists(s, s', w);
  }

  lemma ControlCpus(s: State, s': State, w: Own, t: nat)
    requires CpusOk(s, w) && HoldsApart(s) && t in s.cpus && t in s'.cpus && s' == At(s, t, s'.cpus[t])
    requires Held(s'.cpus[t]).None? && CpuOk(s', w, t, s'.cpus[t])
    ensures CpusOk(s', w) && HoldsApart(s')
  {
    forall u | u in s'.cpus ensures CpuOk(s', w, u, s'.cpus[u]) {
      assert CpuOk(s, w, u, s.cpus[u]);
      if u != t {
        CpuKept(s, s', w, w, u, s.cpus[u]);
      }
    }
  }

  lemma ControlSlabs(s: State, s': State, w: Own, t: nat)
    requires SlabsOk(s, w) && t in s.cpus && t in s'.cpus && s' == At(s, t, s'.cpus[t])
    requires Held(s.cpus[t]).None? && Held(s'.cpus[t]).None?
    requires !s.cpus[t].Subtracting? && !s.cpus[t].Publishing? && !s'.cpus[t].Subtracting?
    ensures SlabsOk(s', w)
  {
    forall y | y in s'.slabs ensures SlabOk(s', w, y) {
      assert SlabOk(s, w, y);
      assert CountOk(s'.cpus, s.slabs[y], y) by {
        CpusUpdate(s.cpus, t, s'.cpus[t], y);
      }
      SlabKept(s, s', w, w, y);
    }
  }

  // ----- what a step leaves alone -----

  lemma ListKept(s: State, s': State, w: Own, w': Own, l: ListId)
    requires ListOk(s, w, l) && ListOf(w', l) == ListOf(w, l)
    requires forall x :: x in ListOf(w, l) ==> x in w'.place && x in w.place && w'.place[x] == w.place[x]
    requires forall x :: x in ListOf(w, l) ==> x in s'.chainNext && x in s.chainNext && s'.chainNext[x] == s.chainNext[x]
    requires match l
             case InMag(t, c) => ViewHead(s', t, c) == ViewHead(s, t, c) && ViewDepth(s', t, c) == ViewDepth(s, t, c)
             case InChain(d, c, k) =>
               var stack, stack' := StackOf(s, d, c), StackOf(s', d, c);
               (k < |stack'| <==> k < |stack|) && (k < |stack| ==> stack'[k] == stack[k])
    ensures ListOk(s', w', l)
  {
    assert AnchorOk(s, l, ListOf(w, l)) && MembersOk(w, l, ListOf(w, l));
  }

  lemma SlabKept(s: State, s': State, w: Own, w': Own, x: Id)
    requires x in s.slabs && SlabOk(s, w, x) && x in s'.slabs && s'.slabs[x] == s.slabs[x] && CountOk(s'.cpus, s.slabs[x], x)
    requires s'.domainOf == s.domainOf && x in s'.chainNext && x in w'.place && w'.place[x] == w.place[x]
    requires w.place[x].Listed? ==> x in ListOf(w', w.place[x].l)
    requires w.place[x].Transit? ==> w.place[x].cpu in s'.cpus && s'.cpus[w.place[x].cpu] == Publishing(x)
    ensures SlabOk(s', w', x)
  {
  }

  lemma CpuKept(s: State, s': State, w: Own, w': Own, u: nat, pc: PC)
    requires CpuOk(s, w, u, pc) && HoldOk(s'.slabs, pc)
    requires forall c :: ListOf(w', InMag(u, c)) == ListOf(w, InMag(u, c))
    requires pc.Subtracting? || pc.Publishing? ==> pc.slab in s'.slabs
    requires pc.Publishing? ==> pc.slab in w'.place && w'.place[pc.slab] == Transit(u)
    ensures CpuOk(s', w', u, pc)
  {
  }

  /** The magazines of every CPU but one hold the same slabs in the same order. */
  ghost predicate OtherMagazines(w: Own, w': Own, t: nat) {
    forall u, c {:trigger ListOf(w', InMag(u, c))} :: u != t ==> ListOf(w', InMag(u, c)) == ListOf(w, InMag(u, c))
  }

  lemma LinkedTail(next: map<Id, Option<Id>>, head: Option<Id>, xs: seq<Id>)
    requires Linked(next, head, xs) && xs != []
    ensures Linked(next, Second(xs), xs[1..]) && next[xs[0]] == Second(xs)
  {
  }
}
