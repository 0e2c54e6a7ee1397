/**
 What holds of the slabs of vmsmalloc in every run: every slab in one place, no slot handed out twice,
 and a magazine that stays intact although freers overwrite the links of slabs that have left it.
 */
module SlabOwnership {

  import opened Wrappers
  import opened Counting
  import opened SlabProtocol
  import opened SlabInvariant
  import opened SlabMoves
  import opened SlabPublish

  lemma PreReadKeeps(s: State, w: Own, t: nat)
    requires Inv(s, w) && Legal(s, PreRead(t))
    ensures Inv(AllocStep(s, PreRead(t)), w)
  {
    var own := InMag(t, s.cpus[t].cls);
    assert ListOk(s, w, own) && AnchorOk(s, own, ListOf(w, own));
    LinkedTail(s.chainNext, ViewHead(s, t, own.cls), ListOf(w, own));
    ControlKeeps(s, AllocStep(s, PreRead(t)), w, t);
  }

  lemma CountUpStepKeeps(s: State, w: Own, t: nat) returns (w': Own)
    requires Inv(s, w) && Legal(s, CountUp(t))
    ensures Inv(AllocStep(s, CountUp(t)), w')
    ensures ListOf(w, InMag(t, s.cpus[t].cls)) != []
    ensures ListOf(w', InMag(t, s.cpus[t].cls)) ==
      if AllocStep(s, CountUp(t)).cpus[t].Unlinking? then ListOf(w, InMag(t, s.cpus[t].cls))[1..] else ListOf(w, InMag(t, s.cpus[t].cls))
    ensures OtherMagazines(w, w', t)
  {
    var pc, s' := s.cpus[t], AllocStep(s, CountUp(t));
    HeadIsListed(s, w, t);
    assert CpuOk(s, w, t, pc);
    w' := w;
    if s.slabs[pc.head].count + 1 < s.slabs[pc.head].max {
      CountUpKeeps(s, s', w, t, pc.head, pc.slot);
    } else {
      w' := FillUpKeeps(s, s', w, t);
    }
  }

  lemma AllocKeepsInv(s: State, w: Own, l: Label) returns (w': Own)
    requires Inv(s, w) && Legal(s, l) && (l.PreRead? || l.Claim? || l.CountUp? || l.Unlink?)
    ensures Inv(AllocStep(s, l), w')
    ensures OtherMagazines(w, w', l.cpu)
  {
    var t, pc, s' := l.cpu, s.cpus[l.cpu], AllocStep(s, l);
    w' := w;
    match l
    case PreRead(_) => PreReadKeeps(s, w, t);
    case Claim(_, slot) => ClaimKeeps(s, s', w, t, pc.head, slot);
    case CountUp(_) => w' := CountUpStepKeeps(s, w, t);
    case Unlink(_) => UnlinkKeeps(s, s', w, t, pc.cls, pc.head, pc.next, pc.slot);
  }

  lemma FillUpKeeps(s: State, s': State, w: Own, t: nat) returns (w': Own)
    requires Inv(s, w) && t in s.cpus && s.cpus[t].Claimed? && s.cpus[t].head in s.slabs
    requires var x := s.cpus[t].head;
      s.slabs[x].count + 1 == s.slabs[x].max &&
      s' == SlabStep(s, t, x, s.slabs[x].(count := s.slabs[x].count + 1),
                     Unlinking(s.cpus[t].cls, x, s.cpus[t].next, s.cpus[t].slot))
    ensures Inv(s', w')
    ensures ListOf(w, InMag(t, s.cpus[t].cls)) != [] && ListOf(w', InMag(t, s.cpus[t].cls)) == ListOf(w, InMag(t, s.cpus[t].cls))[1..]
    ensures OtherMagazines(w, w', t)
  {
    var c, x := s.cpus[t].cls, s.cpus[t].head;
    HeadIsListed(s, w, t);
    assert CpuOk(s, w, t, s.cpus[t]);
    w' := Own(w.lists[InMag(t, c) := ListOf(w, InMag(t, c))[1..]], w.place[x := Unlisted]);
    FillUpSlabs(s, s', w, w', t, c, x);
    FillUpCpus(s, s', w, w', t, c, x);
    FillUpLists(s, s', w, w', t, c, x);
  }

  lemma RefillKeepsInv(s: State, w: Own, l: Label) returns (w': Own)
    requires Inv(s, w) && Legal(s, l) && (l.Pop? || l.Drain? || l.Create?)
    ensures Inv(RefillStep(s, l), w')
    ensures OtherMagazines(w, w', l.cpu)
  {
    var t, pc, s' := l.cpu, s.cpus[l.cpu], RefillStep(s, l);
    w' := w;
    match l
    case Pop(_) =>
      if StackOf(s, s.domainOf[t], pc.cls) == [] {
        assert ListOk(s, w, InMag(t, pc.cls)) && AnchorOk(s, InMag(t, pc.cls), ListOf(w, InMag(t, pc.cls)));
        ControlKeeps(s, s', w, t);
      } else {
        w' := PopKeeps(s, s', w, t, pc.cls);
      }
    case Drain(_) =>
      var m := MagOf(s, t, pc.cls);
      if m.depth > 1 && s.slabs[m.head.value].count == 0 {
        w' := ReclaimKeeps(s, s', w, t, pc.cls, m.head.value);
      } else {
        ControlKeeps(s, s', w, t);
      }
    case Create(_, id, max) => w' := CreateKeeps(s, s', w, t, id, max);
  }

  lemma CountDownStepKeeps(s: State, w: Own, t: nat) returns (w': Own)
    requires Inv(s, w) && Legal(s, CountDown(t))
    ensures Inv(FreeStep(s, CountDown(t)), w')
    ensures OtherMagazines(w, w', t)
  {
    var pc, s' := s.cpus[t], FreeStep(s, CountDown(t));
    assert SlabOk(s, w, pc.slab);
    w' := w;
    if s.slabs[pc.slab].count < s.slabs[pc.slab].max {
      CountDownKeeps(s, s', w, t, pc.slab);
    } else {
      w' := w.(place := w.place[pc.slab := Transit(t)]);
      DepartKeeps(s, s', w, w', t, pc.slab);
    }
  }

  lemma FreeKeepsInv(s: State, w: Own, l: Label) returns (w': Own)
    requires Inv(s, w) && Legal(s, l) && (l.StartFree? || l.Release? || l.CountDown? || l.Publish? || l.Flush?)
    ensures Inv(FreeStep(s, l), w')
    ensures OtherMagazines(w, w', l.cpu)
  {
    var t, pc, s' := l.cpu, s.cpus[l.cpu], FreeStep(s, l);
    w' := w;
    match l
    case StartFree(_, id, slot) => StartFreeKeeps(s, s', w, t, id, slot);
    case Release(_) => ReleaseKeeps(s, s', w, t, pc.slab, pc.slot);
    case CountDown(_) => w' := CountDownStepKeeps(s, w, t);
    case Publish(_, kmax) =>
      if s.slabs[pc.slab].home == s.domainOf[t] {
        w' := PublishLocallyKeeps(s, s', w, t, pc.slab, kmax);
      } else {
        w' := PublishAcrossKeeps(s, s', w, t, pc.slab, kmax);
      }
    case Flush(_) => w' := FlushKeeps(s, s', w, t, pc.cls);
  }

  lemma StepKeepsInv(s: State, w: Own, l: Label) returns (w': Own)
    requires Inv(s, w) && Legal(s, l)
    ensures Inv(Apply(s, l), w')
    ensures OtherMagazines(w, w', l.cpu)
  {
    match l
    case StartAlloc(t, c) =>
      ControlKeeps(s, Apply(s, l), w, t);
      w' := w;
    case PreRead(_) => w' := AllocKeepsInv(s, w, l);
    case Claim(_, _) => w' := AllocKeepsInv(s, w, l);
    case CountUp(_) => w' := AllocKeepsInv(s, w, l);
    case Unlink(_) => w' := AllocKeepsInv(s, w, l);
    case Pop(_) => w' := RefillKeepsInv(s, w, l);
    case Drain(_) => w' := RefillKeepsInv(s, w, l);
    case Create(_, _, _) => w' := RefillKeepsInv(s, w, l);
    case _ => w' := FreeKeepsInv(s, w, l);
  }

  // ----- what holds in every run -----

  lemma {:induction false} RunKeepsInv(domainOf: map<nat, nat>, run: seq<Label>) returns (w: Own)
    ensures Exec(domainOf, run).Some? ==> Inv(Exec(domainOf, run).value, w)
    decreases |run|
  {
    w := Own(map[], map[]);
    if run != [] {
      var before := Exec(domainOf, run[..|run| - 1]);
      var w0 := RunKeepsInv(domainOf, run[..|run| - 1]);
      if before.Some? && Legal(before.value, run[|run| - 1]) {
        w := StepKeepsInv(before.value, w0, run[|run| - 1]);
      }
    }
  }

  /** The slabs met by following chainNext depth times from a head; None when a link is missing. */
  function Follow(next: map<Id, Option<Id>>, head: Option<Id>, depth: nat): Option<seq<Id>>
    decreases depth
  {
    if depth == 0 then Some([])
    else if head.None? || head.value !in next then None
    else match Follow(next, next[head.value], depth - 1)
      case None => None
      case Some(rest) => Some([head.value] + rest)
  }

  lemma {:induction false} LinkedIsFollow(next: map<Id, Option<Id>>, head: Option<Id>, xs: seq<Id>)
    requires Linked(next, head, xs)
    ensures Follow(next, head, |xs|) == Some(xs)
    decreases |xs|
  {
    if xs != [] {
      LinkedTail(next, head, xs);
      LinkedIsFollow(next, Second(xs), xs[1..]);
      assert [xs[0]] + xs[1..] == xs;
    }
  }

  /** The slabs of a list, read from the pointers in the state; an unlink in progress is taken as done. */
  function Contents(s: State, l: ListId): Option<seq<Id>> {
    match l
    case InMag(t, c) => if ViewDepth(s, t, c) < 0 then None else Follow(s.chainNext, ViewHead(s, t, c), ViewDepth(s, t, c))
    case InChain(d, c, k) =>
      if k < |StackOf(s, d, c)| then Follow(s.chainNext, StackOf(s, d, c)[k].head, StackOf(s, d, c)[k].depth) else Some([])
  }

  lemma ContentsAreLists(s: State, w: Own, l: ListId)
    requires Inv(s, w)
    ensures Contents(s, l) == Some(ListOf(w, l))
  {
    var xs := ListOf(w, l);
    assert ListOk(s, w, l) && AnchorOk(s, l, xs);
    match l
    case InMag(t, c) => LinkedIsFollow(s.chainNext, ViewHead(s, t, c), xs);
    case InChain(d, c, k) =>
      if k < |StackOf(s, d, c)| {
        LinkedIsFollow(s.chainNext, StackOf(s, d, c)[k].head, xs);
      }
  }

  /** Where a slab can be found: at a position of a list, among the full slabs, in a freer's hands. */
  datatype Place = OnList(l: ListId, position: nat) | Full | WithFreer(cpu: nat)

  ghost predicate AtPlace(s: State, x: Id, p: Place)
    requires x in s.slabs
  {
    match p
    case OnList(l, i) => Contents(s, l).Some? && i < |Contents(s, l).value| && Contents(s, l).value[i] == x
    case Full => s.slabs[x].count == s.slabs[x].max
    case WithFreer(t) => t in s.cpus && s.cpus[t] == Publishing(x)
  }

  /**
   Every slab is in exactly one place: at one position of one magazine or shared chain, or full and on
   no list, or on its way with one freer. No list is broken, and a list holds only slabs of its own
   domain and class that are not full.
   */
  lemma OnePlace(domainOf: map<nat, nat>, run: seq<Label>, x: Id)
    requires Exec(domainOf, run).Some? && x in Exec(domainOf, run).value.slabs
    ensures var s := Exec(domainOf, run).value;
      exists place :: AtPlace(s, x, place) && forall other :: AtPlace(s, x, other) ==> other == place
    ensures var s := Exec(domainOf, run).value;
      forall l :: Contents(s, l).Some? &&
        (x in Contents(s, l).value ==> Fits(s.domainOf, l, s.slabs[x]) && s.slabs[x].count < s.slabs[x].max)
  {
    var s := Exec(domainOf, run).value;
    var w := RunKeepsInv(domainOf, run);
    var place := PlaceOf(s, w, x);
    forall other | AtPlace(s, x, other) ensures other == place {
      PlaceIsUnique(s, w, x, other, place);
    }
    forall l
      ensures Contents(s, l).Some? &&
        (x in Contents(s, l).value ==> Fits(s.domainOf, l, s.slabs[x]) && s.slabs[x].count < s.slabs[x].max)
    {
      MemberFits(s, w, x, l);
    }
  }

  lemma MemberFits(s: State, w: Own, x: Id, l: ListId)
    requires Inv(s, w) && x in s.slabs
    ensures Contents(s, l) == Some(ListOf(w, l))
    ensures x in ListOf(w, l) ==>
      w.place[x] == Listed(l) && Fits(s.domainOf, l, s.slabs[x]) && s.slabs[x].count < s.slabs[x].max
  {
    ContentsAreLists(s, w, l);
    assert SlabOk(s, w, x) && ListOk(s, w, l) && MembersOk(w, l, ListOf(w, l));
  }

  function OwnerOf(p: Place): Owner {
    match p
    case OnList(l, _) => Listed(l)
    case Full => Unlisted
    case WithFreer(t) => Transit(t)
  }

  lemma PlaceOf(s: State, w: Own, x: Id) returns (p: Place)
    requires Inv(s, w) && x in s.slabs
    ensures AtPlace(s, x, p)
  {
    assert SlabOk(s, w, x);
    match w.place[x]
    case Listed(l) =>
      ContentsAreLists(s, w, l);
      var i :| 0 <= i < |ListOf(w, l)| && ListOf(w, l)[i] == x;
      p := OnList(l, i);
    case Unlisted => p := Full;
    case Transit(t) => p := WithFreer(t);
  }

  lemma PlaceIsUnique(s: State, w: Own, x: Id, p: Place, q: Place)
    requires Inv(s, w) && x in s.slabs && AtPlace(s, x, p) && AtPlace(s, x, q)
    ensures p == q
  {
    PlaceTells(s, w, x, p);
    PlaceTells(s, w, x, q);
    if p.OnList? {
      assert ListOk(s, w, p.l) && MembersOk(w, p.l, ListOf(w, p.l));
    }
  }

  lemma PlaceTells(s: State, w: Own, x: Id, p: Place)
    requires Inv(s, w) && x in s.slabs && AtPlace(s, x, p)
    ensures w.place[x] == OwnerOf(p)
    ensures p.OnList? ==> p.position < |ListOf(w, p.l)| && ListOf(w, p.l)[p.position] == x
  {
    assert SlabOk(s, w, x);
    match p
    case OnList(l, i) => MemberFits(s, w, x, l);
    case Full =>
    case WithFreer(t) => assert CpuOk(s, w, t, s.cpus[t]);
  }

  /** allocSlot on a magazine head always finds a slot. */
  lemma AllocSlotSucceeds(domainOf: map<nat, nat>, run: seq<Label>, t: nat)
    requires Exec(domainOf, run).Some? && t in Exec(domainOf, run).value.cpus && Exec(domainOf, run).value.cpus[t].HasNext?
    ensures var s := Exec(domainOf, run).value;
      s.cpus[t].head in s.slabs && s.slabs[s.cpus[t].head].free != {}
  {
    var s := Exec(domainOf, run).value;
    var w := RunKeepsInv(domainOf, run);
    var h := s.cpus[t].head;
    HeadIsListed(s, w, t);
    assert SlabOk(s, w, h);
    forall u | u in Claims(s.cpus, h) ensures u == t {
      HeadIsListed(s, w, u);
    }
    assert Claims(s.cpus, h) == {};
  }

  /** A slot that is handed out was not in a caller's hands, nor held by another CPU. */
  lemma NoLiveSlotReissued(domainOf: map<nat, nat>, run: seq<Label>, l: Label)
    requires Exec(domainOf, run).Some? && Legal(Exec(domainOf, run).value, l) && l.Claim?
    ensures var s := Exec(domainOf, run).value;
      var x := s.cpus[l.cpu].head;
      l.slot !in s.slabs[x].live && forall u :: u in s.cpus ==> Held(s.cpus[u]) != Some(SlotId(x, l.slot))
  {
    var s := Exec(domainOf, run).value;
    var w := RunKeepsInv(domainOf, run);
    assert SlabOk(s, w, s.cpus[l.cpu].head);
    forall u | u in s.cpus ensures Held(s.cpus[u]) != Some(SlotId(s.cpus[l.cpu].head, l.slot)) {
      assert CpuOk(s, w, u, s.cpus[u]);
    }
  }

  /** The slabs that a CPU has at hand: those it works on and the successor it has read. */
  function AtHand(pc: PC): set<Id> {
    match pc
    case HasNext(_, h, n) => {h} + Successor(n)
    case Claimed(_, h, n, _) => {h} + Successor(n)
    case Unlinking(_, h, n, _) => {h} + Successor(n)
    case Freeing(x, _) => {x}
    case Subtracting(x) => {x}
    case Publishing(x) => {x}
    case _ => {}
  }

  function Successor(next: Option<Id>): set<Id> {
    if next.Some? then {next.value} else {}
  }

  /**
   A slab whose page is given back has no slot in use anywhere, no CPU has it at hand, and afterwards it is
   on no list.
   */
  lemma ReclaimedIsUnused(domainOf: map<nat, nat>, run: seq<Label>, l: Label, x: Id)
    requires Exec(domainOf, run).Some? && Legal(Exec(domainOf, run).value, l)
    requires x in Exec(domainOf, run).value.slabs && x !in Apply(Exec(domainOf, run).value, l).slabs
    ensures var s := Exec(domainOf, run).value;
      && s.slabs[x].live == {} && s.slabs[x].free == Upto(s.slabs[x].max)
      && forall u :: u in s.cpus ==> x !in AtHand(s.cpus[u])
    ensures var s' := Apply(Exec(domainOf, run).value, l);
      forall k :: Contents(s', k).Some? && x !in Contents(s', k).value
  {
    var s := Exec(domainOf, run).value;
    var w := RunKeepsInv(domainOf, run);
    ReclaimedListed(s, w, l, x);
    EmptyIsUnused(s, w, l.cpu, x);
    forall u | u in s.cpus ensures x !in AtHand(s.cpus[u]) {
      NotAtHand(s, w, l.cpu, s.cpus[l.cpu].cls, u, x);
    }
    var w' := StepKeepsInv(s, w, l);
    forall k ensures Contents(Apply(s, l), k).Some? && x !in Contents(Apply(s, l), k).value {
      GoneFromLists(Apply(s, l), w', x, k);
    }
  }

  lemma OnlyDrainReclaims(s: State, l: Label, x: Id)
    requires Legal(s, l) && x in s.slabs && x !in Apply(s, l).slabs
    ensures l.Drain? && s.cpus[l.cpu].Draining? && s.slabs[x].count == 0
    ensures var m := MagOf(s, l.cpu, s.cpus[l.cpu].cls); m.head == Some(x) && m.depth > 1
  {
    if !l.Drain? {
      OthersKeepSlabs(s, l);
    }
  }

  lemma OthersKeepSlabs(s: State, l: Label)
    requires Legal(s, l) && !l.Drain?
    ensures s.slabs.Keys <= Apply(s, l).slabs.Keys
  {
    if l.PreRead? || l.Claim? || l.CountUp? || l.Unlink? {
      assert AllocStep(s, l).slabs.Keys == s.slabs.Keys;
    } else if l.StartFree? || l.Release? || l.CountDown? || l.Publish? || l.Flush? {
      assert FreeStep(s, l).slabs.Keys == s.slabs.Keys;
    }
  }

  lemma ReclaimedListed(s: State, w: Own, l: Label, x: Id)
    requires Inv(s, w) && Legal(s, l) && x in s.slabs && x !in Apply(s, l).slabs
    ensures s.cpus[l.cpu].Draining? && s.slabs[x].count == 0
    ensures x in w.place && w.place[x] == Listed(InMag(l.cpu, s.cpus[l.cpu].cls))
  {
    OnlyDrainReclaims(s, l, x);
    var own := InMag(l.cpu, s.cpus[l.cpu].cls);
    assert ListOk(s, w, own) && AnchorOk(s, own, ListOf(w, own)) && MembersOk(w, own, ListOf(w, own));
  }

  /** What another CPU has at hand of a magazine is of its own magazine. */
  lemma NotAtHand(s: State, w: Own, t: nat, c: nat, u: nat, x: Id)
    requires Inv(s, w) && t in s.cpus && s.cpus[t].Draining? && u in s.cpus
    requires x in w.place && w.place[x] == Listed(InMag(t, c))
    requires Held(s.cpus[u]).None? || Held(s.cpus[u]).value.slab != x
    requires s.cpus[u] != Subtracting(x) && s.cpus[u] != Publishing(x)
    ensures x !in AtHand(s.cpus[u])
  {
    var pc := s.cpus[u];
    assert CpuOk(s, w, u, pc);
    if u != t && (pc.HasNext? || pc.Claimed? || pc.Unlinking?) {
      var own := InMag(u, pc.cls);
      assert ListOk(s, w, own) && AnchorOk(s, own, ListOf(w, own)) && MembersOk(w, own, ListOf(w, own));
    }
  }

  lemma GoneFromLists(s: State, w: Own, x: Id, l: ListId)
    requires Inv(s, w) && x !in s.slabs
    ensures Contents(s, l).Some? && x !in Contents(s, l).value
  {
    ContentsAreLists(s, w, l);
    assert ListOk(s, w, l) && MembersOk(w, l, ListOf(w, l));
  }

  /** Whatever other CPUs do, a magazine holds what it held. */
  lemma MagazineIsPrivate(domainOf: map<nat, nat>, run: seq<Label>, l: Label, t: nat, c: nat)
    requires Exec(domainOf, run).Some? && Legal(Exec(domainOf, run).value, l) && l.cpu != t
    ensures Contents(Apply(Exec(domainOf, run).value, l), InMag(t, c)) == Contents(Exec(domainOf, run).value, InMag(t, c))
  {
    var s := Exec(domainOf, run).value;
    var w := RunKeepsInv(domainOf, run);
    var w' := StepKeepsInv(s, w, l);
    ContentsAreLists(s, w, InMag(t, c));
    ContentsAreLists(Apply(s, l), w', InMag(t, c));
  }

  /**
   The successor read before allocSlot is right whenever it is used. Between the read and the move of
   the head pointer other CPUs may do anything, such as freeing a slot of the full slab and
   overwriting its chainNext; the pointer still heads exactly the rest of the magazine.
   */
  lemma {:induction false} PreReadStaysRight(domainOf: map<nat, nat>, run: seq<Label>, mid: seq<Label>, t: nat, xs: seq<Id>)
    requires Exec(domainOf, run).Some? && t in Exec(domainOf, run).value.cpus && Exec(domainOf, run).value.cpus[t].HasNext?
    requires Contents(Exec(domainOf, run).value, InMag(t, Exec(domainOf, run).value.cpus[t].cls)) == Some(xs)
    requires Exec(domainOf, run + mid).Some?
    requires forall i :: 0 <= i < |mid| && mid[i].cpu == t ==> mid[i].Claim? || mid[i].CountUp?
    ensures var c, s := Exec(domainOf, run).value.cpus[t].cls, Exec(domainOf, run + mid).value;
      && t in s.cpus && xs != []
      && (s.cpus[t].HasNext? || s.cpus[t].Claimed? || s.cpus[t].Unlinking? ==> s.cpus[t].cls == c && s.cpus[t].head == xs[0])
      && (s.cpus[t].HasNext? || s.cpus[t].Claimed? || s.cpus[t].Unlinking? || s.cpus[t].Idle?)
      && Contents(s, InMag(t, c)) == Some(if s.cpus[t].Unlinking? then xs[1..] else xs)
    decreases |mid|
  {
    var c := Exec(domainOf, run).value.cpus[t].cls;
    if mid == [] {
      assert run + mid == run;
      var w := RunKeepsInv(domainOf, run);
      ContentsAreLists(Exec(domainOf, run).value, w, InMag(t, c));
      assert CpuOk(Exec(domainOf, run).value, w, t, Exec(domainOf, run).value.cpus[t]);
    } else {
      var last := mid[|mid| - 1];
      assert (run + mid)[..|run + mid| - 1] == run + mid[..|mid| - 1];
      PreReadStaysRight(domainOf, run, mid[..|mid| - 1], t, xs);
      if last.cpu != t {
        MagazineIsPrivate(domainOf, run + mid[..|mid| - 1], last, t, c);
        OtherControl(Exec(domainOf, run + mid[..|mid| - 1]).value, last, t);
      } else {
        OwnStep(domainOf, run + mid[..|mid| - 1], last, c);
      }
    }
  }

  lemma OtherControl(s: State, l: Label, t: nat)
    requires Legal(s, l) && l.cpu != t && t in s.cpus
    ensures t in Apply(s, l).cpus && Apply(s, l).cpus[t] == s.cpus[t]
  {
    if l.Publish? {
      assert PublishLocally(s, l.cpu, s.cpus[l.cpu].slab, l.kmax).cpus[t] == s.cpus[t];
      assert PublishAcross(s, l.cpu, s.cpus[l.cpu].slab, l.kmax).cpus[t] == s.cpus[t];
    }
  }

  /** What the owner's own claim and count do to its magazine. */
  lemma OwnStep(domainOf: map<nat, nat>, run: seq<Label>, l: Label, c: nat)
    requires Exec(domainOf, run).Some? && Legal(Exec(domainOf, run).value, l) && (l.Claim? || l.CountUp?)
    requires Exec(domainOf, run).value.cpus[l.cpu].cls == c
    ensures var s, s' := Exec(domainOf, run).value, Apply(Exec(domainOf, run).value, l);
      && Contents(s, InMag(l.cpu, c)).Some? && Contents(s, InMag(l.cpu, c)).value != []
      && Contents(s', InMag(l.cpu, c)) ==
           Some(if s'.cpus[l.cpu].Unlinking? then Contents(s, InMag(l.cpu, c)).value[1..] else Contents(s, InMag(l.cpu, c)).value)
  {
    var s := Exec(domainOf, run).value;
    var w := RunKeepsInv(domainOf, run);
    ContentsAreLists(s, w, InMag(l.cpu, c));
    if l.Claim? {
      ClaimKeeps(s, Apply(s, l), w, l.cpu, s.cpus[l.cpu].head, l.slot);
      assert CpuOk(s, w, l.cpu, s.cpus[l.cpu]);
      ContentsAreLists(Apply(s, l), w, InMag(l.cpu, c));
    } else {
      var w' := CountUpStepKeeps(s, w, l.cpu);
      ContentsAreLists(Apply(s, l), w', InMag(l.cpu, c));
    }
  }

  /** And the move of the head pointer leaves the magazine's fields saying just that. */
  lemma UnlinkCompletes(domainOf: map<nat, nat>, run: seq<Label>, t: nat)
    requires Exec(domainOf, run).Some? && Legal(Exec(domainOf, run).value, Unlink(t))
    ensures var s, s' := Exec(domainOf, run).value, Apply(Exec(domainOf, run).value, Unlink(t));
      var c := s.cpus[t].cls;
      Contents(s', InMag(t, c)) == Contents(s, InMag(t, c)) &&
      Contents(s', InMag(t, c)) == Follow(s'.chainNext, MagOf(s', t, c).head, MagOf(s', t, c).depth)
  {
    UnlinkView(Exec(domainOf, run).value, Apply(Exec(domainOf, run).value, Unlink(t)), t);
  }

  /** Whatever a call in progress has to do next, it can do. */
  ghost predicate CanGoOn(s: State, t: nat)
    requires t in s.cpus
  {
    match s.cpus[t]
    case Idle => true
    case AtTop(c) => Legal(s, if MagOf(s, t, c).depth > 0 then PreRead(t) else Pop(t))
    case HasNext(_, _, _) => exists slot :: Legal(s, Claim(t, slot))
    case Claimed(_, _, _, _) => Legal(s, CountUp(t))
    case Unlinking(_, _, _, _) => Legal(s, Unlink(t))
    case Draining(_) => Legal(s, Drain(t))
    case Creating(_) => forall id, max: nat :: id !in s.slabs && max >= 1 ==> Legal(s, Create(t, id, max))
    case Freeing(_, _) => Legal(s, Release(t))
    case Subtracting(_) => Legal(s, CountDown(t))
    case Publishing(_) => forall kmax: nat :: Legal(s, Publish(t, kmax))
    case Flushing(_) => Legal(s, Flush(t))
  }

  /** No step of a call in progress meets a null or dangling slab pointer or an empty magazine: each can be taken. */
  lemma NoStepIsStuck(domainOf: map<nat, nat>, run: seq<Label>, t: nat)
    requires Exec(domainOf, run).Some? && t in Exec(domainOf, run).value.cpus
    ensures CanGoOn(Exec(domainOf, run).value, t)
  {
    var s := Exec(domainOf, run).value;
    var w := RunKeepsInv(domainOf, run);
    if s.cpus[t].HasNext? {
      AllocSlotSucceeds(domainOf, run, t);
      ClaimGoesOn(s, w, t);
    } else {
      OthersGoOn(s, w, t);
    }
  }

  lemma ClaimGoesOn(s: State, w: Own, t: nat)
    requires Inv(s, w) && t in s.cpus && s.cpus[t].HasNext? && s.cpus[t].head in s.slabs && s.slabs[s.cpus[t].head].free != {}
    ensures CanGoOn(s, t)
  {
    var x := s.cpus[t].head;
    var slot :| slot in s.slabs[x].free;
    assert SlabOk(s, w, x) && slot in Upto(s.slabs[x].max);
    assert Legal(s, Claim(t, slot));
  }

  lemma OthersGoOn(s: State, w: Own, t: nat)
    requires Inv(s, w) && t in s.cpus && !s.cpus[t].HasNext?
    ensures CanGoOn(s, t)
  {
    var pc := s.cpus[t];
    if pc.AtTop? || pc.Unlinking? || pc.Draining? {
      MagazineGoesOn(s, w, t);
    } else {
      assert CpuOk(s, w, t, pc);
    }
  }

  lemma MagazineGoesOn(s: State, w: Own, t: nat)
    requires Inv(s, w) && t in s.cpus && (s.cpus[t].AtTop? || s.cpus[t].Unlinking? || s.cpus[t].Draining?)
    ensures CanGoOn(s, t)
  {
    OwnMagazine(s, w, t, s.cpus[t].cls);
    assert CpuOk(s, w, t, s.cpus[t]);
  }

  lemma OwnMagazine(s: State, w: Own, t: nat, c: nat)
    requires Inv(s, w)
    ensures ViewDepth(s, t, c) == |ListOf(w, InMag(t, c))| && ViewHead(s, t, c) == First(ListOf(w, InMag(t, c)))
    ensures ListOf(w, InMag(t, c)) != [] ==> ListOf(w, InMag(t, c))[0] in s.slabs
  {
    assert ListOk(s, w, InMag(t, c)) && AnchorOk(s, InMag(t, c), ListOf(w, InMag(t, c)));
    assert MembersOk(w, InMag(t, c), ListOf(w, InMag(t, c)));
  }
}
