/**
 One leaf bitmap of the VMSubstrate radix tree and its bit in the parent: a single allocator CPU
 against any number of freeing CPUs. The allocator scans a private word, refills it by an atomic
 exchange with the shared free word, and both sides keep a count of the words that are non-empty;
 the side that moves the count between zero and one toggles the parent bit afterwards.
 */
module LeafProtocol {

  import opened Wrappers
  import opened Counting

  datatype AllocatorPC =
    | Away                    // not in this leaf
    | Claiming                // led here by a set parent bit; scan of the private word to come
    | Draining                // private word empty; exchange of the free word to come
    | Rescanning              // drained; second scan to come
    | Counting(bit: nat)      // claimed; allocSideEmpty test and fetch_sub to come
    | EdgeDown(bit: nat)      // count fell to zero; fetch_xor of the parent bit to come
    | Failed                  // claimLeafBit returned -1

  datatype FreerPC =
    | Releasing(bit: nat)     // fetch_or into the free word to come
    | CountingUp              // the free word was zero; fetch_add to come
    | EdgeUp                  // the count was zero; fetch_xor of the parent bit to come

  datatype State = State(
    allocWord: set<nat>, freeWord: set<nat>, count: int, parentBit: bool,
    live: set<nat>,                    // pages in the hands of callers
    allocator: AllocatorPC, freers: map<nat, FreerPC>)

  datatype Label = Arrive | Allocator | Free(t: nat, bit: nat) | Freer(t: nat)

  predicate Legal(s: State, l: Label) {
    match l
    case Arrive => s.allocator.Away? && s.parentBit
    case Allocator => !s.allocator.Away? && !s.allocator.Failed?
    case Free(t, bit) => t !in s.freers && bit in s.live
    case Freer(t) => t in s.freers
  }

  /** The lowest set bit of a word, as ctz finds it. */
  function LowestFrom(word: set<nat>, b: nat, bound: nat): (r: nat)
    requires b <= bound && bound in word
    ensures r in word && b <= r <= bound
    ensures forall x :: x in word && b <= x ==> r <= x
    decreases bound - b
  {
    if b in word then b else LowestFrom(word, b + 1, bound)
  }

  ghost function Lowest(word: set<nat>): (r: nat)
    requires word != {}
    ensures r in word && forall x :: x in word ==> r <= x
  {
    var x :| x in word;
    LowestFrom(word, 0, x)
  }

  ghost function TryClaim(s: State, ifEmpty: AllocatorPC): State {
    if s.allocWord == {} then s.(allocator := ifEmpty)
    else
      var bit := Lowest(s.allocWord);
      s.(allocWord := s.allocWord - {bit}, allocator := Counting(bit))
  }

  ghost function AllocatorStep(s: State): State {
    match s.allocator
    case Claiming => TryClaim(s, Draining)
    case Draining =>
      if s.freeWord == {} then s.(allocator := Failed)
      else s.(allocWord := s.allocWord + s.freeWord, freeWord := {}, allocator := Rescanning)
    case Rescanning => TryClaim(s, Failed)
    case Counting(bit) =>
      if s.allocWord != {} then s.(live := s.live + {bit}, allocator := Away)
      else if s.count == 1 then s.(count := s.count - 1, allocator := EdgeDown(bit))
      else s.(count := s.count - 1, live := s.live + {bit}, allocator := Away)
    case EdgeDown(bit) => s.(parentBit := !s.parentBit, live := s.live + {bit}, allocator := Away)
    case _ => s
  }

  function Finish(s: State, t: nat): State {
    s.(freers := s.freers - {t})
  }

  function FreerStep(s: State, t: nat): State
    requires t in s.freers
  {
    match s.freers[t]
    case Releasing(bit) =>
      var s' := s.(freeWord := s.freeWord + {bit});
      if s.freeWord == {} then s'.(freers := s.freers[t := CountingUp]) else Finish(s', t)
    case CountingUp =>
      var s' := s.(count := s.count + 1);
      if s.count == 0 then s'.(freers := s.freers[t := EdgeUp]) else Finish(s', t)
    case EdgeUp => Finish(s.(parentBit := !s.parentBit), t)
  }

  ghost function Apply(s: State, l: Label): State
    requires Legal(s, l)
  {
    match l
    case Arrive => s.(allocator := Claiming)
    case Allocator => AllocatorStep(s)
    case Free(t, bit) => s.(live := s.live - {bit}, freers := s.freers[t := Releasing(bit)])
    case Freer(t) => FreerStep(s, t)
  }

  /** A leaf as the arena's creation leaves it: some pages available, the others reserved for good. */
  function Seeded(available: set<nat>): State {
    State(available, {}, if available != {} then 1 else 0, available != {}, {}, Away, map[])
  }

  ghost function Exec(s: State, run: seq<Label>): Option<State>
    decreases |run|
  {
    if run == [] then Some(s)
    else if Legal(s, run[0]) then Exec(Apply(s, run[0]), run[1..]) else None
  }

  // ----- the invariant -----

  function Those(freers: map<nat, FreerPC>, pc: FreerPC): set<nat> {
    set t | t in freers && freers[t] == pc
  }

  /** The non-empty words, the private one counting as such until the fetch_sub that follows its last bit. */
  function Words(s: State): nat {
    B(s.allocWord != {} || s.allocator.Counting?) + B(s.freeWord != {})
  }

  function PendingEdges(s: State): nat {
    |Those(s.freers, EdgeUp)| + B(s.allocator.EdgeDown?)
  }

  predicate InLeaf(pc: AllocatorPC) {
    pc.Claiming? || pc.Draining? || pc.Rescanning? || pc.Counting?
  }

  ghost predicate CountOk(s: State) {
    && s.count + |Those(s.freers, CountingUp)| == Words(s)
    && s.count >= 0
    && (s.parentBit != (PendingEdges(s) % 2 == 1) <==> s.count > 0)
  }

  /** At most one freer is about to raise the parent bit, and none while the allocator is in the leaf. */
  ghost predicate EdgesOk(s: State) {
    && |Those(s.freers, EdgeUp)| <= B(s.count >= 1)
    && (InLeaf(s.allocator) ==> |Those(s.freers, EdgeUp)| == 0 && s.count >= 1)
  }

  ghost predicate StageOk(s: State) {
    && !s.allocator.Failed?
    && (s.allocator.Draining? ==> s.allocWord == {})
    && (s.allocator.Rescanning? ==> s.allocWord != {})
  }

  function Held(pc: AllocatorPC): set<nat> {
    if pc.Counting? || pc.EdgeDown? then {pc.bit} else {}
  }

  /** Each page is in one place only: a word, the allocator's hands, a caller's, or one freer's. */
  ghost predicate PagesOk(s: State) {
    && s.allocWord !! s.freeWord !! s.live !! Held(s.allocator)
    && (forall t :: t in s.freers && s.freers[t].Releasing? ==>
          s.freers[t].bit !in s.allocWord + s.freeWord + s.live + Held(s.allocator))
    && (forall t, u :: t in s.freers && u in s.freers && t != u && s.freers[t].Releasing? && s.freers[u].Releasing? ==>
          s.freers[t].bit != s.freers[u].bit)
  }

  ghost predicate ProtocolOk(s: State) {
    CountOk(s) && EdgesOk(s) && StageOk(s)
  }

  ghost predicate Inv(s: State) {
    ProtocolOk(s) && PagesOk(s)
  }

  lemma ThoseUpdate(freers: map<nat, FreerPC>, t: nat, pc: FreerPC, q: FreerPC)
    ensures |Those(freers[t := pc], q)| == |Those(freers, q)| - B(t in freers && freers[t] == q) + B(pc == q)
  {
    SwapMember(Those(freers, q), Those(freers[t := pc], q), t);
  }

  lemma ThoseRemove(freers: map<nat, FreerPC>, t: nat, q: FreerPC)
    requires t in freers
    ensures |Those(freers - {t}, q)| == |Those(freers, q)| - B(freers[t] == q)
  {
    SwapMember(Those(freers, q), Those(freers - {t}, q), t);
  }

  /** A set parent bit seen by the allocator means the count is positive and no edge is pending. */
  lemma SetBitMeansSettled(s: State)
    requires ProtocolOk(s) && s.allocator.Away? && s.parentBit
    ensures s.count >= 1 && |Those(s.freers, EdgeUp)| == 0
  {
    assert PendingEdges(s) == |Those(s.freers, EdgeUp)| <= 1;
  }

  lemma ArriveKeepsProtocol(s: State)
    requires ProtocolOk(s) && Legal(s, Arrive)
    ensures ProtocolOk(s.(allocator := Claiming))
  {
    SetBitMeansSettled(s);
    assert Words(s.(allocator := Claiming)) == Words(s);
    assert PendingEdges(s.(allocator := Claiming)) == PendingEdges(s);
  }

  lemma ArriveKeepsPages(s: State)
    requires PagesOk(s) && Legal(s, Arrive)
    ensures PagesOk(s.(allocator := Claiming))
  {
    assert Held(Claiming) == Held(Away);
  }

  lemma AllocatorKeepsProtocol(s: State)
    requires ProtocolOk(s) && Legal(s, Allocator)
    ensures ProtocolOk(AllocatorStep(s))
  {
  }

  lemma AllocatorKeepsPages(s: State)
    requires PagesOk(s) && Legal(s, Allocator)
    ensures PagesOk(AllocatorStep(s))
  {
  }

  lemma ReleaseKeepsProtocol(s: State, t: nat)
    requires ProtocolOk(s) && t in s.freers && s.freers[t].Releasing?
    ensures ProtocolOk(FreerStep(s, t))
  {
    if s.freeWord == {} {
      ThoseUpdate(s.freers, t, CountingUp, CountingUp);
      ThoseUpdate(s.freers, t, CountingUp, EdgeUp);
    } else {
      ThoseRemove(s.freers, t, CountingUp);
      ThoseRemove(s.freers, t, EdgeUp);
    }
  }

  lemma CountUpKeepsProtocol(s: State, t: nat)
    requires ProtocolOk(s) && t in s.freers && s.freers[t].CountingUp?
    ensures ProtocolOk(FreerStep(s, t))
  {
    if s.count == 0 {
      ThoseUpdate(s.freers, t, EdgeUp, CountingUp);
      ThoseUpdate(s.freers, t, EdgeUp, EdgeUp);
    } else {
      ThoseRemove(s.freers, t, CountingUp);
      ThoseRemove(s.freers, t, EdgeUp);
    }
  }

  lemma EdgeUpKeepsProtocol(s: State, t: nat)
    requires ProtocolOk(s) && t in s.freers && s.freers[t].EdgeUp?
    ensures ProtocolOk(FreerStep(s, t))
  {
    ThoseRemove(s.freers, t, CountingUp);
    ThoseRemove(s.freers, t, EdgeUp);
  }

  lemma FreerKeepsPages(s: State, t: nat)
    requires PagesOk(s) && t in s.freers
    ensures PagesOk(FreerStep(s, t))
  {
  }

  lemma FreeKeepsInv(s: State, t: nat, bit: nat)
    requires Inv(s) && Legal(s, Free(t, bit))
    ensures Inv(Apply(s, Free(t, bit)))
  {
    FreeKeepsProtocol(s, t, bit);
    FreeKeepsPages(s, t, bit);
  }

  lemma FreeKeepsProtocol(s: State, t: nat, bit: nat)
    requires ProtocolOk(s) && Legal(s, Free(t, bit))
    ensures ProtocolOk(Apply(s, Free(t, bit)))
  {
    ThoseUpdate(s.freers, t, Releasing(bit), CountingUp);
    ThoseUpdate(s.freers, t, Releasing(bit), EdgeUp);
  }

  lemma FreeKeepsPages(s: State, t: nat, bit: nat)
    requires PagesOk(s) && Legal(s, Free(t, bit))
    ensures PagesOk(Apply(s, Free(t, bit)))
  {
  }

  lemma ApplyKeepsInv(s: State, l: Label)
    requires Inv(s) && Legal(s, l)
    ensures Inv(Apply(s, l))
  {
    match l
    case Arrive =>
      ArriveKeepsProtocol(s);
      ArriveKeepsPages(s);
    case Allocator =>
      AllocatorKeepsProtocol(s);
      AllocatorKeepsPages(s);
    case Free(t, bit) =>
      FreeKeepsInv(s, t, bit);
    case Freer(t) =>
      match s.freers[t] {
        case Releasing(_) => ReleaseKeepsProtocol(s, t);
        case CountingUp => CountUpKeepsProtocol(s, t);
        case EdgeUp => EdgeUpKeepsProtocol(s, t);
      }
      FreerKeepsPages(s, t);
  }

  /** The invariant holds in every interleaving of the allocator with any number of freers. */
  lemma {:induction false} RunKeepsInv(s: State, run: seq<Label>)
    requires Inv(s)
    ensures Exec(s, run).Some? ==> Inv(Exec(s, run).value)
    decreases |run|
  {
    if run != [] && Legal(s, run[0]) {
      ApplyKeepsInv(s, run[0]);
      RunKeepsInv(Apply(s, run[0]), run[1..]);
    }
  }

  lemma SeededOk(available: set<nat>)
    ensures Inv(Seeded(available))
  {
    assert Those(map[], CountingUp) == {} && Those(map[], EdgeUp) == {};
  }

  /**
   In every run the count of non-empty words stays between 0 and 2, the parent bit corrected by the
   edges still to come tells whether it is positive, and a claim reached through a set parent bit
   never fails.
   */
  lemma LeafIsSound(available: set<nat>, run: seq<Label>)
    requires Exec(Seeded(available), run).Some?
    ensures var s := Exec(Seeded(available), run).value;
      && 0 <= s.count <= 2
      && (s.parentBit != (PendingEdges(s) % 2 == 1) <==> s.count > 0)
      && !s.allocator.Failed?
      && (s.allocator.Counting? ==> s.count >= 1)
  {
    SeededOk(available);
    RunKeepsInv(Seeded(available), run);
  }

  /** The page a claim takes is not in any caller's hands, nor on its way back from one. */
  lemma NoLivePageHandedOut(available: set<nat>, run: seq<Label>)
    requires Exec(Seeded(available), run).Some? && Legal(Exec(Seeded(available), run).value, Allocator)
    ensures var s := Exec(Seeded(available), run).value;
      AllocatorStep(s).allocator.Counting? && !s.allocator.Counting? ==>
        && AllocatorStep(s).allocator.bit !in s.live
        && forall t :: t in s.freers && s.freers[t].Releasing? ==> s.freers[t].bit != AllocatorStep(s).allocator.bit
  {
    SeededOk(available);
    RunKeepsInv(Seeded(available), run);
  }

  lemma QuietIsExact(s: State)
    requires Inv(s) && s.freers == map[] && s.allocator.Away?
    ensures s.count == B(s.allocWord != {}) + B(s.freeWord != {})
    ensures s.parentBit <==> s.allocWord + s.freeWord != {}
  {
    assert Those(s.freers, CountingUp) == {} && Those(s.freers, EdgeUp) == {};
  }

  /** With nothing in flight the count is the number of non-empty words and the parent bit is exact. */
  lemma QuietLeafIsExact(available: set<nat>, run: seq<Label>)
    requires Exec(Seeded(available), run).Some?
    requires var s := Exec(Seeded(available), run).value; s.freers == map[] && s.allocator.Away?
    ensures var s := Exec(Seeded(available), run).value;
      && s.count == B(s.allocWord != {}) + B(s.freeWord != {})
      && (s.parentBit <==> s.allocWord + s.freeWord != {})
  {
    SeededOk(available);
    RunKeepsInv(Seeded(available), run);
    QuietIsExact(Exec(Seeded(available), run).value);
  }
}
