/**
 The VMSubstrate radix tree under overlapping calls: one allocator that descends, claims a page and lowers
 bits, and any number of freers that return pages and raise bits. Each load and each fetch_xor of a word is
 one step; inside a leaf the steps are those of LeafProtocol. A fetch_xor toggles the bit of one child and
 its caller goes on to the next level only when the word crossed zero in the caller's own direction.
 */
module TreeEdges {

  import opened Wrappers
  import opened Counting
  import opened RadixTree
  import Leaf = LeafProtocol

  /** The allocator's place in the tree. */
  datatype Walker =
    | Resting
    | Walking(at: Child)      // load of this bitmap's word to come
    | InLeaf(leaf: nat)       // in claimLeafBit, or about to toggle the leaf's own bit
    | Lowering(child: Child)  // fetch_xor of this bit to come
    | Exhausted               // descendToFreeLeaf returned SIZE_MAX

  /** A freer, by the leaf it freed a page of. */
  datatype Freer = Freer(leaf: nat, t: nat)

  datatype State = State(
    depth: nat, leaves: seq<Leaf.State>,
    marks: set<Child>,              // the set bits of the interior bitmaps
    raising: map<Freer, Child>,     // fetch_xor of this bit to come
    walker: Walker)

  datatype Label =
    | Begin
    | Look(child: Child)
    | Allocate
    | Lower
    | Free(leaf: nat, t: nat, bit: nat)
    | Freeing(leaf: nat, t: nat)
    | Raise(who: Freer)

  // ----- words and toggles -----

  function Up(c: Child): Child {
    Child(c.level + 1, c.idx / 64)
  }

  /** The word of a bitmap, as the set of its marked children. */
  function Kids(marks: set<Child>, p: Child): set<Child> {
    set c | c in marks && Up(c) == p
  }

  /** A toggle of a child's bit by an availability edge or a full one. */
  datatype Edge = Edge(child: Child, isAvailable: bool)

  /** propagateEdge goes on: the word was zero, or has become zero. */
  predicate Continues(marks: set<Child>, e: Edge) {
    if e.isAvailable then Kids(marks, Up(e.child)) == {} else Kids(Toggle(marks, e.child), Up(e.child)) == {}
  }

  /** The word crosses zero against the direction of the edge: an availability edge empties it, or a full edge fills it. */
  predicate WrongWay(marks: set<Child>, e: Edge) {
    if e.isAvailable then Kids(Toggle(marks, e.child), Up(e.child)) == {} else Kids(marks, Up(e.child)) == {}
  }

  function Next(depth: nat, marks: set<Child>, e: Edge): Option<Child> {
    if Continues(marks, e) && e.child.level + 2 < depth then Some(Up(e.child)) else None
  }

  // ----- steps -----

  predicate Legal(s: State, l: Label) {
    match l
    case Begin => (s.walker.Resting? || s.walker.Exhausted?) && s.depth >= 2
    case Look(child) =>
      s.walker.Walking? && var word := Kids(s.marks, s.walker.at);
      word != {} ==> child in word && (forall c :: c in word ==> child.idx <= c.idx)
                     && (child.level == 0 ==> child.idx < |s.leaves| && Leaf.Legal(s.leaves[child.idx], Leaf.Arrive))
    case Allocate => s.walker.InLeaf? && s.walker.leaf < |s.leaves| && Leaf.Legal(s.leaves[s.walker.leaf], Leaf.Allocator)
    case Lower => s.walker.Lowering?
    case Free(leaf, t, bit) => leaf < |s.leaves| && Freer(leaf, t) !in s.raising && Leaf.Legal(s.leaves[leaf], Leaf.Free(t, bit))
    case Freeing(leaf, t) => leaf < |s.leaves| && Leaf.Legal(s.leaves[leaf], Leaf.Freer(t)) && Freer(leaf, t) !in s.raising
    case Raise(who) => who in s.raising
  }

  /** The toggle that a step performs, if any. */
  function EdgeOf(s: State, l: Label): Option<Edge>
    requires Legal(s, l)
  {
    match l
    case Allocate => if s.leaves[s.walker.leaf].allocator.EdgeDown? then Some(Edge(Child(0, s.walker.leaf), false)) else None
    case Lower => Some(Edge(s.walker.child, false))
    case Freeing(leaf, t) => if s.leaves[leaf].freers[t].EdgeUp? then Some(Edge(Child(0, leaf), true)) else None
    case Raise(who) => Some(Edge(s.raising[who], true))
    case _ => None
  }

  function MarksAfter(s: State, l: Label): set<Child>
    requires Legal(s, l)
  {
    if EdgeOf(s, l).Some? then Toggle(s.marks, EdgeOf(s, l).value.child) else s.marks
  }

  /** Where propagateEdge goes after the step, if it goes on. */
  function NextAfter(s: State, l: Label): Option<Child>
    requires Legal(s, l)
  {
    if EdgeOf(s, l).Some? then Next(s.depth, s.marks, EdgeOf(s, l).value) else None
  }

  function WithRaising(raising: map<Freer, Child>, who: Freer, next: Option<Child>): map<Freer, Child> {
    if next.Some? then raising[who := next.value] else raising - {who}
  }

  function Lowered(next: Option<Child>): Walker {
    if next.Some? then Lowering(next.value) else Resting
  }

  ghost function LeafAfter(s: State, leaf: nat, l: Leaf.Label): seq<Leaf.State>
    requires leaf < |s.leaves| && Leaf.Legal(s.leaves[leaf], l)
  {
    s.leaves[leaf := Leaf.Apply(s.leaves[leaf], l)]
  }

  ghost function Apply(s: State, l: Label): State
    requires Legal(s, l)
  {
    var marks, next := MarksAfter(s, l), NextAfter(s, l);
    match l
    case Begin => s.(walker := Walking(Child(s.depth - 1, 0)))
    case Look(child) =>
      if Kids(s.marks, s.walker.at) == {} then s.(walker := Exhausted)
      else if child.level > 0 then s.(walker := Walking(child))
      else s.(leaves := LeafAfter(s, child.idx, Leaf.Arrive), walker := InLeaf(child.idx))
    case Allocate =>
      var leaves := LeafAfter(s, s.walker.leaf, Leaf.Allocator);
      s.(leaves := leaves, marks := marks,
         walker := if leaves[s.walker.leaf].allocator.Away? then Lowered(next) else s.walker)
    case Lower => s.(marks := marks, walker := Lowered(next))
    case Free(leaf, t, bit) => s.(leaves := LeafAfter(s, leaf, Leaf.Free(t, bit)))
    case Freeing(leaf, t) =>
      s.(leaves := LeafAfter(s, leaf, Leaf.Freer(t)), marks := marks, raising := WithRaising(s.raising, Freer(leaf, t), next))
    case Raise(who) => s.(marks := marks, raising := WithRaising(s.raising, who, next))
  }

  /** The state after a run, None when a step of it is not legal. */
  ghost function Exec(s: State, run: seq<Label>): Option<State> {
    if run == [] then Some(s)
    else match Exec(s, run[..|run| - 1])
      case None => None
      case Some(s') => if Legal(s', run[|run| - 1]) then Some(Apply(s', run[|run| - 1])) else None
  }

  // ----- what a toggle does to the words -----

  /** Only the word above the child changes, and one of its two values is not empty. */
  lemma KidsToggle(marks: set<Child>, c: Child, p: Child)
    ensures p != Up(c) ==> Kids(Toggle(marks, c), p) == Kids(marks, p)
    ensures p == Up(c) && c !in marks ==> c in Kids(Toggle(marks, c), p) && Kids(Toggle(marks, c), p) - {c} == Kids(marks, p)
    ensures p == Up(c) && c in marks ==> c in Kids(marks, p) && Kids(marks, p) - {c} == Kids(Toggle(marks, c), p)
  {
  }

  /** A toggle moves the word across zero exactly when its caller goes on or it is the wrong way, not both. */
  lemma Crossing(marks: set<Child>, e: Edge)
    ensures var p := Up(e.child);
      && (B(Kids(Toggle(marks, e.child), p) != {}) != B(Kids(marks, p) != {}) <==> Continues(marks, e) || WrongWay(marks, e))
      && !(Continues(marks, e) && WrongWay(marks, e))
  {
    KidsToggle(marks, e.child, Up(e.child));
  }

  // ----- the edges in flight -----

  function Raisers(raising: map<Freer, Child>, c: Child): set<Freer> {
    set who | who in raising && raising[who] == c
  }

  /** The toggles of a bit that calls in flight still have to perform. */
  function Pending(s: State, c: Child): nat {
    if c.level == 0 then if c.idx < |s.leaves| then Leaf.PendingEdges(s.leaves[c.idx]) else 0
    else |Raisers(s.raising, c)| + B(s.walker == Lowering(c))
  }

  lemma RaisersUpdate(raising: map<Freer, Child>, who: Freer, next: Option<Child>, c: Child)
    ensures |Raisers(WithRaising(raising, who, next), c)|
         == |Raisers(raising, c)| - B(who in raising && raising[who] == c) + B(next == Some(c))
  {
    SwapMember(Raisers(raising, c), Raisers(WithRaising(raising, who, next), c), who);
  }

  // ----- the shape of a state -----

  ghost predicate LeafOk(s: State, i: nat)
    requires i < |s.leaves|
  {
    && Leaf.Inv(s.leaves[i]) && (Child(0, i) in s.marks <==> s.leaves[i].parentBit)
    && (s.walker != InLeaf(i) ==> s.leaves[i].allocator.Away?)
  }

  ghost predicate LeavesOk(s: State) {
    forall i {:trigger LeafOk(s, i)} :: 0 <= i < |s.leaves| ==> LeafOk(s, i)
  }

  predicate Interior(depth: nat, c: Child) {
    1 <= c.level && c.level + 1 < depth
  }

  ghost predicate ShapeOk(s: State) {
    && s.depth >= 2
    && (forall c :: c in s.marks ==> c.level + 1 < s.depth && (c.level == 0 ==> c.idx < |s.leaves|))
    && (forall who :: who in s.raising ==> Interior(s.depth, s.raising[who]))
    && match s.walker
       case Walking(at) => 1 <= at.level < s.depth
       case InLeaf(leaf) => leaf < |s.leaves|
       case Lowering(c) => Interior(s.depth, c)
       case _ => true
  }

  lemma EdgeInTree(s: State, l: Label)
    requires ShapeOk(s) && Legal(s, l) && EdgeOf(s, l).Some?
    ensures var c := EdgeOf(s, l).value.child;
      c.level + 1 < s.depth && (c.level == 0 ==> c.idx < |s.leaves|)
  {
  }

  lemma StepShape(s: State, l: Label)
    requires ShapeOk(s) && Legal(s, l)
    ensures ShapeOk(Apply(s, l)) && Apply(s, l).depth == s.depth && |Apply(s, l).leaves| == |s.leaves|
  {
    if EdgeOf(s, l).Some? {
      EdgeInTree(s, l);
    }
  }

  /** A leaf that a step does not concern. */
  lemma OtherLeaf(s: State, s': State, i: nat)
    requires i < |s.leaves| == |s'.leaves| && LeafOk(s, i) && s'.leaves[i] == s.leaves[i]
    requires Child(0, i) in s'.marks <==> Child(0, i) in s.marks
    requires s'.walker != InLeaf(i) ==> s.walker != InLeaf(i)
    ensures LeafOk(s', i)
  {
  }

  /** The step of the leaf protocol is the toggle of the leaf's own bit. */
  predicate IsEdge(leaf: Leaf.State, l: Leaf.Label) {
    (l.Allocator? && leaf.allocator.EdgeDown?) || (l.Freer? && l.t in leaf.freers && leaf.freers[l.t].EdgeUp?)
  }

  lemma ParentBitStep(leaf: Leaf.State, l: Leaf.Label)
    requires Leaf.Legal(leaf, l)
    ensures Leaf.Apply(leaf, l).parentBit == (leaf.parentBit != IsEdge(leaf, l))
    ensures l.Free? || l.Freer? ==> Leaf.Apply(leaf, l).allocator == leaf.allocator
  {
  }

  lemma OwnLeaf(s: State, s': State, i: nat, l: Leaf.Label)
    requires i < |s.leaves| == |s'.leaves| && LeafOk(s, i) && Leaf.Legal(s.leaves[i], l) && s'.leaves[i] == Leaf.Apply(s.leaves[i], l)
    requires Child(0, i) in s'.marks <==> (Child(0, i) in s.marks) != IsEdge(s.leaves[i], l)
    requires s'.walker != InLeaf(i) ==> s'.leaves[i].allocator.Away?
    ensures LeafOk(s', i)
  {
    ParentBitStep(s.leaves[i], l);
    Leaf.ApplyKeepsInv(s.leaves[i], l);
  }

  /** The bits of the leaves follow the leaf protocol. */
  lemma StepLeaf(s: State, l: Label, i: nat)
    requires ShapeOk(s) && LeavesOk(s) && Legal(s, l) && i < |s.leaves|
    ensures LeafOk(Apply(s, l), i)
  {
    assert LeafOk(s, i);
    var s' := Apply(s, l);
    if LeafOf(s, l) == Some(i) {
      match l
      case Look(_) => OwnLeaf(s, s', i, Leaf.Arrive);
      case Allocate => OwnLeaf(s, s', i, Leaf.Allocator);
      case Free(_, t, bit) => FreeLeaf(s, i, t, bit);
      case Freeing(_, t) => FreeingLeaf(s, i, t);
    } else {
      LeavesAlone(s, l, i);
      OtherLeaf(s, s', i);
    }
  }

  /** The leaf whose protocol a step advances. */
  function LeafOf(s: State, l: Label): Option<nat>
    requires Legal(s, l)
  {
    match l
    case Look(child) => if Kids(s.marks, s.walker.at) != {} && child.level == 0 then Some(child.idx) else None
    case Allocate => Some(s.walker.leaf)
    case Free(leaf, _, _) => Some(leaf)
    case Freeing(leaf, _) => Some(leaf)
    case _ => None
  }

  lemma LeavesAlone(s: State, l: Label, i: nat)
    requires ShapeOk(s) && Legal(s, l) && i < |s.leaves| && LeafOf(s, l) != Some(i)
    ensures var s' := Apply(s, l);
      && |s'.leaves| == |s.leaves| && s'.leaves[i] == s.leaves[i]
      && (Child(0, i) in s'.marks <==> Child(0, i) in s.marks) && (s'.walker != InLeaf(i) ==> s.walker != InLeaf(i))
  {
  }

  lemma FreeLeaf(s: State, i: nat, t: nat, bit: nat)
    requires Legal(s, Free(i, t, bit)) && LeafOk(s, i)
    ensures LeafOk(Apply(s, Free(i, t, bit)), i)
  {
    ParentBitStep(s.leaves[i], Leaf.Free(t, bit));
    OwnLeaf(s, Apply(s, Free(i, t, bit)), i, Leaf.Free(t, bit));
  }

  lemma FreeingLeaf(s: State, i: nat, t: nat)
    requires Legal(s, Freeing(i, t)) && LeafOk(s, i)
    ensures LeafOk(Apply(s, Freeing(i, t)), i)
  {
    ParentBitStep(s.leaves[i], Leaf.Freer(t));
    OwnLeaf(s, Apply(s, Freeing(i, t)), i, Leaf.Freer(t));
  }

  ghost predicate Inv(s: State) {
    ShapeOk(s) && LeavesOk(s)
  }

  lemma StepKeepsInv(s: State, l: Label)
    requires Inv(s) && Legal(s, l)
    ensures Inv(Apply(s, l))
  {
    StepShape(s, l);
    forall i | 0 <= i < |s.leaves| ensures LeafOk(Apply(s, l), i) {
      StepLeaf(s, l, i);
    }
  }

  // ----- the upper bits, exactly -----

  /** The step is a toggle that moves the word of bitmap p across zero the wrong way. */
  predicate GoesWrong(s: State, l: Label, p: Child) {
    Legal(s, l) && EdgeOf(s, l).Some? && Up(EdgeOf(s, l).value.child) == p && WrongWay(s.marks, EdgeOf(s, l).value)
  }

  /** How often that has happened in a run. */
  ghost function WrongWays(s: State, run: seq<Label>, p: Child): nat {
    if run == [] then 0 else
    var before := Exec(s, run[..|run| - 1]);
    WrongWays(s, run[..|run| - 1], p) + B(before.Some? && GoesWrong(before.value, run[|run| - 1], p))
  }

  function Odd(n: nat): bool {
    n % 2 == 1
  }

  /** The bit of a bitmap, corrected by the toggles to come and the crossings that went wrong, tells whether its word is empty. */
  ghost predicate BitOk(s: State, wrong: nat, p: Child) {
    BitIs(p in s.marks, Pending(s, p), wrong, Kids(s.marks, p) != {})
  }

  predicate BitIs(mark: bool, pending: int, wrong: int, nonEmpty: bool) {
    (mark != (pending % 2 == 1)) != (wrong % 2 == 1) <==> nonEmpty
  }

  /** What a step does to the edges pending on an interior bit. */
  lemma StepPending(s: State, l: Label, p: Child)
    requires Inv(s) && Legal(s, l) && Interior(s.depth, p)
    ensures Pending(Apply(s, l), p) == Pending(s, p)
      - B(EdgeOf(s, l).Some? && EdgeOf(s, l).value.child == p) + B(NextAfter(s, l) == Some(p))
  {
    match l
    case Begin =>
    case Look(_) =>
    case Allocate =>
    case Lower =>
    case Free(_, _, _) =>
    case Freeing(leaf, t) => RaisersUpdate(s.raising, Freer(leaf, t), NextAfter(s, l), p);
    case Raise(who) => RaisersUpdate(s.raising, who, NextAfter(s, l), p);
  }

  lemma StepMarks(s: State, l: Label)
    requires Legal(s, l)
    ensures Apply(s, l).marks == MarksAfter(s, l)
  {
  }

  lemma ToggleBit(depth: nat, marks: set<Child>, e: Edge, pending: int, wrong: int, p: Child)
    requires BitIs(p in marks, pending, wrong, Kids(marks, p) != {}) && Interior(depth, p)
    ensures BitIs(p in Toggle(marks, e.child), pending - B(e.child == p) + B(Next(depth, marks, e) == Some(p)),
                  wrong + B(Up(e.child) == p && WrongWay(marks, e)), Kids(Toggle(marks, e.child), p) != {})
  {
    KidsToggle(marks, e.child, p);
    Crossing(marks, e);
  }

  lemma StepBit(s: State, l: Label, s': State, wrong: nat, p: Child)
    requires Inv(s) && Legal(s, l) && s' == Apply(s, l) && Interior(s.depth, p) && BitOk(s, wrong, p)
    ensures BitOk(s', wrong + B(GoesWrong(s, l, p)), p)
  {
    StepPending(s, l, p);
    StepMarks(s, l);
    BitFollows(s, l, s', wrong, p);
  }

  lemma BitFollows(s: State, l: Label, s': State, wrong: nat, p: Child)
    requires Legal(s, l) && Interior(s.depth, p) && BitOk(s, wrong, p) && s'.marks == MarksAfter(s, l)
    requires Pending(s', p) == Pending(s, p)
      - B(EdgeOf(s, l).Some? && EdgeOf(s, l).value.child == p) + B(NextAfter(s, l) == Some(p))
    ensures BitOk(s', wrong + B(GoesWrong(s, l, p)), p)
  {
    if EdgeOf(s, l).Some? {
      ToggleBit(s.depth, s.marks, EdgeOf(s, l).value, Pending(s, p), wrong, p);
    }
  }

  // ----- the start -----

  /** The leaves with a free page. */
  ghost function Available(s: State): (r: set<nat>)
    ensures forall i :: i in r <==> 0 <= i < |s.leaves| && s.leaves[i].allocWord + s.leaves[i].freeWord != {}
  {
    set i | 0 <= i < |s.leaves| && s.leaves[i].allocWord + s.leaves[i].freeWord != {}
  }

  /** An arena as its creation leaves it: some pages of each leaf available, the bits right. */
  ghost predicate Seeded(s: State) {
    && |s.leaves| >= 2 && s.depth == Depth(|s.leaves|) && s.raising == map[] && s.walker == Resting
    && (forall i :: 0 <= i < |s.leaves| ==> s.leaves[i] == Leaf.Seeded(s.leaves[i].allocWord))
    && TreeOk(s.marks, Available(s), s.depth)
    && (forall c :: c in s.marks ==> c.level + 1 < s.depth && (c.level == 0 ==> c.idx < |s.leaves|))
  }

  /** When the bits of a level are right, the words above it are empty exactly where no leaf is available. */
  lemma KidsTell(marks: set<Child>, avail: set<nat>, p: Child)
    requires p.level > 0 && forall c: Child :: c.level == p.level - 1 ==> MarkOk(marks, avail, c)
    ensures Kids(marks, p) != {} <==> HasLeaf(avail, p)
  {
    if c :| c in Kids(marks, p) {
      assert MarkOk(marks, avail, c);
      var leaf :| leaf in avail && Ancestor(leaf, c.level) == c.idx;
      assert Ancestor(leaf, p.level) == p.idx;
    }
    if HasLeaf(avail, p) {
      var leaf :| leaf in avail && Ancestor(leaf, p.level) == p.idx;
      var c := Child(p.level - 1, Ancestor(leaf, p.level - 1));
      assert HasLeaf(avail, c) && MarkOk(marks, avail, c);
      assert c in Kids(marks, p);
    }
  }

  lemma SeededOk(s: State)
    requires Seeded(s)
    ensures Inv(s) && forall p: Child :: Interior(s.depth, p) ==> BitOk(s, 0, p)
  {
    DepthReachesRoot(|s.leaves|, 0);
    forall i | 0 <= i < |s.leaves| ensures LeafOk(s, i) {
      Leaf.SeededOk(s.leaves[i].allocWord);
      assert MarkOk(s.marks, Available(s), Child(0, i));
      LeafAlone(Available(s), i);
    }
    forall p: Child | Interior(s.depth, p) ensures BitOk(s, 0, p) {
      assert MarkOk(s.marks, Available(s), p);
      assert Raisers(s.raising, p) == {};
      KidsTell(s.marks, Available(s), p);
    }
  }

  lemma LeafAlone(avail: set<nat>, i: nat)
    ensures HasLeaf(avail, Child(0, i)) <==> i in avail
  {
    if i in avail {
      assert Ancestor(i, 0) == i;
    }
  }

  /** The last step of a run. */
  lemma LastStep(s: State, run: seq<Label>) returns (before: State, l: Label)
    requires run != [] && Exec(s, run).Some?
    ensures Exec(s, run[..|run| - 1]) == Some(before) && l == run[|run| - 1]
    ensures Legal(before, l) && Exec(s, run) == Some(Apply(before, l))
  {
    before, l := Exec(s, run[..|run| - 1]).value, run[|run| - 1];
  }

  lemma LastWrong(s: State, run: seq<Label>, before: State, p: Child)
    requires run != [] && Exec(s, run[..|run| - 1]) == Some(before)
    ensures WrongWays(s, run, p) == WrongWays(s, run[..|run| - 1], p) + B(GoesWrong(before, run[|run| - 1], p))
  {
  }

  lemma {:induction false} RunKeepsInv(s: State, run: seq<Label>)
    requires Inv(s) && Exec(s, run).Some?
    ensures Inv(Exec(s, run).value) && Exec(s, run).value.depth == s.depth && |Exec(s, run).value.leaves| == |s.leaves|
  {
    if run != [] {
      var before, l := LastStep(s, run);
      RunKeepsInv(s, run[..|run| - 1]);
      StepKeepsInv(before, l);
      StepShape(before, l);
    }
  }

  lemma {:induction false} RunKeepsBit(s: State, run: seq<Label>, p: Child) returns (s': State, wrong: nat)
    requires Inv(s) && Interior(s.depth, p) && BitOk(s, 0, p) && Exec(s, run).Some?
    ensures Exec(s, run) == Some(s') && WrongWays(s, run, p) == wrong && BitOk(s', wrong, p)
    ensures Inv(s') && s'.depth == s.depth
  {
    if run == [] {
      s', wrong := s, 0;
    } else {
      var before, l := LastStep(s, run);
      var b, w := RunKeepsBit(s, run[..|run| - 1], p);
      s', wrong := Apply(before, l), w + B(GoesWrong(before, l, p));
      LastWrong(s, run, before, p);
      StepBit(before, l, s', w, p);
      StepKeepsInv(before, l);
      StepShape(before, l);
    }
  }

  /**
   In every run, at every level: the bit of a bitmap, corrected by the toggles that calls in flight still
   have to perform and by the crossings that went the wrong way, tells whether its word is empty.
   */
  lemma UpperBitExactly(s: State, run: seq<Label>, p: Child)
    requires Seeded(s) && Interior(s.depth, p) && Exec(s, run).Some?
    ensures var s' := Exec(s, run).value;
      ((p in s'.marks) != Odd(Pending(s', p))) != Odd(WrongWays(s, run, p)) <==> Kids(s'.marks, p) != {}
  {
    SeededOk(s);
    var s', wrong := RunKeepsBit(s, run, p);
  }

  // ----- a quiet tree -----

  /** No call is in flight. */
  ghost predicate Quiet(s: State) {
    && s.raising == map[] && (s.walker.Resting? || s.walker.Exhausted?)
    && forall i :: 0 <= i < |s.leaves| ==> s.leaves[i].freers == map[] && s.leaves[i].allocator.Away?
  }

  lemma QuietLeaf(s: State, i: nat)
    requires Inv(s) && Quiet(s) && i < |s.leaves|
    ensures Child(0, i) in s.marks <==> i in Available(s)
  {
    assert LeafOk(s, i);
    Leaf.QuietIsExact(s.leaves[i]);
  }

  lemma QuietLevelZero(s: State, c: Child)
    requires Inv(s) && Quiet(s) && c.level == 0
    ensures MarkOk(s.marks, Available(s), c)
  {
    LeafAlone(Available(s), c.idx);
    if c.idx < |s.leaves| {
      QuietLeaf(s, c.idx);
    }
  }

  lemma QuietBit(s: State, wrong: nat, p: Child)
    requires Inv(s) && Quiet(s) && Interior(s.depth, p) && BitOk(s, wrong, p)
    ensures !Odd(wrong) <==> (p in s.marks <==> Kids(s.marks, p) != {})
  {
    assert Raisers(s.raising, p) == {};
  }

  /** A bit that is wrong when no call is in flight has been crossed the wrong way an odd number of times. */
  lemma WrongBitIsOdd(s: State, run: seq<Label>, s': State, p: Child)
    requires Seeded(s) && Interior(s.depth, p) && Exec(s, run) == Some(s') && Quiet(s')
    ensures (p in s'.marks <==> Kids(s'.marks, p) == {}) <==> Odd(WrongWays(s, run, p))
  {
    SeededOk(s);
    var end, wrong := RunKeepsBit(s, run, p);
    QuietBit(s', wrong, p);
  }

  lemma {:induction false} EvenLevels(s: State, c: Child)
    requires Inv(s) && Quiet(s) && c.level + 1 < s.depth
    requires forall p: Child :: Interior(s.depth, p) ==> (p in s.marks <==> Kids(s.marks, p) != {})
    ensures MarkOk(s.marks, Available(s), c)
    decreases c.level
  {
    if c.level == 0 {
      QuietLevelZero(s, c);
    } else {
      forall k: Child | k.level == c.level - 1 ensures MarkOk(s.marks, Available(s), k) {
        EvenLevels(s, k);
      }
      KidsTell(s.marks, Available(s), c);
    }
  }

  /**
   When no call is in flight, all interior bits are right if and only if at every bitmap the crossings that
   went the wrong way are even in number.
   */
  lemma QuietTreeExactly(s: State, run: seq<Label>)
    requires Seeded(s) && Exec(s, run).Some? && Quiet(Exec(s, run).value)
    ensures var s' := Exec(s, run).value;
      TreeOk(s'.marks, Available(s'), s'.depth) <==> forall p: Child :: Interior(s.depth, p) ==> !Odd(WrongWays(s, run, p))
  {
    SeededOk(s);
    RunKeepsInv(s, run);
    var s' := Exec(s, run).value;
    forall p: Child | Interior(s.depth, p)
      ensures !Odd(WrongWays(s, run, p)) <==> (p in s'.marks <==> Kids(s'.marks, p) != {})
    {
      var s'', wrong := RunKeepsBit(s, run, p);
      QuietBit(s', wrong, p);
    }
    if TreeOk(s'.marks, Available(s'), s'.depth) {
      forall p: Child | Interior(s.depth, p) ensures p in s'.marks <==> Kids(s'.marks, p) != {} {
        assert MarkOk(s'.marks, Available(s'), p);
        KidsTell(s'.marks, Available(s'), p);
      }
    } else if forall p: Child :: Interior(s.depth, p) ==> !Odd(WrongWays(s, run, p)) {
      forall c: Child | c.level + 1 < s'.depth ensures MarkOk(s'.marks, Available(s'), c) {
        EvenLevels(s', c);
      }
    }
  }

  // ----- edges that do not overlap -----

  /** A toggle performed by the step is the only one pending on its bit. */
  ghost predicate Alone(s: State, l: Label) {
    Legal(s, l) && (EdgeOf(s, l).Some? ==> Pending(s, EdgeOf(s, l).value.child) == 1)
  }

  ghost predicate AllAlone(s: State, run: seq<Label>) {
    run != [] ==>
      var before := Exec(s, run[..|run| - 1]);
      AllAlone(s, run[..|run| - 1]) && before.Some? && Alone(before.value, run[|run| - 1])
  }

  /** A full edge that is alone on a leaf follows the emptying of the leaf. */
  ghost predicate LeafDirected(leaf: Leaf.State) {
    leaf.allocator.EdgeDown? && |Leaf.Those(leaf.freers, Leaf.EdgeUp)| == 0 ==> leaf.count == 0
  }

  /** An edge that is alone on an interior bit has the direction of the word's last crossing. */
  ghost predicate Directed(s: State, p: Child) {
    Pending(s, p) == 1 ==> (s.walker == Lowering(p) <==> Kids(s.marks, p) == {})
  }

  ghost predicate AllDirected(s: State) {
    && (forall i {:trigger LeafDirected(s.leaves[i])} :: 0 <= i < |s.leaves| ==> LeafDirected(s.leaves[i]))
    && (forall p: Child {:trigger Directed(s, p)} :: Interior(s.depth, p) ==> Directed(s, p) && BitOk(s, 0, p))
  }

  lemma LeafGoesRight(leaf: Leaf.State, l: Leaf.Label)
    requires Leaf.Inv(leaf) && LeafDirected(leaf) && Leaf.Legal(leaf, l) && IsEdge(leaf, l) && Leaf.PendingEdges(leaf) == 1
    ensures leaf.parentBit <==> l.Allocator?
  {
    if l.Freer? {
      assert l.t in Leaf.Those(leaf.freers, Leaf.EdgeUp);
    }
  }

  lemma InteriorGoesRight(s: State, l: Label)
    requires Legal(s, l) && (l.Lower? || l.Raise?)
    requires var p := EdgeOf(s, l).value.child; p.level > 0 && Pending(s, p) == 1 && Directed(s, p) && BitOk(s, 0, p)
    ensures EdgeOf(s, l).value.child in s.marks <==> l.Lower?
  {
    if l.Raise? {
      assert l.who in Raisers(s.raising, s.raising[l.who]);
    }
  }

  /** A toggle that is alone on its bit sets it when pages became available and clears it when they ran out. */
  lemma AloneGoesRight(s: State, l: Label)
    requires Inv(s) && AllDirected(s) && Alone(s, l) && EdgeOf(s, l).Some?
    ensures EdgeOf(s, l).value.child in s.marks <==> !EdgeOf(s, l).value.isAvailable
  {
    match l
    case Allocate =>
      assert LeafOk(s, s.walker.leaf) && LeafDirected(s.leaves[s.walker.leaf]);
      LeafGoesRight(s.leaves[s.walker.leaf], Leaf.Allocator);
    case Freeing(leaf, t) =>
      assert LeafOk(s, leaf) && LeafDirected(s.leaves[leaf]);
      LeafGoesRight(s.leaves[leaf], Leaf.Freer(t));
    case Lower =>
      assert Directed(s, s.walker.child);
      InteriorGoesRight(s, l);
    case Raise(who) =>
      assert Directed(s, s.raising[who]);
      InteriorGoesRight(s, l);
  }

  lemma RightIsNotWrong(marks: set<Child>, e: Edge)
    requires e.child in marks <==> !e.isAvailable
    ensures !WrongWay(marks, e)
  {
    KidsToggle(marks, e.child, Up(e.child));
  }

  lemma AloneNotWrong(s: State, l: Label, p: Child)
    requires Inv(s) && AllDirected(s) && Alone(s, l)
    ensures !GoesWrong(s, l, p)
  {
    if EdgeOf(s, l).Some? {
      AloneGoesRight(s, l);
      RightIsNotWrong(s.marks, EdgeOf(s, l).value);
    }
  }

  lemma LeafStaysDirected(leaf: Leaf.State, l: Leaf.Label)
    requires Leaf.Inv(leaf) && LeafDirected(leaf) && Leaf.Legal(leaf, l) && (IsEdge(leaf, l) ==> Leaf.PendingEdges(leaf) == 1)
    ensures LeafDirected(Leaf.Apply(leaf, l))
  {
    match l
    case Arrive =>
    case Allocator =>
    case Free(t, bit) => Leaf.ThoseUpdate(leaf.freers, t, Leaf.Releasing(bit), Leaf.EdgeUp);
    case Freer(t) =>
      if leaf.freers[t].EdgeUp? {
        RaiseStaysDirected(leaf, t);
      } else {
        FreerStaysDirected(leaf, t);
      }
  }

  lemma RaiseStaysDirected(leaf: Leaf.State, t: nat)
    requires LeafDirected(leaf) && t in leaf.freers && leaf.freers[t].EdgeUp? && Leaf.PendingEdges(leaf) == 1
    ensures LeafDirected(Leaf.FreerStep(leaf, t))
  {
    assert t in Leaf.Those(leaf.freers, Leaf.EdgeUp);
  }

  lemma FreerStaysDirected(leaf: Leaf.State, t: nat)
    requires LeafDirected(leaf) && t in leaf.freers && !leaf.freers[t].EdgeUp?
    ensures LeafDirected(Leaf.FreerStep(leaf, t))
  {
    var up := Leaf.EdgeUp;
    if leaf.freers[t].Releasing? && leaf.freeWord == {} {
      Leaf.ThoseUpdate(leaf.freers, t, Leaf.CountingUp, up);
    } else if leaf.freers[t].CountingUp? && leaf.count == 0 {
      Leaf.ThoseUpdate(leaf.freers, t, up, up);
    } else {
      Leaf.ThoseRemove(leaf.freers, t, up);
    }
  }

  /** The interior bits stay directed. */
  lemma StaysDirected(s: State, l: Label, p: Child)
    requires Inv(s) && Alone(s, l) && Interior(s.depth, p) && Directed(s, p) && !GoesWrong(s, l, p)
    ensures Directed(Apply(s, l), p)
  {
    StepPending(s, l, p);
    StepMarks(s, l);
    StepLowering(s, l, p);
    if EdgeOf(s, l).Some? {
      KeepsDirection(s.depth, s.marks, EdgeOf(s, l).value, Pending(s, p), s.walker == Lowering(p), p);
    }
  }

  /** The allocator starts to lower a bit when its full edge goes on there, and stops with the toggle. */
  lemma StepLowering(s: State, l: Label, p: Child)
    requires Inv(s) && Legal(s, l) && Interior(s.depth, p)
    ensures EdgeOf(s, l).None? ==> (Apply(s, l).walker == Lowering(p) <==> s.walker == Lowering(p))
    ensures EdgeOf(s, l).Some? && EdgeOf(s, l).value.child != p ==>
      (Apply(s, l).walker == Lowering(p) <==>
       s.walker == Lowering(p) || (NextAfter(s, l) == Some(p) && !EdgeOf(s, l).value.isAvailable))
  {
  }

  lemma KeepsDirection(depth: nat, marks: set<Child>, e: Edge, pending: nat, lowering: bool, p: Child)
    requires pending == 1 ==> (lowering <==> Kids(marks, p) == {})
    requires (lowering ==> pending >= 1) && (e.child == p ==> pending == 1) && Interior(depth, p)
    requires !(Up(e.child) == p && WrongWay(marks, e))
    ensures e.child != p && pending + B(Next(depth, marks, e) == Some(p)) == 1 ==>
      (lowering || (Next(depth, marks, e) == Some(p) && !e.isAvailable) <==> Kids(Toggle(marks, e.child), p) == {})
  {
    KidsToggle(marks, e.child, p);
    Crossing(marks, e);
  }

  /** The leaf step behind a step of the tree. */
  function LeafLabel(s: State, l: Label): Leaf.Label
    requires Legal(s, l) && LeafOf(s, l).Some?
  {
    match l
    case Look(_) => Leaf.Arrive
    case Allocate => Leaf.Allocator
    case Free(_, t, bit) => Leaf.Free(t, bit)
    case Freeing(_, t) => Leaf.Freer(t)
  }

  lemma LeafOfStep(s: State, l: Label, i: nat)
    requires ShapeOk(s) && Legal(s, l) && LeafOf(s, l) == Some(i)
    ensures i < |s.leaves| == |Apply(s, l).leaves| && Leaf.Legal(s.leaves[i], LeafLabel(s, l))
    ensures Apply(s, l).leaves[i] == Leaf.Apply(s.leaves[i], LeafLabel(s, l))
    ensures IsEdge(s.leaves[i], LeafLabel(s, l)) ==> EdgeOf(s, l).Some? && EdgeOf(s, l).value.child == Child(0, i)
  {
  }

  lemma StepLeafDirected(s: State, l: Label, i: nat)
    requires Inv(s) && AllDirected(s) && Alone(s, l) && i < |s.leaves|
    ensures i < |Apply(s, l).leaves| && LeafDirected(Apply(s, l).leaves[i])
  {
    assert LeafOk(s, i) && LeafDirected(s.leaves[i]);
    if LeafOf(s, l) == Some(i) {
      LeafOfStep(s, l, i);
      LeafStaysDirected(s.leaves[i], LeafLabel(s, l));
    } else {
      LeavesAlone(s, l, i);
    }
  }

  lemma StepDirected(s: State, l: Label)
    requires Inv(s) && AllDirected(s) && Alone(s, l)
    ensures AllDirected(Apply(s, l))
  {
    var s' := Apply(s, l);
    StepShape(s, l);
    forall i | 0 <= i < |s'.leaves| ensures LeafDirected(s'.leaves[i]) {
      StepLeafDirected(s, l, i);
    }
    forall p: Child | Interior(s'.depth, p) ensures Directed(s', p) && BitOk(s', 0, p) {
      assert Directed(s, p);
      AloneNotWrong(s, l, p);
      StaysDirected(s, l, p);
      StepBit(s, l, s', 0, p);
    }
  }

  lemma SeededDirected(s: State)
    requires Seeded(s)
    ensures AllDirected(s)
  {
    SeededOk(s);
    forall p: Child | Interior(s.depth, p) ensures Directed(s, p) && BitOk(s, 0, p) {
      assert Raisers(s.raising, p) == {};
    }
  }

  lemma {:induction false} AloneNeverWrong(s: State, run: seq<Label>, p: Child)
    requires Inv(s) && AllDirected(s) && Exec(s, run).Some? && AllAlone(s, run)
    ensures AllDirected(Exec(s, run).value) && WrongWays(s, run, p) == 0
  {
    if run != [] {
      var before, l := LastStep(s, run);
      AloneNeverWrong(s, run[..|run| - 1], p);
      RunKeepsInv(s, run[..|run| - 1]);
      AloneNotWrong(before, l, p);
      LastWrong(s, run, before, p);
      StepDirected(before, l);
    }
  }

  /**
   A crossing goes the wrong way only after two edges have been in flight on one bit: when every toggle was the
   only one pending on its bit, all interior bits are right once no call is in flight.
   */
  lemma ApartEdgesExact(s: State, run: seq<Label>)
    requires Seeded(s) && Exec(s, run).Some? && AllAlone(s, run) && Quiet(Exec(s, run).value)
    ensures var s' := Exec(s, run).value; TreeOk(s'.marks, Available(s'), s'.depth)
  {
    SeededOk(s);
    SeededDirected(s);
    forall p: Child | Interior(s.depth, p) ensures !Odd(WrongWays(s, run, p)) {
      AloneNeverWrong(s, run, p);
    }
    QuietTreeExactly(s, run);
  }
}
