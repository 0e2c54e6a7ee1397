/**
 A run after which the radix tree hides free pages: opposite edges of one leaf are reordered around the edge of
 a sibling, and the bit above their common word stays clear. The arena has 65 leaves, all but three pages of
 which were set aside when it was created.
 */
module EdgeRace {

  import opened Wrappers
  import opened Counting
  import opened RadixTree
  import opened TreeEdges
  import Leaf = LeafProtocol

  const FIRST := Child(0, 0)
  const SECOND := Child(0, 1)
  const ABOVE := Child(1, 0)
  const ROOT := Child(2, 0)

  ghost function Rest(): seq<Leaf.State> {
    seq(63, _ => Leaf.Seeded({}))
  }

  ghost function Tree(a: Leaf.State, b: Leaf.State, marks: set<Child>, raising: map<Freer, Child>, walker: Walker): State {
    State(3, [a, b] + Rest(), marks, raising, walker)
  }

  lemma Put(a: Leaf.State, b: Leaf.State, x: Leaf.State)
    ensures ([a, b] + Rest())[0 := x] == [x, b] + Rest() && ([a, b] + Rest())[1 := x] == [a, x] + Rest()
  {
  }

  // The first leaf with one page and the second with two, in the conditions they go through.

  const FIRST_FRESH := Leaf.State({0}, {}, 1, true, {}, Leaf.Away, map[])
  const FIRST_FULL := Leaf.State({}, {}, 0, false, {0}, Leaf.Away, map[])
  const FIRST_FREED := Leaf.State({}, {0}, 1, true, {}, Leaf.Away, map[])
  const SECOND_FRESH := Leaf.State({0, 1}, {}, 1, true, {}, Leaf.Away, map[])
  const SECOND_HALF := Leaf.State({1}, {}, 1, true, {0}, Leaf.Away, map[])
  const SECOND_LEAVING := Leaf.State({}, {}, 0, true, {0}, Leaf.EdgeDown(1), map[])
  const SECOND_CROSSED := Leaf.State({}, {0}, 1, false, {}, Leaf.EdgeDown(1), map[])
  const SECOND_FREED := Leaf.State({}, {0}, 1, true, {1}, Leaf.Away, map[])

  ghost function Start(): State {
    Tree(FIRST_FRESH, SECOND_FRESH, {FIRST, SECOND, ABOVE}, map[], Resting)
  }

  lemma StartSeeded()
    ensures Seeded(Start())
  {
    var s := Start();
    assert |s.leaves| == 65 && DepthFrom(65) == 1 + DepthFrom(2) == 3;
    assert Available(s) == {0, 1};
    forall c: Child | c.level + 1 < 3 ensures MarkOk(s.marks, {0, 1}, c) {
      assert Ancestor(0, 1) == Ancestor(0, 0) / 64 && Ancestor(1, 1) == Ancestor(1, 0) / 64;
      if c in s.marks {
        assert 0 in {0, 1} && 1 in {0, 1};
        assert Ancestor(if c == SECOND then 1 else 0, c.level) == c.idx;
      }
    }
  }

  // ----- runs -----

  /** The run leads to the state. The quantifier keeps runs from being unfolded where only states matter. */
  ghost predicate Reached(run: seq<Label>, s: State) {
    forall s0 {:trigger Exec(s0, run)} :: s0 == Start() ==> Exec(s0, run) == Some(s)
  }

  lemma Extend(run: seq<Label>, s: State, l: Label) returns (run': seq<Label>, s': State)
    requires Reached(run, s) && Legal(s, l)
    ensures Reached(run', s') && s' == Apply(s, l) && run' == run + [l]
  {
    run', s' := run + [l], Apply(s, l);
    assert Exec(Start(), run) == Some(s) && run'[..|run'| - 1] == run;
  }

  /** The allocator descends to the first marked leaf. */
  lemma Descend(run: seq<Label>, a: Leaf.State, b: Leaf.State, marks: set<Child>) returns (run': seq<Label>, s': State)
    requires Reached(run, Tree(a, b, marks, map[], Resting)) && ABOVE in marks && Kids(marks, ROOT) == {ABOVE}
    requires a.allocator.Away? && b.allocator.Away?
    requires (Kids(marks, ABOVE) == {FIRST, SECOND} && a.parentBit) || (Kids(marks, ABOVE) == {SECOND} && b.parentBit)
    ensures Reached(run', s')
    ensures s' == if Kids(marks, ABOVE) == {SECOND} then Tree(a, b.(allocator := Leaf.Claiming), marks, map[], InLeaf(1))
                  else Tree(a.(allocator := Leaf.Claiming), b, marks, map[], InLeaf(0))
  {
    var s := Tree(a, b, marks, map[], Resting);
    var s1, s2;
    run', s1 := Extend(run, s, Begin);
    assert s1 == Tree(a, b, marks, map[], Walking(ROOT));
    run', s2 := Extend(run', s1, Look(ABOVE));
    assert s2 == Tree(a, b, marks, map[], Walking(ABOVE));
    var leaf := if Kids(marks, ABOVE) == {SECOND} then SECOND else FIRST;
    assert FIRST in {FIRST, SECOND} && SECOND != FIRST;
    assert leaf in Kids(marks, ABOVE);
    run', s' := Extend(run', s2, Look(leaf));
    Put(a, b, s2.leaves[leaf.idx].(allocator := Leaf.Claiming));
  }

  // One step inside a leaf that toggles no bit.

  lemma StepFirst(run: seq<Label>, a: Leaf.State, b: Leaf.State, marks: set<Child>) returns (run': seq<Label>, s': State)
    requires Reached(run, Tree(a, b, marks, map[], InLeaf(0))) && Leaf.Legal(a, Leaf.Allocator) && !a.allocator.EdgeDown?
    ensures Reached(run', s')
    ensures var a' := Leaf.AllocatorStep(a);
      s' == Tree(a', b, marks, map[], if a'.allocator.Away? then Resting else InLeaf(0))
  {
    run', s' := Extend(run, Tree(a, b, marks, map[], InLeaf(0)), Allocate);
    Put(a, b, Leaf.AllocatorStep(a));
  }

  lemma StepSecond(run: seq<Label>, a: Leaf.State, b: Leaf.State, marks: set<Child>) returns (run': seq<Label>, s': State)
    requires Reached(run, Tree(a, b, marks, map[], InLeaf(1))) && Leaf.Legal(b, Leaf.Allocator) && !b.allocator.EdgeDown?
    ensures Reached(run', s')
    ensures var b' := Leaf.AllocatorStep(b);
      s' == Tree(a, b', marks, map[], if b'.allocator.Away? then Resting else InLeaf(1))
  {
    run', s' := Extend(run, Tree(a, b, marks, map[], InLeaf(1)), Allocate);
    Put(a, b, Leaf.AllocatorStep(b));
  }

  /** The only page of the first leaf is handed out; its bit goes, the bit above stays. */
  lemma FirstFilled() returns (run: seq<Label>, s: State)
    ensures Reached(run, s) && s == Tree(FIRST_FULL, SECOND_FRESH, {SECOND, ABOVE}, map[], Resting)
  {
    var marks := {FIRST, SECOND, ABOVE};
    assert Exec(Start(), []) == Some(Start());
    assert Kids(marks, ROOT) == {ABOVE} && Kids(marks, ABOVE) == {FIRST, SECOND};
    run, s := Descend([], FIRST_FRESH, SECOND_FRESH, marks);
    run, s := StepFirst(run, FIRST_FRESH.(allocator := Leaf.Claiming), SECOND_FRESH, marks);
    var claimed := Leaf.State({}, {}, 1, true, {}, Leaf.Counting(0), map[]);
    assert {0} - {0} == {} && {} + {0} == {0};
    assert s == Tree(claimed, SECOND_FRESH, marks, map[], InLeaf(0));
    run, s := StepFirst(run, claimed, SECOND_FRESH, marks);
    var leaving := Leaf.State({}, {}, 0, true, {}, Leaf.EdgeDown(0), map[]);
    assert s == Tree(leaving, SECOND_FRESH, marks, map[], InLeaf(0));
    run, s := LowerFirst(run, leaving, SECOND_FRESH);
  }

  lemma LowerFirst(run: seq<Label>, leaving: Leaf.State, b: Leaf.State) returns (run': seq<Label>, s': State)
    requires Reached(run, Tree(leaving, b, {FIRST, SECOND, ABOVE}, map[], InLeaf(0))) && leaving.allocator == Leaf.EdgeDown(0)
    ensures Reached(run', s')
    ensures s' == Tree(Leaf.AllocatorStep(leaving), b, {SECOND, ABOVE}, map[], Resting)
  {
    var s := Tree(leaving, b, {FIRST, SECOND, ABOVE}, map[], InLeaf(0));
    run', s' := Extend(run, s, Allocate);
    assert Toggle(s.marks, FIRST) == {SECOND, ABOVE};
    assert SECOND in Kids({SECOND, ABOVE}, ABOVE);
    Put(leaving, b, Leaf.AllocatorStep(leaving));
  }

  lemma SecondHalf() returns (run: seq<Label>, s: State)
    ensures Reached(run, s) && s == Tree(FIRST_FULL, SECOND_HALF, {SECOND, ABOVE}, map[], Resting)
  {
    var marks := {SECOND, ABOVE};
    run, s := FirstFilled();
    assert Kids(marks, ROOT) == {ABOVE} && Kids(marks, ABOVE) == {SECOND};
    run, s := Descend(run, FIRST_FULL, SECOND_FRESH, marks);
    run, s := StepSecond(run, FIRST_FULL, SECOND_FRESH.(allocator := Leaf.Claiming), marks);
    var claimed := Leaf.State({1}, {}, 1, true, {}, Leaf.Counting(0), map[]);
    assert {0, 1} - {0} == {1} && {} + {0} == {0};
    assert s == Tree(FIRST_FULL, claimed, marks, map[], InLeaf(1));
    run, s := StepSecond(run, FIRST_FULL, claimed, marks);
  }

  /** The allocator has taken the last page of the second leaf and is about to clear its bit. */
  lemma SecondLeaving() returns (run: seq<Label>, s: State)
    ensures Reached(run, s) && s == Tree(FIRST_FULL, SECOND_LEAVING, {SECOND, ABOVE}, map[], InLeaf(1))
  {
    var marks := {SECOND, ABOVE};
    run, s := SecondHalf();
    assert Kids(marks, ROOT) == {ABOVE} && Kids(marks, ABOVE) == {SECOND};
    run, s := Descend(run, FIRST_FULL, SECOND_HALF, marks);
    run, s := StepSecond(run, FIRST_FULL, SECOND_HALF.(allocator := Leaf.Claiming), marks);
    var claimed := Leaf.State({}, {}, 1, true, {0}, Leaf.Counting(1), map[]);
    assert {1} - {1} == {};
    assert s == Tree(FIRST_FULL, claimed, marks, map[], InLeaf(1));
    run, s := StepSecond(run, FIRST_FULL, claimed, marks);
  }

  // A freer returns a page: the release, the count, and then the toggle of the leaf's bit.

  ghost function Released(leaf: Leaf.State, bit: nat): Leaf.State {
    leaf.(live := leaf.live - {bit}, freeWord := leaf.freeWord + {bit}, count := 1, freers := map[0 := Leaf.EdgeUp])
  }

  lemma ReleaseSteps(leaf: Leaf.State, bit: nat)
    requires leaf.freeWord == {} && leaf.count == 0 && leaf.freers == map[] && bit in leaf.live
    ensures Leaf.Legal(leaf, Leaf.Free(0, bit))
    ensures var one := Leaf.Apply(leaf, Leaf.Free(0, bit));
      && Leaf.Legal(one, Leaf.Freer(0)) && !one.freers[0].EdgeUp?
      && var two := Leaf.Apply(one, Leaf.Freer(0));
      && Leaf.Legal(two, Leaf.Freer(0)) && !two.freers[0].EdgeUp?
      && Leaf.Apply(two, Leaf.Freer(0)) == Released(leaf, bit)
  {
    var one := Leaf.Apply(leaf, Leaf.Free(0, bit));
    assert one.freers == map[0 := Leaf.Releasing(bit)];
    var two := Leaf.Apply(one, Leaf.Freer(0));
    assert two.freers == map[0 := Leaf.CountingUp];
  }

  lemma ReleaseSecond(run: seq<Label>, a: Leaf.State, b: Leaf.State, marks: set<Child>, walker: Walker) returns (run': seq<Label>, s': State)
    requires Reached(run, Tree(a, b, marks, map[], walker)) && b.freeWord == {} && b.count == 0 && b.freers == map[] && 0 in b.live
    ensures Reached(run', s') && s' == Tree(a, Released(b, 0), marks, map[], walker)
  {
    ReleaseSteps(b, 0);
    var one := Leaf.Apply(b, Leaf.Free(0, 0));
    var two := Leaf.Apply(one, Leaf.Freer(0));
    run', s' := Extend(run, Tree(a, b, marks, map[], walker), Free(1, 0, 0));
    Put(a, b, one);
    run', s' := Extend(run', Tree(a, one, marks, map[], walker), Freeing(1, 0));
    Put(a, one, two);
    run', s' := Extend(run', Tree(a, two, marks, map[], walker), Freeing(1, 0));
    Put(a, two, Released(b, 0));
  }

  lemma ReleaseFirst(run: seq<Label>, a: Leaf.State, b: Leaf.State, marks: set<Child>, walker: Walker) returns (run': seq<Label>, s': State)
    requires Reached(run, Tree(a, b, marks, map[], walker)) && a.freeWord == {} && a.count == 0 && a.freers == map[] && 0 in a.live
    ensures Reached(run', s') && s' == Tree(Released(a, 0), b, marks, map[], walker)
  {
    ReleaseSteps(a, 0);
    var one := Leaf.Apply(a, Leaf.Free(0, 0));
    var two := Leaf.Apply(one, Leaf.Freer(0));
    run', s' := Extend(run, Tree(a, b, marks, map[], walker), Free(0, 0, 0));
    Put(a, b, one);
    run', s' := Extend(run', Tree(one, b, marks, map[], walker), Freeing(0, 0));
    Put(one, b, two);
    run', s' := Extend(run', Tree(two, b, marks, map[], walker), Freeing(0, 0));
    Put(two, b, Released(a, 0));
  }

  /** A freer of the second leaf overtakes the allocator: its edge clears the bit and the word is empty. */
  lemma SecondCrossed() returns (run: seq<Label>, s: State)
    ensures Reached(run, s) && s == Tree(FIRST_FULL, SECOND_CROSSED, {ABOVE}, map[], InLeaf(1))
  {
    var marks := {SECOND, ABOVE};
    run, s := SecondLeaving();
    run, s := ReleaseSecond(run, FIRST_FULL, SECOND_LEAVING, marks, InLeaf(1));
    var b := Released(SECOND_LEAVING, 0);
    run, s := Extend(run, Tree(FIRST_FULL, b, marks, map[], InLeaf(1)), Freeing(1, 0));
    assert Toggle(marks, SECOND) == {ABOVE} && SECOND in Kids(marks, ABOVE);
    assert Leaf.Apply(b, Leaf.Freer(0)) == SECOND_CROSSED;
    Put(FIRST_FULL, b, SECOND_CROSSED);
    var none: map<Freer, Child> := map[];
    assert none - {Freer(1, 0)} == none;
  }

  /** A freer of the first leaf finds the word empty, fills it and toggles the bit above, which was set. */
  lemma FirstFreed() returns (run: seq<Label>, s: State)
    ensures Reached(run, s) && s == Tree(FIRST_FREED, SECOND_CROSSED, {FIRST}, map[], InLeaf(1))
  {
    run, s := SecondCrossed();
    run, s := ReleaseFirst(run, FIRST_FULL, SECOND_CROSSED, {ABOVE}, InLeaf(1));
    var a := Released(FIRST_FULL, 0);
    run, s := Extend(run, Tree(a, SECOND_CROSSED, {ABOVE}, map[], InLeaf(1)), Freeing(0, 0));
    assert Toggle({ABOVE}, FIRST) == {FIRST, ABOVE} && Kids({ABOVE}, ABOVE) == {};
    assert Leaf.Apply(a, Leaf.Freer(0)) == FIRST_FREED;
    Put(a, SECOND_CROSSED, FIRST_FREED);
    assert s == Tree(FIRST_FREED, SECOND_CROSSED, {FIRST, ABOVE}, map[Freer(0, 0) := ABOVE], InLeaf(1));
    run, s := RaiseAbove(run, s);
  }

  lemma RaiseAbove(run: seq<Label>, s: State) returns (run': seq<Label>, s': State)
    requires Reached(run, s) && s == Tree(FIRST_FREED, SECOND_CROSSED, {FIRST, ABOVE}, map[Freer(0, 0) := ABOVE], InLeaf(1))
    ensures Reached(run', s') && s' == Tree(FIRST_FREED, SECOND_CROSSED, {FIRST}, map[], InLeaf(1))
  {
    run', s' := Extend(run, s, Raise(Freer(0, 0)));
    assert Toggle({FIRST, ABOVE}, ABOVE) == {FIRST};
    assert map[Freer(0, 0) := ABOVE] - {Freer(0, 0)} == map[];
  }

  /** The allocator's own edge comes last and sets the bit of the second leaf. Nothing is in flight. */
  lemma AllQuiet() returns (run: seq<Label>, s: State)
    ensures Reached(run, s) && s == Tree(FIRST_FREED, SECOND_FREED, {FIRST, SECOND}, map[], Resting)
  {
    run, s := FirstFreed();
    run, s := Extend(run, s, Allocate);
    assert Toggle({FIRST}, SECOND) == {FIRST, SECOND} && SECOND in Kids({FIRST, SECOND}, ABOVE);
    assert Leaf.AllocatorStep(SECOND_CROSSED) == SECOND_FREED;
    Put(FIRST_FREED, SECOND_CROSSED, SECOND_FREED);
  }

  /**
   No call is in flight and both leaves have a free page and a set bit, but the bit above them is clear: one
   crossing has gone the wrong way, and the next descent finds the arena exhausted.
   */
  lemma FreePagesHidden() returns (run: seq<Label>, s: State, s': State)
    ensures Seeded(Start()) && Exec(Start(), run) == Some(s) && Quiet(s) && Available(s) == {0, 1}
    ensures !TreeOk(s.marks, Available(s), s.depth) && Odd(WrongWays(Start(), run, ABOVE))
    ensures Exec(Start(), run + [Begin, Look(ABOVE)]) == Some(s') && s'.walker == Exhausted
  {
    StartSeeded();
    run, s := AllQuiet();
    HiddenState(s);
    assert Exec(Start(), run) == Some(s);
    WrongBitIsOdd(Start(), run, s, ABOVE);
    s' := NextDescent(run, s);
  }

  lemma HiddenState(s: State)
    requires s == Tree(FIRST_FREED, SECOND_FREED, {FIRST, SECOND}, map[], Resting)
    ensures Quiet(s) && Available(s) == {0, 1} && !TreeOk(s.marks, Available(s), s.depth)
    ensures ABOVE !in s.marks && Kids(s.marks, ABOVE) != {} && Interior(s.depth, ABOVE)
  {
    assert Available(s) == {0, 1};
    assert !MarkOk(s.marks, {0, 1}, ABOVE) by {
      assert Ancestor(0, 1) == Ancestor(0, 0) / 64 && 0 in {0, 1};
    }
    assert FIRST in Kids(s.marks, ABOVE);
  }

  lemma NextDescent(run: seq<Label>, s: State) returns (s': State)
    requires Reached(run, s) && s == Tree(FIRST_FREED, SECOND_FREED, {FIRST, SECOND}, map[], Resting)
    ensures Exec(Start(), run + [Begin, Look(ABOVE)]) == Some(s') && s'.walker == Exhausted
  {
    var longer, s1 := Extend(run, s, Begin);
    assert Kids(s.marks, ROOT) == {};
    longer, s' := Extend(longer, s1, Look(ABOVE));
    assert longer == run + [Begin, Look(ABOVE)];
    assert Exec(Start(), longer) == Some(s');
  }
}
