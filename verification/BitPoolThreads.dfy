/**
 AtomicBitPool under concurrent add, remove and getAny calls, each atomic operation of the source
 being one step of the calling thread. Any number of threads interleave in any order.

 A call in flight keeps a base index x. On the entries covering x from level Lo up to the level
 below the top it has one unit of count outstanding: an increment it still owes for a bit it has
 set, or a decrement it has made and not yet justified by clearing a bit or given back. From level
 Hi upwards that decrement left a non-negative count and stands for a bit the call may clear.
 */
module BitPoolThreads {

  import opened Wrappers
  import opened Counting
  import opened BitPoolGeometry
  import opened BitPool

  datatype Op = Add(index: nat) | Remove(index: nat) | GetAny(maxRetries: nat)

  datatype Result =
    | AlreadyPresent | Added
    | NotPresent | Removed
    | Got(index: nat) | Empty | Contended

  /** Where a thread goes once its increments are done. */
  datatype After = Finish(result: Result) | Resume(retry: nat, maxRetries: nat)

  datatype PC =
    | AddSet(x: nat)                                       // fetch_or of the level 0 bit
    | Incr(x: nat, level: nat, upTo: nat, after: After)    // incrementCount at level, then on to upTo
    | RemoveDec(x: nat, level: nat)                        // decrementCount on the way down
    | RemoveClear(x: nat)                                  // fetch_and of the level 0 bit
    | GetLoad(x: nat, level: nat, retry: nat, maxRetries: nat)  // top of the getAny loop
    | GetDec(x: nat, level: nat, retry: nat, maxRetries: nat)   // decrementCount of the chosen child
    | GetClear(x: nat, retry: nat, maxRetries: nat)             // fetch_and of the chosen bit
    | Returned(result: Result)
    | ZeroRotated                                          // doRotation was applied to a zero word

  /** A fetch_xor that a count change made necessary goes before everything else. */
  datatype Thread = Thread(toggle: Option<Node>, pc: PC)

  function Top(g: Geometry): nat
    requires g.Valid()
  {
    g.levels - 1
  }

  // ----- one step of one thread -----

  function Start(g: Geometry, op: Op): Thread
    requires g.Valid()
  {
    Thread(None, match op
                 case Add(i) => AddSet(i)
                 case Remove(i) => if g.levels == 1 then RemoveClear(i) else RemoveDec(i, Top(g) - 1)
                 case GetAny(r) => GetLoad(0, Top(g), 0, r))
  }

  function Continue(x: nat, level: nat, upTo: nat, after: After): PC {
    if level < upTo then Incr(x, level, upTo, after)
    else match after
      case Finish(r) => Returned(r)
      case Resume(retry, maxRetries) => GetLoad(x, upTo, retry, maxRetries)
  }

  /** The bit a load may be followed by: for level 0 an index, above it a child's entry number. */
  predicate PickOk(g: Geometry, p: Pool, pc: PC, pick: nat) {
    match pc
    case GetLoad(x, level, _, _) =>
      if level == 0 then
        var word := Below(g, p.bits, NodeOf(g, x, 0));
        word != {} ==> pick in word
      else
        var word := Bitmap(g, p.hints, NodeOf(g, x, level));
        word != {} ==> Node(level - 1, pick) in word
    case _ => true
  }

  predicate CanStep(g: Geometry, p: Pool, th: Thread, pick: nat) {
    th.toggle.Some? || (!th.pc.Returned? && !th.pc.ZeroRotated? && PickOk(g, p, th.pc, pick))
  }

  function Increment(p: Pool, n: Node, next: PC): (Pool, Thread) {
    (p.AddCount(n, 1), Thread(if p.Count(n) == 0 then Some(n) else None, next))
  }

  function Decrement(p: Pool, n: Node, onSuccess: PC, onNegative: PC): (Pool, Thread) {
    (p.AddCount(n, -1),
     Thread(if p.Count(n) == 1 then Some(n) else None, if p.Count(n) - 1 < 0 then onNegative else onSuccess))
  }

  function Load(g: Geometry, p: Pool, pc: PC, pick: nat): PC
    requires g.Valid() && pc.GetLoad?
  {
    var GetLoad(x, level, retry, maxRetries) := pc;
    if retry > maxRetries then
      Continue(x, level, Top(g), Finish(Contended))
    else if level == 0 then
      if Below(g, p.bits, NodeOf(g, x, 0)) != {} then GetClear(pick, retry, maxRetries)
      else if g.levels == 1 then Returned(Empty)
      else ZeroRotated
    else if Bitmap(g, p.hints, NodeOf(g, x, level)) != {} then
      GetDec(FirstIndex(g, Node(level - 1, pick)), level, retry, maxRetries)
    else if level == Top(g) then
      Returned(Empty)
    else
      Continue(x, level, level + 1, Resume(retry + 1, maxRetries))
  }

  function Step(g: Geometry, p: Pool, th: Thread, pick: nat): (Pool, Thread)
    requires g.Valid()
  {
    if th.toggle.Some? then (p.ToggleHint(th.toggle.value), th.(toggle := None)) else
    match th.pc
    case AddSet(x) =>
      if x in p.bits then (p, Thread(None, Returned(AlreadyPresent)))
      else (p.(bits := p.bits + {x}), Thread(None, Continue(x, 0, Top(g), Finish(Added))))
    case Incr(x, level, upTo, after) =>
      Increment(p, NodeOf(g, x, level), Continue(x, level + 1, upTo, after))
    case RemoveDec(x, level) =>
      Decrement(p, NodeOf(g, x, level),
                if level == 0 then RemoveClear(x) else RemoveDec(x, level - 1),
                Continue(x, level, Top(g), Finish(NotPresent)))
    case RemoveClear(x) =>
      if x in p.bits then (p.(bits := p.bits - {x}), Thread(None, Returned(Removed)))
      else (p, Thread(None, Continue(x, 0, Top(g), Finish(NotPresent))))
    case GetLoad(_, _, _, _) =>
      (p, Thread(None, Load(g, p, th.pc, pick)))
    case GetDec(x, level, retry, maxRetries) =>
      if level == 0 then (p, th) else
      Decrement(p, NodeOf(g, x, level - 1),
                GetLoad(x, level - 1, retry, maxRetries),
                Continue(x, level - 1, level, Resume(retry + 1, maxRetries)))
    case GetClear(x, retry, maxRetries) =>
      if x in p.bits then (p.(bits := p.bits - {x}), Thread(None, Returned(Got(x))))
      else (p, Thread(None, GetLoad(x, 0, retry + 1, maxRetries)))
    case _ => (p, th)
  }

  // ----- the counts a thread has outstanding -----

  function Base(pc: PC): nat {
    if pc.Returned? || pc.ZeroRotated? then 0 else pc.x
  }

  function Lo(g: Geometry, pc: PC): nat
    requires g.Valid()
  {
    match pc
    case Incr(_, level, _, _) => level
    case RemoveDec(_, level) => level + 1
    case GetLoad(_, level, _, _) => level
    case GetDec(_, level, _, _) => level
    case RemoveClear(_) => 0
    case GetClear(_, _, _) => 0
    case _ => Top(g)
  }

  function Hi(g: Geometry, pc: PC): nat
    requires g.Valid()
  {
    if pc.Incr? then pc.upTo else Lo(g, pc)
  }

  datatype Kind = Outstanding | Claim | Toggling

  predicate Has(kind: Kind, g: Geometry, th: Thread, n: Node)
    requires g.Valid()
  {
    match kind
    case Outstanding => Lo(g, th.pc) <= n.level < Top(g) && NodeOf(g, Base(th.pc), n.level) == n
    case Claim => Hi(g, th.pc) <= n.level < Top(g) && NodeOf(g, Base(th.pc), n.level) == n
    case Toggling => th.toggle == Some(n)
  }

  predicate WellFormed(g: Geometry, th: Thread)
    requires g.Valid()
  {
    && (th.toggle.Some? ==> th.toggle.value.level < Top(g))
    && match th.pc
       case AddSet(x) => x < Capacity(g)
       case Incr(_, level, upTo, after) =>
         && level < upTo <= Top(g)
         && (after.Finish? ==> upTo == Top(g) && after.result in {Added, NotPresent, Contended})
       case RemoveDec(_, level) => level < Top(g)
       case GetLoad(_, level, _, _) => level <= Top(g)
       case GetDec(_, level, _, _) => 0 < level <= Top(g)
       case ZeroRotated => false
       case _ => true
  }

  // ----- the whole system -----

  datatype State = State(pool: Pool, threads: map<nat, Thread>)

  function Those(kind: Kind, g: Geometry, threads: map<nat, Thread>, n: Node): set<nat>
    requires g.Valid()
  {
    set t | t in threads && Has(kind, g, threads[t], n)
  }

  /** The count is the number of bits below, less the units that calls in flight have outstanding. */
  ghost predicate CountOk(g: Geometry, s: State, n: Node)
    requires g.Valid()
  {
    s.pool.Count(n) == |Below(g, s.pool.bits, n)| - |Those(Outstanding, g, s.threads, n)|
  }

  /** The hint bit, corrected by the toggles still to come, says whether the count is positive. */
  ghost predicate HintOk(g: Geometry, s: State, n: Node)
    requires g.Valid()
  {
    (n in s.pool.hints) != (|Those(Toggling, g, s.threads, n)| % 2 == 1) <==> s.pool.Count(n) > 0
  }

  /** Below the entry there is a bit for every call that holds a valid decrement on it. */
  ghost predicate ClaimOk(g: Geometry, s: State, n: Node)
    requires g.Valid()
  {
    |Those(Claim, g, s.threads, n)| <= |Below(g, s.pool.bits, n)|
  }

  ghost predicate NodeOk(g: Geometry, s: State, n: Node)
    requires g.Valid()
  {
    CountOk(g, s, n) && HintOk(g, s, n) && ClaimOk(g, s, n)
  }

  ghost predicate ShapeOk(g: Geometry, s: State)
    requires g.Valid()
  {
    && (forall t :: t in s.threads ==> WellFormed(g, s.threads[t]))
    && (forall i :: i in s.pool.bits ==> i < Capacity(g))
    && (forall n :: n in s.pool.hints ==> n.level < Top(g))
  }

  ghost predicate Inv(g: Geometry, s: State)
    requires g.Valid()
  {
    ShapeOk(g, s) && forall n: Node :: n.level < Top(g) ==> NodeOk(g, s, n)
  }

  datatype Label = Call(t: nat, op: Op) | Advance(t: nat, pick: nat)

  predicate Legal(g: Geometry, s: State, l: Label)
    requires g.Valid()
  {
    match l
    case Call(t, op) =>
      && (t in s.threads ==> s.threads[t].pc.Returned? && s.threads[t].toggle.None?)
      && (op.GetAny? || op.index < Capacity(g))
    case Advance(t, pick) =>
      t in s.threads && CanStep(g, s.pool, s.threads[t], pick)
  }

  function Apply(g: Geometry, s: State, l: Label): State
    requires g.Valid() && Legal(g, s, l)
  {
    match l
    case Call(t, op) => s.(threads := s.threads[t := Start(g, op)])
    case Advance(t, pick) =>
      var (p, th) := Step(g, s.pool, s.threads[t], pick);
      State(p, s.threads[t := th])
  }

  /** The state after a run from the freshly constructed pool, None when a step of it is not legal. */
  function Exec(g: Geometry, run: seq<Label>): Option<State>
    requires g.Valid()
  {
    if run == [] then Some(State(FRESH, map[]))
    else match Exec(g, run[..|run| - 1])
      case None => None
      case Some(s) => if Legal(g, s, run[|run| - 1]) then Some(Apply(g, s, run[|run| - 1])) else None
  }

  // ----- every step keeps the invariant -----

  lemma ThoseUpdate(kind: Kind, g: Geometry, threads: map<nat, Thread>, t: nat, th: Thread, n: Node)
    requires g.Valid()
    ensures |Those(kind, g, threads[t := th], n)|
         == |Those(kind, g, threads, n)| - B(t in threads && Has(kind, g, threads[t], n)) + B(Has(kind, g, th, n))
  {
    SwapMember(Those(kind, g, threads, n), Those(kind, g, threads[t := th], n), t);
  }

  /** What a step does to the count of an entry, it does to the bits below it and its own outstanding unit. */
  lemma StepCount(g: Geometry, p: Pool, th: Thread, pick: nat, p': Pool, th': Thread, n: Node)
    requires g.Valid() && WellFormed(g, th) && CanStep(g, p, th, pick) && n.level < Top(g)
    requires (p', th') == Step(g, p, th, pick) && !th'.pc.ZeroRotated?
    ensures p'.Count(n) + B(Has(Outstanding, g, th', n)) - |Below(g, p'.bits, n)|
         == p.Count(n) + B(Has(Outstanding, g, th, n)) - |Below(g, p.bits, n)|
  {
    if th.toggle.Some? {
    } else if th.pc.AddSet? || th.pc.RemoveClear? || th.pc.GetClear? {
      BitStepBelow(g, p, th, pick, n);
    } else if th.pc.GetLoad? {
      if th.pc.level <= n.level {
        LoadKeepsPath(g, p, th.pc, pick, n.level);
      }
    } else {
      CountStepCount(g, p, th, pick, p', th', n);
    }
  }

  lemma BitStepBelow(g: Geometry, p: Pool, th: Thread, pick: nat, n: Node)
    requires g.Valid() && th.toggle.None? && (th.pc.AddSet? || th.pc.RemoveClear? || th.pc.GetClear?)
    ensures |Below(g, Step(g, p, th, pick).0.bits, n)| == |Below(g, p.bits, n)|
      + (if NodeOf(g, th.pc.x, n.level) != n then 0
         else if th.pc.AddSet? then B(th.pc.x !in p.bits) else 0 - B(th.pc.x in p.bits))
  {
    if th.pc.AddSet? {
      if th.pc.x !in p.bits {
        BelowAdd(g, p.bits, th.pc.x, n);
      }
    } else if th.pc.x in p.bits {
      BelowRemove(g, p.bits, th.pc.x, n);
    }
  }

  lemma CountStepCount(g: Geometry, p: Pool, th: Thread, pick: nat, p': Pool, th': Thread, n: Node)
    requires g.Valid() && WellFormed(g, th) && CanStep(g, p, th, pick) && n.level < Top(g)
    requires (p', th') == Step(g, p, th, pick)
    requires th.toggle.None? && (th.pc.Incr? || th.pc.RemoveDec? || th.pc.GetDec?)
    ensures p'.bits == p.bits
    ensures p'.Count(n) + B(Has(Outstanding, g, th', n)) == p.Count(n) + B(Has(Outstanding, g, th, n))
  {
    if th.pc.Incr? {
      IncrementCount(g, p, th, pick, p', th', n);
    } else {
      DecrementCount(g, p, th, pick, p', th', n);
    }
  }

  lemma IncrementCount(g: Geometry, p: Pool, th: Thread, pick: nat, p': Pool, th': Thread, n: Node)
    requires g.Valid() && WellFormed(g, th) && CanStep(g, p, th, pick) && n.level < Top(g)
    requires (p', th') == Step(g, p, th, pick)
    requires th.toggle.None? && th.pc.Incr?
    ensures p'.bits == p.bits
    ensures p'.Count(n) + B(Has(Outstanding, g, th', n)) == p.Count(n) + B(Has(Outstanding, g, th, n))
  {
  }

  lemma DecrementCount(g: Geometry, p: Pool, th: Thread, pick: nat, p': Pool, th': Thread, n: Node)
    requires g.Valid() && WellFormed(g, th) && CanStep(g, p, th, pick) && n.level < Top(g)
    requires (p', th') == Step(g, p, th, pick)
    requires th.toggle.None? && (th.pc.RemoveDec? || th.pc.GetDec?)
    ensures p'.bits == p.bits
    ensures p'.Count(n) + B(Has(Outstanding, g, th', n)) == p.Count(n) + B(Has(Outstanding, g, th, n))
  {
  }

  /** Descending to a child, or choosing a bit, stays under the same entries of the levels above. */
  lemma LoadKeepsPath(g: Geometry, p: Pool, pc: PC, pick: nat, level: nat)
    requires g.Valid() && pc.GetLoad? && PickOk(g, p, pc, pick)
    requires pc.level <= level < Top(g) && !Load(g, p, pc, pick).ZeroRotated?
    ensures NodeOf(g, Base(Load(g, p, pc, pick)), level) == NodeOf(g, pc.x, level)
  {
    var pc' := Load(g, p, pc, pick);
    if pc'.GetClear? {
      SameAncestors(g, pc'.x, pc.x, 0, level);
    } else if pc'.GetDec? {
      FirstIndexUnder(g, Node(pc.level - 1, pick));
      ParentOfIndex(g, pc'.x, pc.level - 1);
      SameAncestors(g, pc'.x, pc.x, pc.level, level);
    }
  }

  /** A count crosses between zero and one exactly when the step leaves a toggle to do. */
  lemma StepHint(g: Geometry, p: Pool, th: Thread, pick: nat, p': Pool, th': Thread, n: Node)
    requires g.Valid() && WellFormed(g, th) && CanStep(g, p, th, pick) && n.level < Top(g)
    requires (p', th') == Step(g, p, th, pick)
    ensures ((n in p'.hints) != Has(Toggling, g, th', n)) == (p'.Count(n) > 0)
       <==> ((n in p.hints) != Has(Toggling, g, th, n)) == (p.Count(n) > 0)
  {
  }

  /** A valid decrement leaves a non-negative count; a bit is only cleared by a call that claims it. */
  lemma StepClaim(g: Geometry, p: Pool, th: Thread, pick: nat, p': Pool, th': Thread, n: Node)
    requires g.Valid() && WellFormed(g, th) && CanStep(g, p, th, pick) && n.level < Top(g)
    requires (p', th') == Step(g, p, th, pick) && !th'.pc.ZeroRotated?
    ensures Has(Claim, g, th', n) && !Has(Claim, g, th, n) ==> p'.Count(n) >= 0
    ensures |Below(g, p'.bits, n)| - B(Has(Claim, g, th', n)) >= |Below(g, p.bits, n)| - B(Has(Claim, g, th, n))
         || (Has(Claim, g, th', n) && !Has(Claim, g, th, n))
  {
    if th.toggle.None? {
      if th.pc.AddSet? || th.pc.RemoveClear? || th.pc.GetClear? {
        BitStepClaim(g, p, th, pick, p', th', n);
      } else if th.pc.GetLoad? {
        LoadClaim(g, p, th, pick, p', th', n);
      }
    }
  }

  lemma BitStepClaim(g: Geometry, p: Pool, th: Thread, pick: nat, p': Pool, th': Thread, n: Node)
    requires g.Valid() && WellFormed(g, th) && CanStep(g, p, th, pick) && n.level < Top(g)
    requires th.toggle.None? && (th.pc.AddSet? || th.pc.RemoveClear? || th.pc.GetClear?) && (p', th') == Step(g, p, th, pick)
    ensures Has(Claim, g, th', n) ==> Has(Claim, g, th, n)
    ensures |Below(g, p'.bits, n)| - B(Has(Claim, g, th', n)) >= |Below(g, p.bits, n)| - B(Has(Claim, g, th, n))
  {
    BitStepBelow(g, p, th, pick, n);
  }

  lemma LoadClaim(g: Geometry, p: Pool, th: Thread, pick: nat, p': Pool, th': Thread, n: Node)
    requires g.Valid() && WellFormed(g, th) && CanStep(g, p, th, pick) && n.level < Top(g)
    requires th.toggle.None? && th.pc.GetLoad? && (p', th') == Step(g, p, th, pick) && !th'.pc.ZeroRotated?
    ensures p'.bits == p.bits && (Has(Claim, g, th', n) ==> Has(Claim, g, th, n))
  {
    if th.pc.level <= n.level {
      LoadKeepsPath(g, p, th.pc, pick, n.level);
    }
  }

  lemma ClaimsAreOutstanding(g: Geometry, s: State, n: Node)
    requires g.Valid() && ShapeOk(g, s)
    ensures |Those(Claim, g, s.threads, n)| <= |Those(Outstanding, g, s.threads, n)|
  {
    var claims, all := Those(Claim, g, s.threads, n), Those(Outstanding, g, s.threads, n);
    assert claims <= all;
    assert all == claims + (all - claims);
  }

  /**
   A getAny that has reached level 0 of a pool with more than one level finds a bit there,
   so its rotation is never applied to a zero word.
   */
  lemma GetterFindsBit(g: Geometry, s: State, t: nat)
    requires g.Valid() && g.levels > 1 && Inv(g, s)
    requires t in s.threads && s.threads[t].pc.GetLoad? && s.threads[t].pc.level == 0
    ensures Below(g, s.pool.bits, NodeOf(g, s.threads[t].pc.x, 0)) != {}
  {
    var n := NodeOf(g, s.threads[t].pc.x, 0);
    assert t in Those(Claim, g, s.threads, n);
    assert |Those(Claim, g, s.threads, n)| > 0;
  }

  lemma StepWellFormed(g: Geometry, p: Pool, th: Thread, pick: nat)
    requires g.Valid() && WellFormed(g, th) && CanStep(g, p, th, pick)
    requires g.levels > 1 && th.pc.GetLoad? && th.pc.level == 0 ==> Below(g, p.bits, NodeOf(g, th.pc.x, 0)) != {}
    ensures WellFormed(g, Step(g, p, th, pick).1)
  {
    if th.toggle.Some? {
    } else if th.pc.GetLoad? {
      LoadWellFormed(g, p, th.pc, pick);
    } else if th.pc.AddSet? || th.pc.RemoveClear? || th.pc.GetClear? {
      BitStepWellFormed(g, p, th, pick);
    } else {
      CountStepWellFormed(g, p, th, pick);
    }
  }

  lemma BitStepWellFormed(g: Geometry, p: Pool, th: Thread, pick: nat)
    requires g.Valid() && WellFormed(g, th) && th.toggle.None? && (th.pc.AddSet? || th.pc.RemoveClear? || th.pc.GetClear?)
    ensures WellFormed(g, Step(g, p, th, pick).1)
  {
  }

  lemma CountStepWellFormed(g: Geometry, p: Pool, th: Thread, pick: nat)
    requires g.Valid() && WellFormed(g, th) && CanStep(g, p, th, pick) && th.toggle.None?
    requires th.pc.Incr? || th.pc.RemoveDec? || th.pc.GetDec?
    ensures WellFormed(g, Step(g, p, th, pick).1)
  {
  }

  lemma LoadWellFormed(g: Geometry, p: Pool, pc: PC, pick: nat)
    requires g.Valid() && pc.GetLoad? && pc.level <= Top(g)
    requires g.levels > 1 && pc.level == 0 ==> Below(g, p.bits, NodeOf(g, pc.x, 0)) != {}
    ensures WellFormed(g, Thread(None, Load(g, p, pc, pick)))
  {
  }

  lemma AdvanceKeepsShape(g: Geometry, s: State, t: nat, pick: nat)
    requires g.Valid() && Inv(g, s) && Legal(g, s, Advance(t, pick))
    ensures ShapeOk(g, Apply(g, s, Advance(t, pick)))
    ensures WellFormed(g, Step(g, s.pool, s.threads[t], pick).1)
  {
    if g.levels > 1 && s.threads[t].pc.GetLoad? && s.threads[t].pc.level == 0 {
      GetterFindsBit(g, s, t);
    }
    StepWellFormed(g, s.pool, s.threads[t], pick);
  }

  lemma AdvanceKeepsCount(g: Geometry, s: State, t: nat, p': Pool, th': Thread, n: Node)
    requires g.Valid() && CountOk(g, s, n) && t in s.threads
    requires p'.Count(n) + B(Has(Outstanding, g, th', n)) - |Below(g, p'.bits, n)|
          == s.pool.Count(n) + B(Has(Outstanding, g, s.threads[t], n)) - |Below(g, s.pool.bits, n)|
    ensures CountOk(g, State(p', s.threads[t := th']), n)
  {
    ThoseUpdate(Outstanding, g, s.threads, t, th', n);
  }

  lemma AdvanceKeepsHint(g: Geometry, s: State, t: nat, p': Pool, th': Thread, n: Node)
    requires g.Valid() && HintOk(g, s, n) && t in s.threads
    requires ((n in p'.hints) != Has(Toggling, g, th', n)) == (p'.Count(n) > 0)
        <==> ((n in s.pool.hints) != Has(Toggling, g, s.threads[t], n)) == (s.pool.Count(n) > 0)
    ensures HintOk(g, State(p', s.threads[t := th']), n)
  {
    ThoseUpdate(Toggling, g, s.threads, t, th', n);
  }

  lemma AdvanceKeepsClaim(g: Geometry, s: State, t: nat, p': Pool, th': Thread, n: Node)
    requires g.Valid() && ClaimOk(g, s, n) && t in s.threads
    requires ShapeOk(g, State(p', s.threads[t := th'])) && CountOk(g, State(p', s.threads[t := th']), n)
    requires Has(Claim, g, th', n) && !Has(Claim, g, s.threads[t], n) ==> p'.Count(n) >= 0
    requires |Below(g, p'.bits, n)| - B(Has(Claim, g, th', n))
          >= |Below(g, s.pool.bits, n)| - B(Has(Claim, g, s.threads[t], n))
          || (Has(Claim, g, th', n) && !Has(Claim, g, s.threads[t], n))
    ensures ClaimOk(g, State(p', s.threads[t := th']), n)
  {
    ThoseUpdate(Claim, g, s.threads, t, th', n);
    ClaimsAreOutstanding(g, State(p', s.threads[t := th']), n);
  }

  /** A call that has just begun, like one that has returned, has nothing outstanding. */
  lemma StartHasNothing(kind: Kind, g: Geometry, op: Op, n: Node)
    requires g.Valid() && n.level < Top(g)
    ensures !Has(kind, g, Start(g, op), n)
  {
  }

  lemma CallKeepsNode(g: Geometry, s: State, t: nat, op: Op, n: Node)
    requires g.Valid() && NodeOk(g, s, n) && Legal(g, s, Call(t, op)) && n.level < Top(g)
    ensures NodeOk(g, s.(threads := s.threads[t := Start(g, op)]), n)
  {
    var th := Start(g, op);
    StartHasNothing(Outstanding, g, op, n);
    StartHasNothing(Claim, g, op, n);
    StartHasNothing(Toggling, g, op, n);
    ThoseUpdate(Outstanding, g, s.threads, t, th, n);
    ThoseUpdate(Claim, g, s.threads, t, th, n);
    ThoseUpdate(Toggling, g, s.threads, t, th, n);
  }

  lemma CallKeepsInv(g: Geometry, s: State, t: nat, op: Op)
    requires g.Valid() && Inv(g, s) && Legal(g, s, Call(t, op))
    ensures Inv(g, Apply(g, s, Call(t, op)))
  {
    forall n: Node | n.level < Top(g) ensures NodeOk(g, Apply(g, s, Call(t, op)), n) {
      CallKeepsNode(g, s, t, op, n);
    }
  }

  lemma AdvanceKeepsInv(g: Geometry, s: State, t: nat, pick: nat)
    requires g.Valid() && Inv(g, s) && Legal(g, s, Advance(t, pick))
    ensures Inv(g, Apply(g, s, Advance(t, pick)))
  {
    AdvanceKeepsShape(g, s, t, pick);
    var (p', th') := Step(g, s.pool, s.threads[t], pick);
    forall n: Node | n.level < Top(g) ensures NodeOk(g, State(p', s.threads[t := th']), n) {
      StepCount(g, s.pool, s.threads[t], pick, p', th', n);
      StepHint(g, s.pool, s.threads[t], pick, p', th', n);
      StepClaim(g, s.pool, s.threads[t], pick, p', th', n);
      AdvanceKeepsCount(g, s, t, p', th', n);
      AdvanceKeepsHint(g, s, t, p', th', n);
      AdvanceKeepsClaim(g, s, t, p', th', n);
    }
  }

  lemma StepKeepsInv(g: Geometry, s: State, l: Label)
    requires g.Valid() && Inv(g, s) && Legal(g, s, l)
    ensures Inv(g, Apply(g, s, l))
  {
    match l
    case Call(t, op) => CallKeepsInv(g, s, t, op);
    case Advance(t, pick) => AdvanceKeepsInv(g, s, t, pick);
  }

  /** The invariant holds in every state of every interleaving of any number of calls. */
  lemma {:induction false} RunKeepsInv(g: Geometry, run: seq<Label>)
    requires g.Valid()
    ensures Exec(g, run).Some? ==> Inv(g, Exec(g, run).value)
  {
    if run == [] {
      assert forall n: Node :: Below(g, {}, n) == {};
    } else {
      RunKeepsInv(g, run[..|run| - 1]);
      var before := Exec(g, run[..|run| - 1]);
      if before.Some? && Legal(g, before.value, run[|run| - 1]) {
        StepKeepsInv(g, before.value, run[|run| - 1]);
      }
    }
  }

  predicate Quiescent(s: State) {
    forall t :: t in s.threads ==> s.threads[t].pc.Returned? && s.threads[t].toggle.None?
  }

  lemma NoneInFlight(kind: Kind, g: Geometry, s: State, n: Node)
    requires g.Valid() && Quiescent(s) && n.level < Top(g)
    ensures |Those(kind, g, s.threads, n)| == 0
  {
    assert Those(kind, g, s.threads, n) == {};
  }

  /** Whenever no call is in flight, the pool passes the full quiescent check. */
  lemma QuiescentPassesCheck(g: Geometry, run: seq<Label>)
    requires g.Valid() && Exec(g, run).Some? && Quiescent(Exec(g, run).value)
    ensures CheckInvariants(g, Exec(g, run).value.pool)
  {
    RunKeepsInv(g, run);
    var s := Exec(g, run).value;
    forall n: Node | InPool(g, n) ensures ExactAt(g, s.pool, n) {
      if n.level < Top(g) {
        NoneInFlight(Outstanding, g, s, n);
        NoneInFlight(Toggling, g, s, n);
        assert NodeOk(g, s, n);
      }
    }
    CheckMeansExact(g, s.pool);
  }

  // ----- each bit that is set is claimed once -----

  /** The step is the fetch_or that sets index i. */
  predicate SetsBit(g: Geometry, s: State, l: Label, i: nat) {
    l.Advance? && l.t in s.threads && s.threads[l.t] == Thread(None, AddSet(i)) && i !in s.pool.bits
  }

  /** The step is the fetch_and with which a remover or getter claims index i. */
  predicate ClaimsBit(g: Geometry, s: State, l: Label, i: nat) {
    && l.Advance? && l.t in s.threads && s.threads[l.t].toggle.None?
    && (s.threads[l.t].pc.RemoveClear? || s.threads[l.t].pc.GetClear?) && s.threads[l.t].pc.x == i && i in s.pool.bits
  }

  function TimesSet(g: Geometry, run: seq<Label>, i: nat): nat
    requires g.Valid()
  {
    if run == [] then 0 else
    var before := Exec(g, run[..|run| - 1]);
    TimesSet(g, run[..|run| - 1], i) + B(before.Some? && SetsBit(g, before.value, run[|run| - 1], i))
  }

  function TimesClaimed(g: Geometry, run: seq<Label>, i: nat): nat
    requires g.Valid()
  {
    if run == [] then 0 else
    var before := Exec(g, run[..|run| - 1]);
    TimesClaimed(g, run[..|run| - 1], i) + B(before.Some? && ClaimsBit(g, before.value, run[|run| - 1], i))
  }

  /** In every run, each time an index is set it is claimed by one call at most, and by one exactly once it is gone. */
  lemma {:induction false} ClaimedOnce(g: Geometry, run: seq<Label>, i: nat)
    requires g.Valid() && Exec(g, run).Some?
    ensures TimesSet(g, run, i) == TimesClaimed(g, run, i) + B(i in Exec(g, run).value.pool.bits)
  {
    if run != [] {
      ClaimedOnce(g, run[..|run| - 1], i);
    }
  }

  // ----- what a call reports -----

  /** Where a call of an operation can be. */
  predicate Serves(op: Op, pc: PC) {
    match op
    case Add(x) =>
      pc == AddSet(x) || pc == Returned(AlreadyPresent) || pc == Returned(Added)
      || (pc.Incr? && pc.x == x && pc.after == Finish(Added))
    case Remove(x) =>
      pc == RemoveClear(x) || pc == Returned(Removed) || pc == Returned(NotPresent)
      || (pc.RemoveDec? && pc.x == x) || (pc.Incr? && pc.x == x && pc.after == Finish(NotPresent))
    case GetAny(_) =>
      pc.GetLoad? || pc.GetDec? || pc.GetClear? || (pc.Incr? && (pc.after.Resume? || pc.after == Finish(Contended)))
      || (pc.Returned? && (pc.result.Got? || pc.result.Empty? || pc.result.Contended?))
  }

  lemma StepServes(g: Geometry, op: Op, p: Pool, th: Thread, pick: nat)
    requires g.Valid() && Serves(op, th.pc) && WellFormed(g, Step(g, p, th, pick).1)
    ensures Serves(op, Step(g, p, th, pick).1.pc)
  {
  }

  /** The run goes on with steps of any threads, but thread t begins no other call. */
  predicate During(mid: seq<Label>, t: nat) {
    forall k :: 0 <= k < |mid| ==> mid[k].Advance? || mid[k].t != t
  }

  /** The state in which a call's last step so far was taken. */
  function Before(g: Geometry, from: seq<Label>, mid: seq<Label>): Option<State>
    requires g.Valid() && mid != []
  {
    Exec(g, from + mid[..|mid| - 1])
  }

  lemma LastStep(g: Geometry, from: seq<Label>, mid: seq<Label>)
    requires g.Valid() && mid != [] && Exec(g, from + mid).Some?
    ensures var s, l := Before(g, from, mid), mid[|mid| - 1];
      s.Some? && Inv(g, s.value) && Legal(g, s.value, l) && Exec(g, from + mid).value == Apply(g, s.value, l)
  {
    assert (from + mid)[..|from + mid| - 1] == from + mid[..|mid| - 1];
    RunKeepsInv(g, from + mid[..|mid| - 1]);
  }

  /** A call keeps serving its operation, whatever the other calls do. */
  lemma {:induction false} CallServes(g: Geometry, from: seq<Label>, t: nat, op: Op, mid: seq<Label>)
    requires g.Valid() && Exec(g, from + [Call(t, op)] + mid).Some? && During(mid, t)
    ensures var s := Exec(g, from + [Call(t, op)] + mid).value; t in s.threads && Serves(op, s.threads[t].pc)
    decreases |mid|
  {
    var begun := from + [Call(t, op)];
    if mid == [] {
      assert begun + mid == begun && begun[..|begun| - 1] == from;
    } else {
      LastStep(g, begun, mid);
      CallServes(g, from, t, op, mid[..|mid| - 1]);
      var s, l := Before(g, begun, mid).value, mid[|mid| - 1];
      if l.t == t {
        AdvanceKeepsShape(g, s, t, l.pick);
        StepServes(g, op, s.pool, s.threads[t], l.pick);
      }
    }
  }

  /** How often thread t itself claims index i in the course of a call. */
  function OwnClaims(g: Geometry, from: seq<Label>, mid: seq<Label>, t: nat, i: nat): nat
    requires g.Valid()
  {
    if mid == [] then 0 else
    var before := Before(g, from, mid);
    OwnClaims(g, from, mid[..|mid| - 1], t, i)
      + B(before.Some? && mid[|mid| - 1].t == t && ClaimsBit(g, before.value, mid[|mid| - 1], i))
  }

  predicate Reports(op: Op, pc: PC, i: nat) {
    pc == Returned(Got(i)) || (op == Remove(i) && pc == Returned(Removed))
  }

  /**
   Over a whole call, amid any other calls: a remove reports success, or a getAny an index, if and only if
   the call has claimed that index, and it has claimed it once and no other index.
   */
  lemma {:induction false} SuccessIsClaim(g: Geometry, from: seq<Label>, t: nat, op: Op, mid: seq<Label>, i: nat)
    requires g.Valid() && Exec(g, from + [Call(t, op)] + mid).Some? && During(mid, t)
    ensures var s := Exec(g, from + [Call(t, op)] + mid).value;
      t in s.threads && OwnClaims(g, from + [Call(t, op)], mid, t, i) == B(Reports(op, s.threads[t].pc, i))
    decreases |mid|
  {
    var begun := from + [Call(t, op)];
    if mid == [] {
      assert begun + mid == begun && begun[..|begun| - 1] == from;
    } else {
      LastStep(g, begun, mid);
      SuccessIsClaim(g, from, t, op, mid[..|mid| - 1], i);
      CallServes(g, from, t, op, mid[..|mid| - 1]);
      var s, l := Before(g, begun, mid).value, mid[|mid| - 1];
      if l.t == t {
        StepReports(g, s, l, op, i);
      }
    }
  }

  lemma StepReports(g: Geometry, s: State, l: Label, op: Op, i: nat)
    requires g.Valid() && Inv(g, s) && Legal(g, s, l) && l.Advance? && Serves(op, s.threads[l.t].pc)
    ensures B(Reports(op, Apply(g, s, l).threads[l.t].pc, i))
         == B(Reports(op, s.threads[l.t].pc, i)) + B(ClaimsBit(g, s, l, i))
  {
  }

  // ----- when remove gives up -----

  /**
   A remove backs out of an entry if and only if the calls in flight, itself not yet among them, have at
   least as many units outstanding there as there are bits below.
   */
  lemma BacksOutExactly(g: Geometry, s: State, t: nat)
    requires g.Valid() && Inv(g, s) && t in s.threads && s.threads[t].toggle.None? && s.threads[t].pc.RemoveDec?
    ensures var n := NodeOf(g, s.threads[t].pc.x, s.threads[t].pc.level);
      && t !in Those(Outstanding, g, s.threads, n)
      && (Step(g, s.pool, s.threads[t], 0).1.pc.Incr? <==>
          |Those(Outstanding, g, s.threads, n)| >= |Below(g, s.pool.bits, n)|)
  {
    var n := NodeOf(g, s.threads[t].pc.x, s.threads[t].pc.level);
    assert WellFormed(g, s.threads[t]);
    assert NodeOk(g, s, n);
  }

  /** The step at which a remove gives up: an entry whose bits are all spoken for, or its bit gone at the end. */
  ghost predicate GivesUp(g: Geometry, s: State, l: Label)
    requires g.Valid()
  {
    l.Advance? && l.t in s.threads && s.threads[l.t].toggle.None? &&
    var pc := s.threads[l.t].pc;
    || (pc.RemoveDec? && var n := NodeOf(g, pc.x, pc.level);
        |Those(Outstanding, g, s.threads, n)| >= |Below(g, s.pool.bits, n)|)
    || (pc.RemoveClear? && pc.x !in s.pool.bits)
  }

  /** How often a call gives up. */
  ghost function TimesGivingUp(g: Geometry, from: seq<Label>, mid: seq<Label>, t: nat): nat
    requires g.Valid()
  {
    if mid == [] then 0 else
    var before := Before(g, from, mid);
    TimesGivingUp(g, from, mid[..|mid| - 1], t)
      + B(before.Some? && mid[|mid| - 1].t == t && GivesUp(g, before.value, mid[|mid| - 1]))
  }

  predicate Failing(pc: PC) {
    pc == Returned(NotPresent) || (pc.Incr? && pc.after == Finish(NotPresent))
  }

  /**
   Over a whole call of remove, amid any other calls: it is on its way to NotPresent, or has returned it, if and
   only if at one of its steps every bit below the entry was spoken for by calls in flight, or its bit was gone.
   */
  lemma {:induction false} NotPresentExactly(g: Geometry, from: seq<Label>, t: nat, i: nat, mid: seq<Label>)
    requires g.Valid() && Exec(g, from + [Call(t, Remove(i))] + mid).Some? && During(mid, t)
    ensures var s := Exec(g, from + [Call(t, Remove(i))] + mid).value;
      t in s.threads && TimesGivingUp(g, from + [Call(t, Remove(i))], mid, t) == B(Failing(s.threads[t].pc))
    decreases |mid|
  {
    var begun := from + [Call(t, Remove(i))];
    if mid == [] {
      assert begun + mid == begun && begun[..|begun| - 1] == from;
    } else {
      LastStep(g, begun, mid);
      NotPresentExactly(g, from, t, i, mid[..|mid| - 1]);
      CallServes(g, from, t, Remove(i), mid[..|mid| - 1]);
      var s, l := Before(g, begun, mid).value, mid[|mid| - 1];
      if l.t == t {
        StepFails(g, s, l, i);
      }
    }
  }

  lemma StepFails(g: Geometry, s: State, l: Label, i: nat)
    requires g.Valid() && Inv(g, s) && Legal(g, s, l) && l.Advance? && Serves(Remove(i), s.threads[l.t].pc)
    ensures B(Failing(Apply(g, s, l).threads[l.t].pc)) == B(Failing(s.threads[l.t].pc)) + B(GivesUp(g, s, l))
  {
    assert WellFormed(g, s.threads[l.t]);
    if s.threads[l.t].toggle.None? && s.threads[l.t].pc.RemoveDec? {
      BacksOutExactly(g, s, l.t);
    }
  }

  /**
   So a remove that gives up on an index that is present has a rival: another call has a unit outstanding
   on the entry where it gave up.
   */
  lemma GivingUpHasRival(g: Geometry, s: State, t: nat) returns (rival: nat)
    requires g.Valid() && Inv(g, s) && t in s.threads
    requires s.threads[t].toggle.None? && s.threads[t].pc.RemoveDec? && s.threads[t].pc.x in s.pool.bits
    requires Step(g, s.pool, s.threads[t], 0).1.pc.Incr?
    ensures rival in s.threads && rival != t
    ensures Has(Outstanding, g, s.threads[rival], NodeOf(g, s.threads[t].pc.x, s.threads[t].pc.level))
  {
    var n := NodeOf(g, s.threads[t].pc.x, s.threads[t].pc.level);
    BacksOutExactly(g, s, t);
    assert s.threads[t].pc.x in Below(g, s.pool.bits, n);
    rival :| rival in Those(Outstanding, g, s.threads, n);
  }

  lemma Extend(g: Geometry, run: seq<Label>, s: State, l: Label) returns (run': seq<Label>, s': State)
    requires g.Valid() && Exec(g, run) == Some(s) && Legal(g, s, l)
    ensures run' == run + [l] && s' == Apply(g, s, l) && Exec(g, run') == Some(s')
  {
    run', s' := run + [l], Apply(g, s, l);
    assert run'[..|run'| - 1] == run;
  }

  lemma AddZero() returns (run: seq<Label>, s: State)
    ensures Exec(Geometry(2, 1), run) == Some(s)
    ensures s.pool.bits == {0} && s.pool.Count(Node(0, 0)) == 1 && s.threads.Keys == {0}
  {
    var g := Geometry(2, 1);
    assert NodeOf(g, 0, 0) == Node(0, 0) && 0 < Capacity(g);
    run, s := [], State(FRESH, map[]);
    run, s := Extend(g, run, s, Call(0, Add(0)));
    run, s := Extend(g, run, s, Advance(0, 0));
    run, s := Extend(g, run, s, Advance(0, 0));
  }

  lemma RivalTakesCount() returns (run: seq<Label>, s: State)
    ensures Exec(Geometry(2, 1), run) == Some(s)
    ensures s.pool.bits == {0} && s.pool.Count(Node(0, 0)) == 0 && s.threads.Keys == {0, 1}
  {
    var g := Geometry(2, 1);
    assert NodeOf(g, 1, 0) == Node(0, 0) && 1 < Capacity(g);
    run, s := AddZero();
    run, s := Extend(g, run, s, Call(1, Remove(1)));
    run, s := Extend(g, run, s, Advance(1, 0));
  }

  /** It does happen: index 0 is there before the call and after it, and remove(0) reports it absent. */
  lemma GivingUpOnPresentIndex() returns (g: Geometry, before: seq<Label>, during: seq<Label>, s: State, s': State)
    ensures g.Valid() && Exec(g, before) == Some(s) && Exec(g, before + during) == Some(s')
    ensures during == [Call(2, Remove(0)), Advance(2, 0), Advance(2, 0)]
    ensures 0 in s.pool.bits && 0 in s'.pool.bits
    ensures 2 in s'.threads && s'.threads[2] == Thread(None, Returned(NotPresent))
  {
    g := Geometry(2, 1);
    assert NodeOf(g, 0, 0) == Node(0, 0) && 0 < Capacity(g);
    before, s := RivalTakesCount();
    var run, mid := RemoverFindsNoCount(before, s);
    run, s' := Extend(g, run, mid, Advance(2, 0));
    during := [Call(2, Remove(0)), Advance(2, 0), Advance(2, 0)];
    assert run == before + during;
  }

  /** The remover's decrement crosses zero: it must give the count back and report the index absent. */
  lemma RemoverFindsNoCount(before: seq<Label>, s: State) returns (run: seq<Label>, s': State)
    requires Exec(Geometry(2, 1), before) == Some(s) && 2 !in s.threads && s.pool.Count(Node(0, 0)) == 0
    ensures run == before + [Call(2, Remove(0)), Advance(2, 0)] && Exec(Geometry(2, 1), run) == Some(s')
    ensures 2 in s'.threads && s'.threads[2] == Thread(None, Incr(0, 0, 1, Finish(NotPresent))) && s'.pool.bits == s.pool.bits
    ensures s'.pool.Count(Node(0, 0)) == -1
  {
    var g := Geometry(2, 1);
    assert NodeOf(g, 0, 0) == Node(0, 0) && 0 < Capacity(g);
    run, s' := Extend(g, before, s, Call(2, Remove(0)));
    run, s' := Extend(g, run, s', Advance(2, 0));
  }
}
