/**
 Lazy TLB coherence of the VMSubstrate: a CPU that rewrites a leaf PTE marks the page dirty for
 every other CPU, one 64-CPU word at a time, and drops its own entry; a CPU about to touch a page
 checks its own dirty bit first. No interrupts are sent. Each atomic operation is one step, any
 number of CPUs interleave, and a TLB is filled only by its own CPU's accesses.
 */
module TlbCoherence {

  import opened Wrappers

  type Page = nat
  type Frame = nat

  datatype PC =
    | Idle
    | Marking(page: Page, word: nat)   // PTE written; setDirtyForOtherCPUs is at this word
    | Flushing(page: Page)             // all words marked; own invlpg to come
    | Checking(page: Page)             // ensureTLBEntryFresh called; load of the dirty word to come
    | SawDirty(page: Page)             // own bit was set; invlpg to come
    | Clearing(page: Page)             // invalidated; fetch_and of the own bit to come
    | Fresh(page: Page)                // ensureTLBEntryFresh returned

  datatype Cpu = Cpu(tlb: map<Page, Frame>, dirty: set<Page>, pc: PC)

  datatype State = State(pte: map<Page, Frame>, cpus: seq<Cpu>)

  function WordCount(cpus: nat): nat {
    (cpus + 63) / 64
  }

  datatype Label =
    | Map(cpu: nat, page: Page, frame: Frame)   // allocPage, mapMMIOPage, reclaimSlabPage: install a leaf entry
    | Unmap(cpu: nat, page: Page)               // freePage: clear the leaf entry
    | Check(cpu: nat, page: Page)               // call ensureTLBEntryFresh
    | Advance(cpu: nat)                         // next step of the call in progress
    | Access(cpu: nat, page: Page)              // touch the page
    | Leave(cpu: nat)                           // done with the page checked last

  predicate Available(pc: PC) {
    pc.Idle? || pc.Fresh?
  }

  predicate Legal(s: State, l: Label) {
    l.cpu < |s.cpus| &&
    var pc := s.cpus[l.cpu].pc;
    match l
    case Map(_, _, _) => Available(pc)
    case Unmap(_, _) => Available(pc)
    case Check(_, _) => Available(pc)
    case Advance(_) => !Available(pc)
    case Access(_, page) => Available(pc) || pc.page != page
    case Leave(_) => pc.Fresh?
  }

  function WithPC(s: State, c: nat, pc: PC): State
    requires c < |s.cpus|
  {
    s.(cpus := s.cpus[c := s.cpus[c].(pc := pc)])
  }

  /** fetch_or of the dirty word: every CPU of that word but the caller. */
  function MarkWord(cpus: seq<Cpu>, me: nat, page: Page, word: nat): (r: seq<Cpu>)
    ensures |r| == |cpus|
  {
    seq(|cpus|, c requires 0 <= c < |cpus| =>
      if c / 64 == word && c != me then cpus[c].(dirty := cpus[c].dirty + {page}) else cpus[c])
  }

  function Step(s: State, c: nat): State
    requires c < |s.cpus|
  {
    var me := s.cpus[c];
    match me.pc
    case Marking(page, word) =>
      var marked := s.(cpus := MarkWord(s.cpus, c, page, word));
      WithPC(marked, c, if word + 1 < WordCount(|s.cpus|) then Marking(page, word + 1) else Flushing(page))
    case Flushing(page) =>
      s.(cpus := s.cpus[c := me.(tlb := me.tlb - {page}, pc := Idle)])
    case Checking(page) =>
      WithPC(s, c, if page in me.dirty then SawDirty(page) else Fresh(page))
    case SawDirty(page) =>
      s.(cpus := s.cpus[c := me.(tlb := me.tlb - {page}, pc := Clearing(page))])
    case Clearing(page) =>
      s.(cpus := s.cpus[c := me.(dirty := me.dirty - {page}, pc := Fresh(page))])
    case _ => s
  }

  function Apply(s: State, l: Label): State
    requires Legal(s, l)
  {
    var me := s.cpus[l.cpu];
    match l
    case Map(c, page, frame) => WithPC(s.(pte := s.pte[page := frame]), c, Marking(page, 0))
    case Unmap(c, page) => WithPC(s.(pte := s.pte - {page}), c, Marking(page, 0))
    case Check(c, page) => WithPC(s, c, Checking(page))
    case Advance(c) => Step(s, c)
    case Access(c, page) =>
      if page !in me.tlb && page in s.pte then s.(cpus := s.cpus[c := me.(tlb := me.tlb[page := s.pte[page]])]) else s
    case Leave(c) => WithPC(s, c, Idle)
  }

  /** The frame an access by the CPU goes to; None is a page fault. */
  function Translate(s: State, c: nat, page: Page): Option<Frame>
    requires c < |s.cpus|
  {
    if page in s.cpus[c].tlb then Some(s.cpus[c].tlb[page]) else Current(s, page)
  }

  function Current(s: State, page: Page): Option<Frame> {
    if page in s.pte then Some(s.pte[page]) else None
  }

  function Boot(cpus: nat): State {
    State(map[], seq(cpus, _ => Cpu(map[], {}, Idle)))
  }

  /** The state after a run, None when a step of it is not legal. */
  function Exec(s: State, run: seq<Label>): Option<State>
    decreases |run|
  {
    if run == [] then Some(s)
    else if Legal(s, run[0]) then Exec(Apply(s, run[0]), run[1..]) else None
  }

  // ----- the invariant -----

  /** CPU w is rewriting the page and has not yet taken care of CPU c's cached entry. */
  predicate Uncovered(s: State, w: nat, c: nat, page: Page) {
    w < |s.cpus| &&
    match s.cpus[w].pc
    case Marking(p, word) => p == page && (c == w || word <= c / 64)
    case Flushing(p) => p == page && c == w
    case _ => false
  }

  predicate Rewriting(s: State, w: nat, page: Page) {
    w < |s.cpus| && (s.cpus[w].pc == Flushing(page) || (s.cpus[w].pc.Marking? && s.cpus[w].pc.page == page))
  }

  /** The cached translation is absent, current or flagged dirty. */
  predicate Safe(s: State, c: nat, page: Page)
    requires c < |s.cpus|
  {
    page !in s.cpus[c].tlb || Current(s, page) == Some(s.cpus[c].tlb[page]) || page in s.cpus[c].dirty
  }

  ghost predicate EntryOk(s: State, c: nat, page: Page)
    requires c < |s.cpus|
  {
    && (s.cpus[c].pc == Clearing(page) ==> page !in s.cpus[c].tlb)
    && (Safe(s, c, page) || exists w :: Uncovered(s, w, c, page))
  }

  ghost predicate Inv(s: State) {
    && (forall c, page: Page :: 0 <= c < |s.cpus| ==> EntryOk(s, c, page))
    && (forall w :: 0 <= w < |s.cpus| ==> WordOk(s, w))
  }

  predicate WordOk(s: State, w: nat)
    requires w < |s.cpus|
  {
    s.cpus[w].pc.Marking? ==> s.cpus[w].pc.word < WordCount(|s.cpus|)
  }

  /** A rewrite in progress goes on covering CPUs, and the step that covers one leaves its entry safe. */
  lemma StepCovers(s: State, w: nat, c: nat, page: Page)
    requires w < |s.cpus| && c < |s.cpus| && WordOk(s, w) && Uncovered(s, w, c, page)
    ensures Uncovered(Step(s, w), w, c, page) || Safe(Step(s, w), c, page)
  {
  }

  /** Steps other than those of the rewriter itself leave its rewrite as it is. */
  lemma OthersKeepUncovered(s: State, l: Label, w: nat, c: nat, page: Page)
    requires Legal(s, l) && Uncovered(s, w, c, page) && (l.cpu != w || !l.Advance?)
    ensures Uncovered(Apply(s, l), w, c, page)
  {
  }

  lemma WriteUncovers(s: State, l: Label, c: nat)
    requires Legal(s, l) && c < |s.cpus| && (l.Map? || l.Unmap?)
    ensures Uncovered(Apply(s, l), l.cpu, c, l.page)
  {
  }

  /** Nothing but a rewrite of the page makes a safe entry unsafe. */
  lemma SafeStays(s: State, l: Label, c: nat, page: Page)
    requires Legal(s, l) && c < |s.cpus| && Safe(s, c, page)
    requires s.cpus[c].pc == Clearing(page) ==> page !in s.cpus[c].tlb
    requires (l.Map? || l.Unmap?) ==> l.page != page
    ensures Safe(Apply(s, l), c, page)
  {
  }

  lemma ApplyKeepsEntry(s: State, l: Label, c: nat, page: Page)
    requires Inv(s) && Legal(s, l) && c < |s.cpus|
    ensures EntryOk(Apply(s, l), c, page)
  {
    var s' := Apply(s, l);
    assert EntryOk(s, c, page);
    assert s'.cpus[c].pc == Clearing(page) ==> page !in s'.cpus[c].tlb;
    if (l.Map? || l.Unmap?) && l.page == page {
      WriteUncovers(s, l, c);
    } else if Safe(s, c, page) {
      SafeStays(s, l, c, page);
    } else {
      var w :| Uncovered(s, w, c, page);
      if l == Advance(w) {
        assert WordOk(s, w);
        StepCovers(s, w, c, page);
      } else {
        OthersKeepUncovered(s, l, w, c, page);
      }
    }
  }

  lemma ApplyKeepsInv(s: State, l: Label)
    requires Inv(s) && Legal(s, l)
    ensures Inv(Apply(s, l))
  {
    var s' := Apply(s, l);
    forall c, page: Page | 0 <= c < |s'.cpus| ensures EntryOk(s', c, page) {
      ApplyKeepsEntry(s, l, c, page);
    }
    forall w | 0 <= w < |s'.cpus| ensures WordOk(s', w) {
      assert WordOk(s, w);
    }
  }

  /** The invariant holds throughout every run of any number of CPUs. */
  lemma {:induction false} RunKeepsInv(s: State, run: seq<Label>)
    requires Inv(s)
    ensures Exec(s, run).Some? ==> Inv(Exec(s, run).value)
    decreases |run|
  {
    if run != [] && Legal(s, run[0]) {
      ApplyKeepsInv(s, run[0]);
      RunKeepsInv(Apply(s, run[0]), run[1..]);
    }
  }

  lemma BootOk(cpus: nat)
    ensures Inv(Boot(cpus))
  {
  }

  /**
   Once no rewrite of a page is in progress, every CPU's cached translation of it is absent,
   current or flagged dirty.
   */
  lemma RewriteReachesEveryCpu(cpus: nat, run: seq<Label>, c: nat, page: Page)
    requires Exec(Boot(cpus), run).Some? && c < |Exec(Boot(cpus), run).value.cpus|
    requires forall w :: !Rewriting(Exec(Boot(cpus), run).value, w, page)
    ensures Safe(Exec(Boot(cpus), run).value, c, page)
  {
    BootOk(cpus);
    RunKeepsInv(Boot(cpus), run);
    var s := Exec(Boot(cpus), run).value;
    assert EntryOk(s, c, page);
    if !Safe(s, c, page) {
      var w :| Uncovered(s, w, c, page);
      assert Rewriting(s, w, page);
    }
  }

  // ----- an access after the check -----

  /** The CPU is inside or just past ensureTLBEntryFresh for the page, and nobody is rewriting it. */
  ghost predicate Calm(s: State, c: nat, page: Page) {
    && c < |s.cpus| && s.cpus[c].pc in {Checking(page), SawDirty(page), Clearing(page), Fresh(page)}
    && forall w :: !Rewriting(s, w, page)
  }

  ghost predicate AlwaysCalm(s: State, run: seq<Label>, c: nat, page: Page)
    decreases |run|
  {
    Calm(s, c, page) && (run != [] ==> Legal(s, run[0]) && AlwaysCalm(Apply(s, run[0]), run[1..], c, page))
  }

  /** After the check the cached translation, if there is one, is the current one. */
  predicate FreshOk(s: State, c: nat, page: Page) {
    c < |s.cpus| && (s.cpus[c].pc == Fresh(page) ==> Translate(s, c, page) == Current(s, page))
  }

  lemma CalmStep(s: State, l: Label, c: nat, page: Page)
    requires Inv(s) && Legal(s, l) && Calm(s, c, page) && Calm(Apply(s, l), c, page) && FreshOk(s, c, page)
    ensures FreshOk(Apply(s, l), c, page)
  {
    var s' := Apply(s, l);
    assert EntryOk(s, c, page);
    assert !Rewriting(s', l.cpu, page);
    assert Safe(s, c, page) by {
      if !Safe(s, c, page) {
        var w :| Uncovered(s, w, c, page);
        assert Rewriting(s, w, page);
      }
    }
  }

  /**
   If nobody rewrites the page from the start of ensureTLBEntryFresh until the access, the access
   goes to the frame the page table names. The run may contain anything else, on any CPU.
   */
  lemma {:induction false} AccessAfterCheck(s: State, run: seq<Label>, c: nat, page: Page)
    requires Inv(s) && AlwaysCalm(s, run, c, page) && FreshOk(s, c, page)
    ensures Exec(s, run).Some? && FreshOk(Exec(s, run).value, c, page)
    decreases |run|
  {
    if run != [] {
      CalmStep(s, run[0], c, page);
      ApplyKeepsInv(s, run[0]);
      AccessAfterCheck(Apply(s, run[0]), run[1..], c, page);
    }
  }

  /** The same, from boot: some run leads to the call of ensureTLBEntryFresh, another to the access. */
  lemma CheckedAccessIsCurrent(cpus: nat, before: seq<Label>, run: seq<Label>, c: nat, page: Page)
    requires Exec(Boot(cpus), before).Some? && c < |Exec(Boot(cpus), before).value.cpus|
    requires Exec(Boot(cpus), before).value.cpus[c].pc == Checking(page)
    requires AlwaysCalm(Exec(Boot(cpus), before).value, run, c, page)
    ensures Exec(Exec(Boot(cpus), before).value, run).Some?
    ensures var s := Exec(Exec(Boot(cpus), before).value, run).value;
      c < |s.cpus| && (s.cpus[c].pc == Fresh(page) ==> Translate(s, c, page) == Current(s, page))
  {
    BootOk(cpus);
    RunKeepsInv(Boot(cpus), before);
    AccessAfterCheck(Exec(Boot(cpus), before).value, run, c, page);
  }

  // ----- when an access is stale -----

  function Cached(s: State, c: nat, page: Page): Option<Frame>
    requires c < |s.cpus|
  {
    if page in s.cpus[c].tlb then Some(s.cpus[c].tlb[page]) else None
  }

  /** The step is CPU c's own invlpg of the page. */
  predicate Drops(s: State, l: Label, c: nat, page: Page) {
    l == Advance(c) && c < |s.cpus| && (s.cpus[c].pc == Flushing(page) || s.cpus[c].pc == SawDirty(page))
  }

  /**
   The frame that the page table named when CPU c last filled its entry for the page, None when it has
   not filled it since its own last invlpg.
   */
  function LastFill(s: State, run: seq<Label>, c: nat, page: Page, before: Option<Frame>): Option<Frame>
    decreases |run|
  {
    if run == [] || !Legal(s, run[0]) then before
    else
      var after := if run[0] == Access(c, page) && before.None? then Current(s, page)
                   else if Drops(s, run[0], c, page) then None else before;
      LastFill(Apply(s, run[0]), run[1..], c, page, after)
  }

  lemma {:induction false} CachedIsLastFill(s: State, run: seq<Label>, c: nat, page: Page)
    requires c < |s.cpus| && Exec(s, run).Some?
    ensures c < |Exec(s, run).value.cpus| && Cached(Exec(s, run).value, c, page) == LastFill(s, run, c, page, Cached(s, c, page))
    decreases |run|
  {
    if run != [] {
      CachedIsLastFill(Apply(s, run[0]), run[1..], c, page);
    }
  }

  /**
   In every run, an access would be stale if and only if the CPU has filled its entry since its own last
   invlpg and the page's frame is not the one it had then. A stale entry is flagged dirty, or a rewrite still
   has to take care of it.
   */
  lemma StaleExactly(cpus: nat, run: seq<Label>, c: nat, page: Page)
    requires Exec(Boot(cpus), run).Some? && c < cpus
    ensures var s, fill := Exec(Boot(cpus), run).value, LastFill(Boot(cpus), run, c, page, None);
      && c < |s.cpus| && (Translate(s, c, page) != Current(s, page) <==> fill.Some? && fill != Current(s, page))
      && (Translate(s, c, page) != Current(s, page) ==> page in s.cpus[c].dirty || exists w :: Uncovered(s, w, c, page))
  {
    CachedIsLastFill(Boot(cpus), run, c, page);
    BootOk(cpus);
    RunKeepsInv(Boot(cpus), run);
    assert EntryOk(Exec(Boot(cpus), run).value, c, page);
  }

  lemma {:induction false} ExecAppend(s: State, run: seq<Label>, l: Label)
    requires Exec(s, run).Some? && Legal(Exec(s, run).value, l)
    ensures Exec(s, run + [l]) == Some(Apply(Exec(s, run).value, l))
    decreases |run|
  {
    if run != [] {
      ExecAppend(Apply(s, run[0]), run[1..], l);
      assert (run + [l])[1..] == run[1..] + [l];
    }
  }

  lemma Extend(s0: State, run: seq<Label>, s: State, l: Label) returns (run': seq<Label>, s': State)
    requires Exec(s0, run) == Some(s) && Legal(s, l)
    ensures run' == run + [l] && s' == Apply(s, l) && Exec(s0, run') == Some(s')
  {
    ExecAppend(s0, run, l);
    run', s' := run + [l], Apply(s, l);
  }

  lemma MapOnFirstCpu() returns (run: seq<Label>, s: State)
    ensures Exec(Boot(2), run) == Some(s)
    ensures s == State(map[7 := 100], [Cpu(map[], {}, Idle), Cpu(map[], {7}, Idle)])
  {
    run, s := Extend(Boot(2), [], Boot(2), Map(0, 7, 100));
    run, s := Extend(Boot(2), run, s, Advance(0));
    run, s := Extend(Boot(2), run, s, Advance(0));
    assert s.cpus[0] == Cpu(map[], {}, Idle) && s.cpus[1] == Cpu(map[], {7}, Idle);
  }

  lemma CacheOnSecondCpu() returns (run: seq<Label>, s: State)
    ensures Exec(Boot(2), run) == Some(s)
    ensures s == State(map[7 := 100], [Cpu(map[], {}, Idle), Cpu(map[7 := 100], {}, Fresh(7))])
  {
    run, s := MapOnFirstCpu();
    run, s := Extend(Boot(2), run, s, Check(1, 7));
    run, s := Extend(Boot(2), run, s, Advance(1));
    run, s := Extend(Boot(2), run, s, Advance(1));
    run, s := Extend(Boot(2), run, s, Advance(1));
    assert s.cpus[0] == Cpu(map[], {}, Idle) && s.cpus[1].dirty == {};
    assert s.cpus[1] == Cpu(map[], {}, Fresh(7));
    run, s := Extend(Boot(2), run, s, Access(1, 7));
  }

  /**
   The condition is needed: a rewrite that starts and ends between the check and the access leaves
   the checked CPU on the old frame, with nothing in flight and only its dirty bit to tell.
   */
  lemma RewriteAfterCheckGoesStale() returns (run: seq<Label>, s: State)
    ensures Exec(Boot(2), run) == Some(s) && |s.cpus| == 2 && s.cpus[1].pc == Fresh(7)
    ensures forall w :: !Rewriting(s, w, 7)
    ensures Translate(s, 1, 7) == Some(100) && Current(s, 7) == Some(200) && 7 in s.cpus[1].dirty
  {
    run, s := CacheOnSecondCpu();
    run, s := Extend(Boot(2), run, s, Map(0, 7, 200));
    run, s := Extend(Boot(2), run, s, Advance(0));
    run, s := Extend(Boot(2), run, s, Advance(0));
    assert s.cpus[0].pc == Idle;
  }
}
