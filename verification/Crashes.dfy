/** Runs with crashes: what survives when a node dies between two flushes and reopens its disk. */
module Crashes {
  import opened Bytes
  import opened Types
  import opened Work
  import opened ChainState
  import opened Consensus
  import opened ForkChoice
  import opened Interleaving
  import opened Snapshots
  import opened DiskFiles

  /** The store after the first `n` operations of one undisturbed call. */
  function AfterOperations(rules: Rules, s: Chain, call: Call, n: nat): Chain
    requires rules.Valid()
    decreases n
  {
    if n == 0 then s
    else var (t, next) := Advance(rules, s, call); AfterOperations(rules, t, next, n - 1)
  }

  /**
   * Each store operation flushes before it returns and a flush is all or nothing, so a crash during a call
   * of InsertBlock leaves the store after some number of its operations.  A call that gives up because a flush
   * failed leaves memory in such a state too.  A crash inside InitGenesis needs no event of its own: StoreBlock
   * alone already makes the genesis the tip.
   */
  datatype DurableEvent =
    | Completed(event: Event)
    | CrashedInsert(block: Block, now: int64, operations: nat)

  ghost predicate SaneDurable(rules: Rules, e: DurableEvent) {
    match e
    case Completed(event) => Sane(rules, event)
    case CrashedInsert(b, _, _) => rules.HashOf(b) != ZERO_HASH
  }

  function DurableStep(rules: Rules, s: Chain, e: DurableEvent): Chain
    requires rules.Valid()
  {
    match e
    case Completed(event) => Step(rules, s, event)
    case CrashedInsert(b, now, n) => AfterOperations(rules, s, Validating(b, now), n)
  }

  function DurableRun(rules: Rules, s: Chain, es: seq<DurableEvent>): Chain
    requires rules.Valid()
    decreases |es|
  {
    if es == [] then s else DurableRun(rules, DurableStep(rules, s, es[0]), es[1..])
  }

  function CrashCount(es: seq<DurableEvent>): nat {
    if es == [] then 0 else (if es[0].CrashedInsert? then 1 else 0) + CrashCount(es[1..])
  }

  /**
   * The disk side: if a node dies while the flush of its (k + 1)-th operation is at any of its states, the store it
   * reopens is the one after some number of operations.
   */
  lemma ReopeningIsACrashedInsert(rules: Rules, s: Chain, block: Block, now: int64, k: nat, before: Disk, after: Disk,
                                  snap: Snapshot, i: nat)
    returns (n: nat)
    requires rules.Valid()
    requires Holds(before, AfterOperations(rules, s, Validating(block, now), k))
    requires FlushedTo(AfterOperations(rules, s, Validating(block, now), k + 1), before, after, snap, i)
    ensures k <= n <= k + 1 && Holds(after, DurableStep(rules, s, CrashedInsert(block, now, n)))
    ensures forall u :: Holds(after, u) ==> u == DurableStep(rules, s, CrashedInsert(block, now, n))
  {
    n := if i < 3 then k else k + 1;
    CrashLeavesOldOrNew(before, after, snap, AfterOperations(rules, s, Validating(block, now), k),
                        AfterOperations(rules, s, Validating(block, now), k + 1), i);
  }

  // ----- One interrupted call, exactly

  /** After how many operations a new block is stored: validate, look up, weigh unless it is a root, store. */
  function StoredAfter(block: Block): nat { if block.header.height > 0 then 4 else 3 }

  /**
   * What an interruption after n operations leaves: nothing done, or the block stored but the tip not yet moved, or
   * all done.
   */
  function Interrupted(rules: Rules, s: Chain, block: Block, now: int64, n: nat): Chain
    requires rules.Valid()
  {
    if ValidateHeader(rules, s, block.header, now).Some? || rules.HashOf(block) in s.blocks then s
    else if n < StoredAfter(block) then s
    else if n < StoredAfter(block) + 2 then StoreBlock(rules.hash, s, block, ExactWork(s.work, block.header))
    else Insert(rules, s, block, now).0
  }

  lemma StaysReturned(rules: Rules, s: Chain, r: Result<(int, bool), Rejection>, n: nat)
    requires rules.Valid()
    ensures AfterOperations(rules, s, Returned(r), n) == s
  {
  }

  lemma MovingInterrupted(rules: Rules, s: Chain, b: Block, total: int, n: nat)
    requires rules.Valid() && rules.HashOf(b) in s.blocks
    ensures AfterOperations(rules, s, Moving(b, total), n) == if n == 0 then s else s.(tip := rules.HashOf(b))
  {
    if n > 0 {
      StaysReturned(rules, s.(tip := rules.HashOf(b)), Ok((total, true)), n - 1);
    }
  }

  lemma ChoosingInterrupted(rules: Rules, s: Chain, b: Block, total: int, n: nat)
    requires rules.Valid() && rules.HashOf(b) in s.blocks
    ensures AfterOperations(rules, s, Choosing(b, total), n) ==
      if n <= 1 then s else Finish(rules, s, Choosing(b, total)).0
  {
    if n > 0 {
      var next := Advance(rules, s, Choosing(b, total)).1;
      assert AfterOperations(rules, s, Choosing(b, total), n) == AfterOperations(rules, s, next, n - 1);
      assert Finish(rules, s, Choosing(b, total)) == Finish(rules, s, next);
      if next.Moving? {
        MovingInterrupted(rules, s, b, total, n - 1);
        MovingAdvances(rules, s, b, total);
        assert Finish(rules, s, Moving(b, total)) == (s.(tip := rules.HashOf(b)), Returned(Ok((total, true))));
      } else {
        StaysReturned(rules, s, next.result, n - 1);
      }
    }
  }

  lemma StoringInterrupted(rules: Rules, s: Chain, b: Block, total: int, n: nat)
    requires rules.Valid()
    ensures AfterOperations(rules, s, Storing(b, total), n) ==
      if n == 0 then s else if n <= 2 then StoreBlock(rules.hash, s, b, total) else StoreAndChoose(rules, s, b, total).0
  {
    if n > 0 {
      var stored := StoreBlock(rules.hash, s, b, total);
      ChoosingInterrupted(rules, stored, b, total, n - 1);
      StoringIsStoreAndChoose(rules, s, b, total);
      assert Finish(rules, s, Storing(b, total)) == Finish(rules, stored, Choosing(b, total));
    }
  }

  lemma UnchangedWhenRefused(rules: Rules, s: Chain, block: Block, now: int64, n: nat)
    requires rules.Valid() && WellFormed(rules.hash, s)
    requires ValidateHeader(rules, s, block.header, now).Some? || rules.HashOf(block) in s.blocks
    ensures AfterOperations(rules, s, Validating(block, now), n) == s
  {
    if n > 0 {
      var first := Advance(rules, s, Validating(block, now)).1;
      if first.Returned? {
        StaysReturned(rules, s, first.result, n - 1);
      } else if n > 1 {
        assert Advance(rules, s, Probing(block)) == (s, Reporting(block));
        assert AfterOperations(rules, s, Validating(block, now), n) == AfterOperations(rules, s, Probing(block), n - 1)
            == AfterOperations(rules, s, Reporting(block), n - 2);
        if n > 2 {
          StaysReturned(rules, s, Advance(rules, s, Reporting(block)).1.result, n - 3);
        }
      }
    }
  }

  /** An interrupted call leaves exactly what Interrupted says, at every point. */
  lemma InterruptedInsert(rules: Rules, s: Chain, block: Block, now: int64, n: nat)
    requires rules.Valid() && WellFormed(rules.hash, s) && rules.HashOf(block) != ZERO_HASH
    ensures AfterOperations(rules, s, Validating(block, now), n) == Interrupted(rules, s, block, now, n)
  {
    if ValidateHeader(rules, s, block.header, now).Some? || rules.HashOf(block) in s.blocks {
      UnchangedWhenRefused(rules, s, block, now, n);
    } else {
      InsertOutcomes(rules, s, block, now);
      NewBlockInterrupted(rules, s, block, now, n);
    }
  }

  lemma NewBlockInterrupted(rules: Rules, s: Chain, block: Block, now: int64, n: nat)
    requires rules.Valid() && WellFormed(rules.hash, s) && rules.HashOf(block) != ZERO_HASH
    requires ValidateHeader(rules, s, block.header, now).None? && rules.HashOf(block) !in s.blocks
    ensures var total := ExactWork(s.work, block.header);
      AfterOperations(rules, s, Validating(block, now), n) ==
        if n < StoredAfter(block) then s
        else if n < StoredAfter(block) + 2 then StoreBlock(rules.hash, s, block, total)
        else StoreAndChoose(rules, s, block, total).0
  {
    hide Advance;
    hide WellFormed;
    hide ValidateHeader;
    hide ExactWork;
    hide StoreBlock;
    hide StoreAndChoose;
    var total := ExactWork(s.work, block.header);
    NewBlockAdvances(rules, s, block, now);
    if n > 1 {
      assert AfterOperations(rules, s, Validating(block, now), n) == AfterOperations(rules, s, Probing(block), n - 1);
      if block.header.height == 0 {
        StoringInterrupted(rules, s, block, total, n - 2);
      } else if n > 2 {
        assert AfterOperations(rules, s, Probing(block), n - 1) == AfterOperations(rules, s, Weighing(block), n - 2);
        StoringInterrupted(rules, s, block, total, n - 3);
      }
    }
  }

  // ----- The best tip, exactly

  /** The stored blocks the tip should have given way to. */
  function PassedOver(s: Chain): set<Hash>
    requires s.work.Keys == s.blocks.Keys
  {
    set h | h in s.blocks && s.tip in s.blocks && Beats(s, h, s.tip)
  }

  /** The tip is the best block exactly when none was passed over. */
  lemma BestMeansNonePassedOver(hash: Header -> Hash, s: Chain)
    requires WellFormed(hash, s)
    ensures TipBest(s) <==> PassedOver(s) == {}
  {
    BestExceptMeans(hash, s, {});
  }

  /** And the best but for some blocks exactly when only they were. */
  lemma BestExceptMeans(hash: Header -> Hash, s: Chain, lost: set<Hash>)
    requires WellFormed(hash, s)
    ensures TipBestExcept(s, lost) <==> PassedOver(s) <= lost
  {
    hide Outranks;
    WorkKeys(hash, s);
    forall h | h in s.blocks && h != s.tip
      ensures Beats(s, s.tip, h) <==> h !in PassedOver(s)
    {
      OutranksIsTotal(s.tip, s.work[s.tip], h, s.work[h]);
    }
    if s.blocks != map[] {
      OutranksIsTotal(s.tip, s.work[s.tip], s.tip, s.work[s.tip]);
    }
  }

  /** Those of the blocks that outrank the tip. */
  function StillOutrank(t: Chain, hs: set<Hash>): set<Hash> {
    set h | h in hs && h in t.work && t.tip in t.work && Beats(t, h, t.tip)
  }

  /** Stored blocks stay, with their work. */
  ghost predicate Keeps(s: Chain, t: Chain) {
    forall h :: h in s.work ==> h in t.work && t.work[h] == s.work[h]
  }

  /** The crash falls between storing a block that should become the tip and moving the tip to it. */
  ghost predicate LosesTip(rules: Rules, s: Chain, e: DurableEvent)
    requires rules.Valid()
  {
    e.CrashedInsert? && Challenges(rules, s, e.block, e.now)
    && StoredAfter(e.block) <= e.operations < StoredAfter(e.block) + 2
  }

  /** The block whose tip update the event loses, if it loses one. */
  ghost function LostNow(rules: Rules, s: Chain, e: DurableEvent): set<Hash>
    requires rules.Valid()
  {
    if LosesTip(rules, s, e) then {rules.HashOf(e.block)} else {}
  }

  /** Storing alone passes the new block over exactly when it outranks the tip. */
  lemma StoredPassedOver(rules: Rules, s: Chain, block: Block)
    requires WellFormed(rules.hash, s) && Storable(rules.hash, s, block) && rules.HashOf(block) !in s.blocks
    ensures var total := ExactWork(s.work, block.header);
      var t := StoreBlock(rules.hash, s, block, total);
      && WellFormed(rules.hash, t) && s.work.Keys == s.blocks.Keys && t.work.Keys == t.blocks.Keys && Keeps(s, t)
      && PassedOver(t) ==
           if s.tip != ZERO_HASH && Outranks(rules.HashOf(block), total, s.tip, s.work[s.tip])
           then PassedOver(s) + {rules.HashOf(block)}
           else StillOutrank(t, PassedOver(s))
  {
    hide Outranks;
    hide ExactWork;
    StoringKeepsWellFormed(rules.hash, s, block);
    WorkKeys(rules.hash, s);
    var (h, total) := (rules.HashOf(block), ExactWork(s.work, block.header));
    OutranksIsTotal(h, total, h, total);
  }

  /** The tip moves only to a block that outranks it. */
  lemma ChosenOutranks(rules: Rules, s: Chain, block: Block, total: int)
    requires rules.Valid() && s.tip in s.blocks && s.tip in s.work && s.tip != ZERO_HASH
    requires rules.HashOf(block) !in s.blocks
    requires rules.hash(s.blocks[s.tip].header) == s.tip
    requires StoreAndChoose(rules, s, block, total).0.tip == rules.HashOf(block)
    ensures Outranks(rules.HashOf(block), total, s.tip, s.work[s.tip])
  {
    hide Outranks;
    SelectMaximises(s.tip, s.work[s.tip], rules.HashOf(block), total);
  }

  /** Storing and choosing never passes a block over, and a new tip redeems every block it outranks. */
  lemma ChosenPassedOver(rules: Rules, s: Chain, block: Block)
    requires rules.Valid() && WellFormed(rules.hash, s) && Storable(rules.hash, s, block)
    requires rules.HashOf(block) !in s.blocks
    ensures var t := StoreAndChoose(rules, s, block, ExactWork(s.work, block.header)).0;
      && WellFormed(rules.hash, t) && t.work.Keys == t.blocks.Keys && s.work.Keys == s.blocks.Keys && t.tip in t.blocks
      && Keeps(s, t) && PassedOver(t) == StillOutrank(t, PassedOver(s))
  {
    hide ExactWork;
    hide LinkedAt;
    hide StoreAndChoose;
    hide Indexed;
    hide Anchored;
    var (h, total) := (rules.HashOf(block), ExactWork(s.work, block.header));
    var t := StoreAndChoose(rules, s, block, total).0;
    WorkKeys(rules.hash, s);
    ChoosingIsOptimal(rules, s, block, s.blocks.Keys);
    WorkKeys(rules.hash, t);
    if s.blocks != map[] && t.tip == h {
      TipIsLinked(rules.hash, s);
      ChosenOutranks(rules, s, block, total);
    }
    forall k | k in t.blocks && Beats(t, k, t.tip)
      ensures k in PassedOver(s)
    {
    }
  }

  lemma TipIsLinked(hash: Header -> Hash, s: Chain)
    requires WellFormed(hash, s) && s.blocks != map[]
    ensures s.tip != ZERO_HASH && s.tip in s.blocks && s.tip in s.work && hash(s.blocks[s.tip].header) == s.tip
  {
    assert LinkedAt(hash, s.blocks, s.work, s.tip);
  }

  /**
   * One event's effect on the passed-over blocks: a crash at the wrong point adds the new block; anything else adds
   * none and drops those the tip no longer gives way to.
   */
  lemma StepPassedOver(rules: Rules, s: Chain, e: DurableEvent)
    requires rules.Valid() && WellFormed(rules.hash, s) && SaneDurable(rules, e)
    ensures var t := DurableStep(rules, s, e);
      && WellFormed(rules.hash, t) && s.work.Keys == s.blocks.Keys && t.work.Keys == t.blocks.Keys && Keeps(s, t)
      && PassedOver(t) ==
           if LosesTip(rules, s, e) then PassedOver(s) + {rules.HashOf(e.block)} else StillOutrank(t, PassedOver(s))
  {
    match e
    case Completed(event) => EventPassedOver(rules, s, event);
    case CrashedInsert(block, now, n) =>
      InterruptedInsert(rules, s, block, now, n);
      InterruptedPassedOver(rules, s, block, now, n);
  }

  lemma NothingChanges(hash: Header -> Hash, s: Chain)
    requires WellFormed(hash, s)
    ensures s.work.Keys == s.blocks.Keys && Keeps(s, s) && PassedOver(s) == StillOutrank(s, PassedOver(s))
  {
    WorkKeys(hash, s);
  }

  lemma InsertPassedOver(rules: Rules, s: Chain, block: Block, now: int64)
    requires rules.Valid() && WellFormed(rules.hash, s) && rules.HashOf(block) != ZERO_HASH
    ensures var t := Insert(rules, s, block, now).0;
      && WellFormed(rules.hash, t) && s.work.Keys == s.blocks.Keys && t.work.Keys == t.blocks.Keys && Keeps(s, t)
      && PassedOver(t) == StillOutrank(t, PassedOver(s))
  {
    hide StoreAndChoose;
    hide PassedOver;
    hide StillOutrank;
    hide Keeps;
    NothingChanges(rules.hash, s);
    InsertOutcomes(rules, s, block, now);
    if ValidateHeader(rules, s, block.header, now).None? && rules.HashOf(block) !in s.blocks {
      ChosenPassedOver(rules, s, block);
    }
  }

  lemma InterruptedPassedOver(rules: Rules, s: Chain, block: Block, now: int64, n: nat)
    requires rules.Valid() && WellFormed(rules.hash, s) && rules.HashOf(block) != ZERO_HASH
    ensures var t := Interrupted(rules, s, block, now, n);
      && WellFormed(rules.hash, t) && s.work.Keys == s.blocks.Keys && t.work.Keys == t.blocks.Keys && Keeps(s, t)
      && PassedOver(t) ==
           if LosesTip(rules, s, CrashedInsert(block, now, n)) then PassedOver(s) + {rules.HashOf(block)}
           else StillOutrank(t, PassedOver(s))
  {
    hide Insert;
    hide ValidateHeader;
    hide Outranks;
    hide ExactWork;
    hide PassedOver;
    hide StillOutrank;
    hide Keeps;
    hide WellFormed;
    hide Storable;
    hide StoreBlock;
    hide StoreAndChoose;
    NothingChanges(rules.hash, s);
    InsertPassedOver(rules, s, block, now);
    InsertOutcomes(rules, s, block, now);
    if ValidateHeader(rules, s, block.header, now).None? && rules.HashOf(block) !in s.blocks {
      StoredPassedOver(rules, s, block);
      if s.blocks != map[] {
        TipIsLinked(rules.hash, s);
      }
    }
  }

  lemma EventPassedOver(rules: Rules, s: Chain, e: Event)
    requires rules.Valid() && WellFormed(rules.hash, s) && Sane(rules, e)
    ensures var t := Step(rules, s, e);
      && WellFormed(rules.hash, t) && s.work.Keys == s.blocks.Keys && t.work.Keys == t.blocks.Keys && Keeps(s, t)
      && PassedOver(t) == StillOutrank(t, PassedOver(s))
  {
    hide Insert;
    NothingChanges(rules.hash, s);
    match e
    case InsertEvent(b, now) => InsertPassedOver(rules, s, b, now);
    case PeerBlock(b, now) =>
      if rules.HashOf(b) != ZERO_HASH {
        InsertPassedOver(rules, s, b, now);
      }
    case InitGenesis(b) =>
      if CurrentTip(s).Err? {
        StoredPassedOver(rules, s, b);
      }
  }

  /** One durable event does what it should: complete ones exactly, crashed ones up to where they were interrupted. */
  ghost predicate IsDurableStep(rules: Rules, s: Chain, e: DurableEvent, t: Chain)
    requires rules.Valid()
  {
    && s.work.Keys == s.blocks.Keys && (s.tip == ZERO_HASH || s.tip in s.blocks)
    && match e
       case Completed(event) => t == if Takes(rules, s, event) then Grown(rules, s, EventBlock(event)) else s
       case CrashedInsert(b, now, n) =>
         t == if !Takes(rules, s, InsertEvent(b, now)) || n < StoredAfter(b) then s
              else if n < StoredAfter(b) + 2 && s.tip != ZERO_HASH then Grown(rules, s, b).(tip := s.tip)
              else Grown(rules, s, b)
  }

  lemma DurableStepIsExact(rules: Rules, s: Chain, e: DurableEvent)
    requires rules.Valid() && WellFormed(rules.hash, s) && SaneDurable(rules, e)
    ensures IsDurableStep(rules, s, e, DurableStep(rules, s, e))
  {
    hide WellFormed;
    hide ValidateHeader;
    hide ExactWork;
    hide Outranks;
    hide Acceptable;
    hide Step;
    TipIsStored(rules.hash, s);
    match e
    case Completed(event) => StepIsExact(rules, s, event);
    case CrashedInsert(b, now, n) =>
      InterruptedInsert(rules, s, b, now, n);
      InsertGrows(rules, s, b, now);
      AcceptedIsAcceptable(rules, s, b.header, now);
  }

  lemma AcceptedIsAcceptable(rules: Rules, s: Chain, h: Header, now: int64)
    requires rules.Valid()
    ensures ValidateHeader(rules, s, h, now).None? <==> Acceptable(rules, s, h, now)
  {
    AcceptedMeans(rules, s, h, now);
  }

  ghost predicate IsDurableRun(rules: Rules, states: seq<Chain>, es: seq<DurableEvent>)
    requires rules.Valid()
  {
    |states| == |es| + 1 && forall i :: 0 <= i < |es| ==> IsDurableStep(rules, states[i], es[i], states[i + 1])
  }

  /** A run with crashes is a sequence of such states: no completed event is dropped. */
  lemma {:induction false} DurableRunIsExact(rules: Rules, s: Chain, es: seq<DurableEvent>) returns (states: seq<Chain>)
    requires rules.Valid() && WellFormed(rules.hash, s) && forall e :: e in es ==> SaneDurable(rules, e)
    ensures IsDurableRun(rules, states, es) && states[0] == s && states[|es|] == DurableRun(rules, s, es)
    decreases |es|
  {
    hide WellFormed;
    hide DurableStep;
    hide SaneDurable;
    hide IsDurableStep;
    if es == [] {
      states := [s];
    } else {
      assert es[0] in es;
      StepPassedOver(rules, s, es[0]);
      DurableStepIsExact(rules, s, es[0]);
      var later := DurableRunIsExact(rules, DurableStep(rules, s, es[0]), es[1..]);
      states := [s] + later;
      forall i | 0 <= i < |es|
        ensures IsDurableStep(rules, states[i], es[i], states[i + 1])
      {
        if i > 0 {
          assert IsDurableStep(rules, later[i - 1], es[1..][i - 1], later[i]);
        }
      }
    }
  }

  /** The blocks whose tip update was lost during a run. */
  ghost function LostBlocks(rules: Rules, s: Chain, es: seq<DurableEvent>): set<Hash>
    requires rules.Valid()
    decreases |es|
  {
    if es == [] then {}
    else LostNow(rules, s, es[0]) + LostBlocks(rules, DurableStep(rules, s, es[0]), es[1..])
  }

  /**
   * After any run with any number of crashes and restarts the tree is exact, and the blocks the tip fails to beat are
   * exactly those, passed over at the start or lost in a crash, that outrank the final tip: a later, better tip makes
   * good for a lost one.  A crash loses at most one.
   */
  lemma {:induction false} DurableRunPassedOver(rules: Rules, s: Chain, es: seq<DurableEvent>)
    requires rules.Valid() && WellFormed(rules.hash, s) && s.work.Keys == s.blocks.Keys
    requires forall e :: e in es ==> SaneDurable(rules, e)
    ensures var end := DurableRun(rules, s, es);
      && WellFormed(rules.hash, end) && end.work.Keys == end.blocks.Keys && Keeps(s, end)
      && PassedOver(end) == StillOutrank(end, PassedOver(s) + LostBlocks(rules, s, es))
      && |LostBlocks(rules, s, es)| <= CrashCount(es)
    decreases |es|
  {
    hide WellFormed;
    hide DurableStep;
    hide SaneDurable;
    hide LostNow;
    hide PassedOver;
    hide StillOutrank;
    if es == [] {
      NothingChanges(rules.hash, s);
      assert PassedOver(s) + {} == PassedOver(s);
    } else {
      assert es[0] in es;
      var mid := DurableStep(rules, s, es[0]);
      StepPassedOver(rules, s, es[0]);
      DurableRunPassedOver(rules, mid, es[1..]);
      var now := LostNow(rules, s, es[0]);
      var later := LostBlocks(rules, mid, es[1..]);
      LostCount(now, later);
      StepIsBounded(rules, s, es[0]);
      PassedOverChain(s, mid, DurableRun(rules, mid, es[1..]), now, later);
    }
  }

  lemma StepIsBounded(rules: Rules, s: Chain, e: DurableEvent)
    requires rules.Valid() && WellFormed(rules.hash, s) && SaneDurable(rules, e)
    ensures var t := DurableStep(rules, s, e);
      && t.work.Keys == t.blocks.Keys && s.work.Keys == s.blocks.Keys
      && PassedOver(t) <= PassedOver(s) + LostNow(rules, s, e)
      && |LostNow(rules, s, e)| <= if e.CrashedInsert? then 1 else 0
  {
    hide PassedOver;
    hide DurableStep;
    hide WellFormed;
    hide ValidateHeader;
    StepPassedOver(rules, s, e);
  }

  lemma PassedOverChain(s: Chain, mid: Chain, end: Chain, now: set<Hash>, later: set<Hash>)
    requires s.work.Keys == s.blocks.Keys && mid.work.Keys == mid.blocks.Keys && end.work.Keys == end.blocks.Keys
    requires PassedOver(mid) <= PassedOver(s) + now
    requires PassedOver(end) == StillOutrank(end, PassedOver(mid) + later)
    ensures PassedOver(end) == StillOutrank(end, PassedOver(s) + (now + later))
  {
  }

  lemma LostCount(a: set<Hash>, b: set<Hash>)
    ensures |a + b| <= |a| + |b|
  {
    assert |a + b| == |a| + |b| - |a * b|;
  }

  /** In particular, after any run the tip beats every stored block except at most one per crash. */
  lemma DurableRunKeepsInvariant(rules: Rules, s: Chain, es: seq<DurableEvent>, lost: set<Hash>)
    requires rules.Valid() && WellFormed(rules.hash, s) && TipBestExcept(s, lost)
    requires forall e :: e in es ==> SaneDurable(rules, e)
    ensures WellFormed(rules.hash, DurableRun(rules, s, es))
    ensures TipBestExcept(DurableRun(rules, s, es), lost + LostBlocks(rules, s, es))
    ensures |lost + LostBlocks(rules, s, es)| <= |lost| + CrashCount(es)
  {
    hide WellFormed;
    hide TipBestExcept;
    hide DurableRun;
    hide LostBlocks;
    hide PassedOver;
    WorkKeys(rules.hash, s);
    BestExceptMeans(rules.hash, s, lost);
    DurableRunPassedOver(rules, s, es);
    BestExceptMeans(rules.hash, DurableRun(rules, s, es), lost + LostBlocks(rules, s, es));
    LostCount(lost, LostBlocks(rules, s, es));
  }

  /** After a run from an optimal store the tip is best exactly when it outranks every block lost in a crash. */
  lemma DurableRunIsOptimal(rules: Rules, s: Chain, es: seq<DurableEvent>)
    requires rules.Valid() && WellFormed(rules.hash, s) && TipBest(s)
    requires forall e :: e in es ==> SaneDurable(rules, e)
    ensures var end := DurableRun(rules, s, es);
      WellFormed(rules.hash, end) && (TipBest(end) <==> StillOutrank(end, LostBlocks(rules, s, es)) == {})
  {
    hide WellFormed;
    hide TipBest;
    hide DurableRun;
    hide LostBlocks;
    hide StillOutrank;
    hide PassedOver;
    WorkKeys(rules.hash, s);
    BestMeansNonePassedOver(rules.hash, s);
    DurableRunPassedOver(rules, s, es);
    BestMeansNonePassedOver(rules.hash, DurableRun(rules, s, es));
    assert {} + LostBlocks(rules, s, es) == LostBlocks(rules, s, es);
  }

  /** On an optimal store, a crash loses the best tip exactly between storing a challenger and moving the tip to it. */
  lemma CrashPointIsExact(rules: Rules, s: Chain, block: Block, now: int64, n: nat)
    requires rules.Valid() && WellFormed(rules.hash, s) && TipBest(s) && rules.HashOf(block) != ZERO_HASH
    ensures var t := DurableStep(rules, s, CrashedInsert(block, now, n));
      && WellFormed(rules.hash, t)
      && (TipBest(t) <==> !(Challenges(rules, s, block, now) && StoredAfter(block) <= n < StoredAfter(block) + 2))
  {
    hide WellFormed;
    hide TipBest;
    hide DurableStep;
    hide PassedOver;
    StepPassedOver(rules, s, CrashedInsert(block, now, n));
    BestMeansNonePassedOver(rules.hash, s);
    BestMeansNonePassedOver(rules.hash, DurableStep(rules, s, CrashedInsert(block, now, n)));
  }

  /** Sending the lost block again does not help: it is known, whenever it comes and whatever it carries. */
  lemma ReinsertingDoesNotRecover(rules: Rules, s: Chain, e: DurableEvent, again: Block, later: int64)
    requires rules.Valid() && LosesTip(rules, s, e) && rules.HashOf(again) == rules.HashOf(e.block)
    ensures var t := DurableStep(rules, s, e);
      && t.work.Keys == t.blocks.Keys && rules.HashOf(e.block) in PassedOver(t)
      && Insert(rules, t, again, later).0 == t
  {
    hide PassedOver;
    hide ValidateHeader;
    hide StoreAndChoose;
    StepPassedOver(rules, s, e);
    InsertOutcomes(rules, DurableStep(rules, s, e), again, later);
    LostIsStored(rules, s, e);
  }

  lemma LostIsStored(rules: Rules, s: Chain, e: DurableEvent)
    requires rules.Valid() && LosesTip(rules, s, e)
    ensures rules.HashOf(e.block) in DurableStep(rules, s, e).blocks
  {
    hide ValidateHeader;
    InterruptedInsert(rules, s, e.block, e.now, e.operations);
  }

  /** A child of the best stored block recovers: whatever was passed over, it becomes the tip and beats every block. */
  lemma ChildRecovers(rules: Rules, s: Chain, block: Block, now: int64)
    requires rules.Valid() && WellFormed(rules.hash, s) && s.work.Keys == s.blocks.Keys
    requires block.header.height > 0 && ValidateHeader(rules, s, block.header, now).None?
    requires rules.HashOf(block) != ZERO_HASH && rules.HashOf(block) !in s.blocks
    requires forall h :: h in s.blocks ==> Tops(s, block.header.parentHash, h)
    ensures var t := Insert(rules, s, block, now).0;
      t.tip == rules.HashOf(block) && WellFormed(rules.hash, t) && TipBest(t)
  {
    hide CalcBlockWork;
    hide LinkedAt;
    hide Indexed;
    hide Anchored;
    hide StoreAndChoose;
    AcceptedMeans(rules, s, block.header, now);
    BlockWorkRange(block.header.target);
    InsertOutcomes(rules, s, block, now);
    WorkKeys(rules.hash, s);
    ChoosingIsOptimal(rules, s, block, s.blocks.Keys);
    ChosenPassedOver(rules, s, block);
    var t := Insert(rules, s, block, now).0;
    assert t.tip != rules.HashOf(block) ==> Beats(t, t.tip, rules.HashOf(block));
    assert Tops(s, block.header.parentHash, s.tip);
    BestMeansNonePassedOver(rules.hash, t);
  }
}
