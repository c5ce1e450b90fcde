/**
 * InsertBlock called by several goroutines at once.  The store locks each of its operations, nothing locks
 * the whole call, so the unit of interleaving is one store operation.
 */
module Interleaving {
  import opened Bytes
  import opened Types
  import opened Work
  import opened ChainState
  import opened Consensus
  import opened ForkChoice

  /** Where a call of InsertBlock stands: named after the store operation it performs next. */
  datatype Call =
    | Validating(block: Block, now: int64)
    | Probing(block: Block)
    | Reporting(block: Block)
    | Weighing(block: Block)
    | Storing(block: Block, total: int)
    | Choosing(block: Block, total: int)
    | Moving(block: Block, total: int)
    | Returned(result: Result<(int, bool), Rejection>)

  /** The shared store and every call in flight, by goroutine. */
  datatype System = System(chain: Chain, calls: map<nat, Call>)

  /** One store operation of one call. */
  function Advance(rules: Rules, s: Chain, call: Call): (Chain, Call)
    requires rules.Valid()
  {
    match call
    case Validating(b, now) =>
      (s, match ValidateHeader(rules, s, b.header, now)
          case Some(e) => Returned(Err(e))
          case None => Probing(b))
    case Probing(b) =>
      (s, if rules.HashOf(b) in s.blocks then Reporting(b)
          else if b.header.height > 0 then Weighing(b)
          else Storing(b, CalcBlockWork(b.header.target)))
    case Reporting(b) =>
      (s, match TotalWork(s, rules.HashOf(b))
          case Ok(w) => Returned(Ok((w, false)))
          case Err(_) => Returned(Err(StoreFailed)))
    case Weighing(b) =>
      (s, match TotalWork(s, b.header.parentHash)
          case Ok(w) => Storing(b, CalcBlockWork(b.header.target) + w)
          case Err(_) => Returned(Err(StoreFailed)))
    case Storing(b, total) => (StoreBlock(rules.hash, s, b, total), Choosing(b, total))
    case Choosing(b, total) =>
      (s, match CurrentTip(s)
          case Err(_) => Moving(b, total)
          case Ok(current) =>
            if SelectBestChainByTotalWork(rules.HashOf(current.0), current.1, rules.HashOf(b), total) == rules.HashOf(b)
            then Moving(b, total)
            else Returned(Ok((total, false))))
    case Moving(b, total) =>
      (match SetCurrentTip(s, rules.HashOf(b))
       case Ok(t) => (t, Returned(Ok((total, true))))
       case Err(_) => (s, Returned(Err(StoreFailed))))
    case Returned(_) => (s, call)
  }

  /** A goroutine with no call in flight starts one on a block from the pool. */
  ghost predicate Starts(pool: set<Header>, a: System, b: System) {
    exists t: nat, block: Block, now: int64 ::
      && (t in a.calls ==> a.calls[t].Returned?)
      && block.header in pool
      && b == a.(calls := a.calls[t := Validating(block, now)])
  }

  /** Goroutine `t` performs its next store operation. */
  predicate Operates(rules: Rules, a: System, b: System, t: nat)
    requires rules.Valid() && t in a.calls
  {
    var (chain, call) := Advance(rules, a.chain, a.calls[t]);
    b == System(chain, a.calls[t := call])
  }

  ghost predicate Next(rules: Rules, pool: set<Header>, a: System, b: System)
    requires rules.Valid()
  {
    Starts(pool, a, b) || exists t :: t in a.calls && Operates(rules, a, b, t)
  }

  // ----- The call alone is InsertBlock

  function Remaining(call: Call): nat {
    match call
    case Validating(_, _) => 7
    case Probing(_) => 6
    case Reporting(_) => 5
    case Weighing(_) => 5
    case Storing(_, _) => 4
    case Choosing(_, _) => 3
    case Moving(_, _) => 2
    case Returned(_) => 0
  }

  /** Runs a call to its end with nobody else interfering. */
  function Finish(rules: Rules, s: Chain, call: Call): (Chain, Call)
    requires rules.Valid()
    decreases Remaining(call)
  {
    if call.Returned? then (s, call)
    else var (t, next) := Advance(rules, s, call); Finish(rules, t, next)
  }

  lemma FinishStep(rules: Rules, s: Chain, call: Call)
    requires rules.Valid()
    ensures Finish(rules, s, call) ==
      if call.Returned? then (s, call) else Finish(rules, Advance(rules, s, call).0, Advance(rules, s, call).1)
  {
  }

  lemma FinishReturned(rules: Rules, s: Chain, r: Result<(int, bool), Rejection>)
    requires rules.Valid()
    ensures Finish(rules, s, Returned(r)) == (s, Returned(r))
  {
  }

  /** Undisturbed, the operation-by-operation call has exactly InsertBlock's effect and result. */
  lemma AloneIsInsert(rules: Rules, s: Chain, block: Block, now: int64)
    requires rules.Valid()
    ensures Finish(rules, s, Validating(block, now))
      == (Insert(rules, s, block, now).0, Returned(Insert(rules, s, block, now).1))
  {
    hide Finish;
    hide ValidateHeader;
    hide InsertAccepted;
    FinishStep(rules, s, Validating(block, now));
    match ValidateHeader(rules, s, block.header, now)
    case Some(e) => FinishReturned(rules, s, Err(e));
    case None => ProbingIsInsertAccepted(rules, s, block);
  }

  lemma ProbingIsInsertAccepted(rules: Rules, s: Chain, block: Block)
    requires rules.Valid()
    ensures Finish(rules, s, Probing(block))
      == (InsertAccepted(rules, s, block).0, Returned(InsertAccepted(rules, s, block).1))
  {
    hide Finish;
    hide StoreAndChoose;
    hide CalcBlockWork;
    var work := CalcBlockWork(block.header.target);
    FinishStep(rules, s, Probing(block));
    if rules.HashOf(block) in s.blocks {
      FinishStep(rules, s, Reporting(block));
      FinishReturned(rules, s, Advance(rules, s, Reporting(block)).1.result);
    } else if block.header.height == 0 {
      StoringIsStoreAndChoose(rules, s, block, work);
    } else {
      FinishStep(rules, s, Weighing(block));
      if block.header.parentHash in s.work {
        StoringIsStoreAndChoose(rules, s, block, work + s.work[block.header.parentHash]);
      } else {
        FinishReturned(rules, s, Err(StoreFailed));
      }
    }
  }

  lemma StoringIsStoreAndChoose(rules: Rules, s: Chain, block: Block, total: int)
    requires rules.Valid()
    ensures Finish(rules, s, Storing(block, total))
      == (StoreAndChoose(rules, s, block, total).0, Returned(StoreAndChoose(rules, s, block, total).1))
  {
    hide Finish;
    hide SelectBestChainByTotalWork;
    var t := StoreBlock(rules.hash, s, block, total);
    FinishStep(rules, s, Storing(block, total));
    FinishStep(rules, t, Choosing(block, total));
    var next := Advance(rules, t, Choosing(block, total)).1;
    if next.Moving? {
      FinishStep(rules, t, Moving(block, total));
      FinishReturned(rules, t.(tip := rules.HashOf(block)), Ok((total, true)));
    } else {
      FinishReturned(rules, t, next.result);
    }
  }

  // ----- Safety of every interleaving

  ghost predicate CollisionFree(hash: Header -> Hash, pool: set<Header>) {
    forall a, b :: a in pool && b in pool && hash(a) == hash(b) ==> a == b
  }

  /** Stored headers keep their place and their work; entries are only added. */
  ghost predicate Grows(a: Chain, b: Chain) {
    && forall h {:trigger h in a.blocks} {:trigger a.work[h]} :: h in a.blocks && h in a.work ==>
         h in b.blocks && b.blocks[h].header == a.blocks[h].header && h in b.work && b.work[h] == a.work[h]
  }

  ghost predicate Drawn(pool: set<Header>, s: Chain) {
    forall h {:trigger s.blocks[h]} :: h in s.blocks ==> s.blocks[h].header in pool
  }

  /** What a call in flight may rely on, no matter what the others do. */
  ghost predicate CallOk(rules: Rules, pool: set<Header>, s: Chain, call: Call)
    requires rules.Valid()
  {
    match call
    case Returned(_) => true
    case Validating(b, _) => Submitted(rules, pool, b)
    case Probing(b) => Submitted(rules, pool, b) && Accepted(s, b)
    case Reporting(b) => Submitted(rules, pool, b) && Accepted(s, b)
    case Weighing(b) => Submitted(rules, pool, b) && Accepted(s, b) && b.header.height > 0
    case Storing(b, total) => Submitted(rules, pool, b) && Accepted(s, b) && total == ExactWork(s.work, b.header)
    case Choosing(b, total) => Submitted(rules, pool, b) && StoredWith(s, rules.HashOf(b), total)
    case Moving(b, total) => Submitted(rules, pool, b) && StoredWith(s, rules.HashOf(b), total)
  }

  predicate StoredWith(s: Chain, h: Hash, total: int) { h in s.blocks && h in s.work && s.work[h] == total }

  ghost predicate Submitted(rules: Rules, pool: set<Header>, b: Block) {
    b.header in pool && rules.HashOf(b) != ZERO_HASH
  }

  ghost predicate Accepted(s: Chain, b: Block) {
    Attaches(s.blocks, b.header) && b.header.target != ZERO_TARGET
  }

  ghost predicate Safe(rules: Rules, pool: set<Header>, sys: System)
    requires rules.Valid()
  {
    && WellFormed(rules.hash, sys.chain)
    && Drawn(pool, sys.chain)
    && forall t {:trigger sys.calls[t]} :: t in sys.calls ==> CallOk(rules, pool, sys.chain, sys.calls[t])
  }

  /** What a call relies on survives the growth of the store. */
  lemma CallOkIsStable(rules: Rules, pool: set<Header>, a: Chain, b: Chain, call: Call)
    requires rules.Valid() && CallOk(rules, pool, a, call) && Grows(a, b)
    requires WellFormed(rules.hash, a) && WellFormed(rules.hash, b)
    ensures CallOk(rules, pool, b, call)
  {
  }

  /** Storing is safe even when another call has stored the same header meanwhile. */
  lemma StoringIsSafe(rules: Rules, pool: set<Header>, s: Chain, b: Block, total: int)
    requires rules.Valid() && CollisionFree(rules.hash, pool)
    requires WellFormed(rules.hash, s) && Drawn(pool, s) && CallOk(rules, pool, s, Storing(b, total))
    ensures var t := StoreBlock(rules.hash, s, b, total);
            WellFormed(rules.hash, t) && Drawn(pool, t) && StoredWith(t, rules.HashOf(b), total) && Grows(s, t)
  {
    hide WellFormed;
    hide ExactWork;
    var h := rules.HashOf(b);
    if h in s.blocks {
      StoredMeans(rules.hash, s, h);
      assert s.blocks[h].header == b.header;
    }
    StoringKeepsWellFormed(rules.hash, s, b);
  }

  lemma StoredMeans(hash: Header -> Hash, s: Chain, h: Hash)
    requires WellFormed(hash, s) && h in s.blocks
    ensures hash(s.blocks[h].header) == h && h in s.work && s.work[h] == ExactWork(s.work, s.blocks[h].header)
  {
    assert LinkedAt(hash, s.blocks, s.work, h);
  }

  lemma AdvanceIsSafe(rules: Rules, pool: set<Header>, s: Chain, call: Call)
    requires rules.Valid() && CollisionFree(rules.hash, pool)
    requires WellFormed(rules.hash, s) && Drawn(pool, s) && CallOk(rules, pool, s, call)
    ensures var (t, next) := Advance(rules, s, call);
            WellFormed(rules.hash, t) && Drawn(pool, t) && CallOk(rules, pool, t, next) && Grows(s, t)
  {
    hide WellFormed;
    hide Drawn;
    hide ExactWork;
    hide CalcBlockWork;
    hide SelectBestChainByTotalWork;
    hide StoreBlock;
    hide StoredWith;
    hide Grows;
    GrowsFromItself(s);
    match call
    case Validating(b, now) => AcceptedMeans(rules, s, b.header, now);
    case Probing(b) => RootIsExact(s.work, b.header);
    case Weighing(b) => WeighingIsExact(rules.hash, s, b);
    case Storing(b, total) => StoringIsSafe(rules, pool, s, b, total);
    case Moving(b, total) =>
      StoredIsThere(s, rules.HashOf(b), total);
      MovingIsSafe(rules, pool, s, b);
    case _ =>
  }

  lemma GrowsFromItself(s: Chain)
    ensures Grows(s, s)
  {
  }

  lemma StoredIsThere(s: Chain, h: Hash, total: int)
    requires StoredWith(s, h, total)
    ensures h in s.blocks
  {
  }

  lemma WeighingIsExact(hash: Header -> Hash, s: Chain, b: Block)
    requires WellFormed(hash, s) && Attaches(s.blocks, b.header) && b.header.height > 0
    ensures b.header.parentHash in s.work
    ensures ExactWork(s.work, b.header) == CalcBlockWork(b.header.target) + s.work[b.header.parentHash]
  {
  }

  lemma MovingIsSafe(rules: Rules, pool: set<Header>, s: Chain, b: Block)
    requires WellFormed(rules.hash, s) && Drawn(pool, s) && rules.HashOf(b) in s.blocks && rules.HashOf(b) != ZERO_HASH
    ensures var t := s.(tip := rules.HashOf(b)); WellFormed(rules.hash, t) && Drawn(pool, t) && Grows(s, t)
  {
  }

  lemma OperationIsSafe(rules: Rules, pool: set<Header>, a: System, t: nat)
    requires rules.Valid() && CollisionFree(rules.hash, pool)
    requires Safe(rules, pool, a) && t in a.calls
    ensures var (chain, call) := Advance(rules, a.chain, a.calls[t]);
            Safe(rules, pool, System(chain, a.calls[t := call])) && Grows(a.chain, chain)
  {
    var (chain, call) := Advance(rules, a.chain, a.calls[t]);
    AdvanceIsSafe(rules, pool, a.chain, a.calls[t]);
    forall u | u in a.calls && u != t
      ensures CallOk(rules, pool, chain, a.calls[u])
    {
      CallOkIsStable(rules, pool, a.chain, chain, a.calls[u]);
    }
  }

  lemma NextIsSafe(rules: Rules, pool: set<Header>, a: System, b: System)
    requires rules.Valid() && CollisionFree(rules.hash, pool)
    requires forall header :: header in pool ==> rules.hash(header) != ZERO_HASH
    requires Safe(rules, pool, a) && Next(rules, pool, a, b)
    ensures Safe(rules, pool, b) && Grows(a.chain, b.chain)
  {
    if Starts(pool, a, b) {
    } else {
      var t :| t in a.calls && Operates(rules, a, b, t);
      OperationIsSafe(rules, pool, a, t);
    }
  }

  /**
   * Whatever the schedule, every reachable state is parent-closed with exact works and a stored tip, provided
   * distinct submitted headers hash differently and none hashes to zero.
   */
  lemma {:induction false} EveryInterleavingIsSafe(rules: Rules, pool: set<Header>, trace: seq<System>, i: nat)
    requires rules.Valid() && CollisionFree(rules.hash, pool)
    requires forall header :: header in pool ==> rules.hash(header) != ZERO_HASH
    requires i < |trace| && Safe(rules, pool, trace[0])
    requires forall k :: 0 <= k < |trace| - 1 ==> Next(rules, pool, trace[k], trace[k + 1])
    ensures Safe(rules, pool, trace[i])
    ensures trace[i].chain.blocks != map[] ==> trace[i].chain.tip in trace[i].chain.blocks
  {
    if i > 0 {
      EveryInterleavingIsSafe(rules, pool, trace, i - 1);
      NextIsSafe(rules, pool, trace[i - 1], trace[i]);
    }
  }

  // ----- When interleaved calls keep the best tip

  ghost predicate IsTrace(rules: Rules, pool: set<Header>, trace: seq<System>)
    requires rules.Valid()
  {
    && CollisionFree(rules.hash, pool) && (forall header :: header in pool ==> rules.hash(header) != ZERO_HASH)
    && trace != [] && Safe(rules, pool, trace[0])
    && forall k :: 0 <= k < |trace| - 1 ==> Next(rules, pool, trace[k], trace[k + 1])
  }

  ghost predicate Idle(sys: System) { forall t {:trigger sys.calls[t]} :: t in sys.calls ==> sys.calls[t].Returned? }

  /** The block is, or outranks, the other one. */
  predicate Tops(s: Chain, top: Hash, h: Hash) {
    top == h || (top in s.work && h in s.work && Beats(s, top, h))
  }

  lemma TopsIsTransitive(s: Chain, a: Hash, b: Hash, c: Hash)
    requires Tops(s, a, b) && Tops(s, b, c)
    ensures Tops(s, a, c)
  {
  }

  /** Some tip so far was, or outranked, this block. */
  ghost predicate Topped(s: Chain, seen: set<Hash>, h: Hash) { exists top :: top in seen && Tops(s, top, h) }

  /** Some call has stored this block and has yet to choose, or to move the tip to it. */
  ghost predicate InFlight(rules: Rules, calls: map<nat, Call>, h: Hash) {
    exists t :: t in calls && (calls[t].Choosing? || calls[t].Moving?) && rules.HashOf(calls[t].block) == h
  }

  /** Every stored block has been weighed against some tip, or still will be. */
  ghost predicate Weighed(rules: Rules, sys: System, seen: set<Hash>) {
    && (sys.chain.tip == ZERO_HASH || sys.chain.tip in seen)
    && forall h {:trigger h in sys.chain.blocks} :: h in sys.chain.blocks ==>
         Topped(sys.chain, seen, h) || InFlight(rules, sys.calls, h)
  }

  function Seen(seen: set<Hash>, s: Chain): set<Hash> { if s.tip == ZERO_HASH then seen else seen + {s.tip} }

  lemma ToppedGrows(a: Chain, b: Chain, seen: set<Hash>, h: Hash)
    requires a.blocks.Keys == a.work.Keys && Grows(a, b) && Topped(a, seen, h) && h in a.blocks
    ensures Topped(b, Seen(seen, b), h)
  {
    var top :| top in seen && Tops(a, top, h);
    assert Tops(b, top, h);
  }

  /** What one operation of a call does to the block it is about. */
  lemma AdvanceWeighs(rules: Rules, pool: set<Header>, a: Chain, call: Call, seen: set<Hash>, h: Hash)
    requires rules.Valid() && WellFormed(rules.hash, a) && CallOk(rules, pool, a, call)
    requires a.tip == ZERO_HASH || a.tip in seen
    requires WellFormed(rules.hash, Advance(rules, a, call).0) && Grows(a, Advance(rules, a, call).0)
    requires h in Advance(rules, a, call).0.blocks
    requires h in a.blocks ==> (call.Choosing? || call.Moving?) && rules.HashOf(call.block) == h
    ensures var (b, next) := Advance(rules, a, call);
      || Topped(b, Seen(seen, b), h)
      || ((next.Choosing? || next.Moving?) && rules.HashOf(next.block) == h)
  {
    var (b, next) := Advance(rules, a, call);
    match call
    case Choosing(block, total) =>
      assert LinkedAt(rules.hash, a.blocks, a.work, a.tip);
      SelectMaximises(a.tip, a.work[a.tip], h, total);
      OutranksIsTotal(a.tip, a.work[a.tip], h, total);
      assert next.Returned? ==> Tops(b, a.tip, h);
    case Moving(block, total) => assert Tops(b, h, h);
    case _ =>
  }

  lemma OperationWeighs(rules: Rules, pool: set<Header>, a: System, t: nat, seen: set<Hash>)
    requires rules.Valid() && CollisionFree(rules.hash, pool)
    requires Safe(rules, pool, a) && t in a.calls && Weighed(rules, a, seen)
    ensures var (chain, call) := Advance(rules, a.chain, a.calls[t]);
      Weighed(rules, System(chain, a.calls[t := call]), Seen(seen, chain))
  {
    hide Topped;
    hide CallOk;
    hide WellFormed;
    hide Grows;
    var (chain, call) := Advance(rules, a.chain, a.calls[t]);
    var calls := a.calls[t := call];
    AdvanceIsSafe(rules, pool, a.chain, a.calls[t]);
    forall h | h in chain.blocks
      ensures Topped(chain, Seen(seen, chain), h) || InFlight(rules, calls, h)
    {
      if h in a.chain.blocks && Topped(a.chain, seen, h) {
        WorkKeys(rules.hash, a.chain);
        ToppedGrows(a.chain, chain, seen, h);
      } else if u: nat :| h in a.chain.blocks && u != t && u in a.calls && (a.calls[u].Choosing? || a.calls[u].Moving?)
                          && rules.HashOf(a.calls[u].block) == h {
        assert calls[u] == a.calls[u];
      } else {
        AdvanceWeighs(rules, pool, a.chain, a.calls[t], seen, h);
        assert t in calls && calls[t] == call;
      }
    }
  }

  lemma WorkKeys(hash: Header -> Hash, s: Chain)
    requires WellFormed(hash, s)
    ensures s.blocks.Keys == s.work.Keys
    ensures s.blocks != map[] ==> s.tip != ZERO_HASH && s.tip in s.blocks
  {
    if s.tip in s.blocks {
      assert LinkedAt(hash, s.blocks, s.work, s.tip);
    }
  }

  lemma StartWeighs(rules: Rules, pool: set<Header>, a: System, b: System, seen: set<Hash>)
    requires Starts(pool, a, b) && Weighed(rules, a, seen)
    ensures Weighed(rules, b, Seen(seen, b.chain))
  {
    forall h | h in b.chain.blocks
      ensures Topped(b.chain, Seen(seen, b.chain), h) || InFlight(rules, b.calls, h)
    {
      if Topped(a.chain, seen, h) {
        var top :| top in seen && Tops(a.chain, top, h);
        assert top in Seen(seen, b.chain);
      } else {
        var t :| t in a.calls && (a.calls[t].Choosing? || a.calls[t].Moving?) && rules.HashOf(a.calls[t].block) == h;
        assert b.calls[t] == a.calls[t];
      }
    }
  }

  /** The nonzero tips of the first i + 1 states. */
  function TipsUpTo(trace: seq<System>, i: nat): set<Hash>
    requires i < |trace|
  {
    Seen(if i == 0 then {} else TipsUpTo(trace, i - 1), trace[i].chain)
  }

  lemma {:induction false} TipsAreSeen(trace: seq<System>, i: nat)
    requires i < |trace|
    ensures forall h :: h in TipsUpTo(trace, i) <==>
      exists k :: 0 <= k <= i && trace[k].chain.tip != ZERO_HASH && trace[k].chain.tip == h
  {
    if i > 0 {
      TipsAreSeen(trace, i - 1);
    }
  }

  lemma NextWeighs(rules: Rules, pool: set<Header>, a: System, b: System, seen: set<Hash>)
    requires rules.Valid() && CollisionFree(rules.hash, pool)
    requires Safe(rules, pool, a) && Weighed(rules, a, seen) && Next(rules, pool, a, b)
    ensures Weighed(rules, b, Seen(seen, b.chain))
  {
    hide Safe;
    hide Weighed;
    if Starts(pool, a, b) {
      StartWeighs(rules, pool, a, b, seen);
    } else {
      var t :| t in a.calls && Operates(rules, a, b, t);
      OperationWeighs(rules, pool, a, t, seen);
    }
  }

  lemma BestIsWeighed(rules: Rules, sys: System)
    requires rules.Valid() && WellFormed(rules.hash, sys.chain) && TipBest(sys.chain)
    ensures Weighed(rules, sys, Seen({}, sys.chain))
  {
    var s := sys.chain;
    WorkKeys(rules.hash, s);
    forall h | h in s.blocks
      ensures Topped(s, Seen({}, s), h)
    {
      assert h != s.tip ==> Beats(s, s.tip, h);
      assert s.tip in Seen({}, s) && Tops(s, s.tip, h);
    }
  }

  lemma {:induction false} TraceWeighs(rules: Rules, pool: set<Header>, trace: seq<System>, i: nat)
    requires rules.Valid() && IsTrace(rules, pool, trace) && i < |trace|
    requires WellFormed(rules.hash, trace[0].chain) && TipBest(trace[0].chain)
    ensures Safe(rules, pool, trace[i]) && Weighed(rules, trace[i], TipsUpTo(trace, i))
  {
    hide Safe;
    hide Weighed;
    hide Next;
    hide TipBest;
    EveryInterleavingIsSafe(rules, pool, trace, i);
    if i == 0 {
      BestIsWeighed(rules, trace[0]);
    } else {
      TraceWeighs(rules, pool, trace, i - 1);
      assert Next(rules, pool, trace[i - 1], trace[i - 1 + 1]);
      NextWeighs(rules, pool, trace[i - 1], trace[i], TipsUpTo(trace, i - 1));
    }
  }

  /** The tip is, or outranks, every tip there has been. */
  ghost predicate TopsAllTips(trace: seq<System>, end: Chain) {
    forall k :: 0 <= k < |trace| && trace[k].chain.tip != ZERO_HASH ==> Tops(end, end.tip, trace[k].chain.tip)
  }

  /**
   * Exactly when interleaved calls keep the best tip: once all calls have returned, the tip is the best stored block
   * if and only if it is, or outranks, every tip the store has had on the way.  A tip can only be lost by moving it
   * back.
   */
  lemma TipIsBestUnlessMovedBack(rules: Rules, pool: set<Header>, trace: seq<System>)
    requires rules.Valid() && IsTrace(rules, pool, trace) && Idle(trace[|trace| - 1])
    requires WellFormed(rules.hash, trace[0].chain) && TipBest(trace[0].chain)
    ensures var end := trace[|trace| - 1].chain;
      WellFormed(rules.hash, end) && (TipBest(end) <==> TopsAllTips(trace, end))
  {
    hide Next;
    hide CallOk;
    hide CollisionFree;
    hide WellFormed;
    hide TipBest;
    hide Weighed;
    hide TipsUpTo;
    var n := |trace| - 1;
    var end := trace[n].chain;
    TraceWeighs(rules, pool, trace, n);
    TipsAreSeen(trace, n);
    WorkKeys(rules.hash, end);
    if TopsAllTips(trace, end) {
      TopsEverything(rules, trace[n], TipsUpTo(trace, n));
    }
    if TipBest(end) {
      forall k | 0 <= k < |trace| && trace[k].chain.tip != ZERO_HASH
        ensures Tops(end, end.tip, trace[k].chain.tip)
      {
        TipStaysStored(rules, pool, trace, k, n);
        BestTops(end, trace[k].chain.tip);
      }
    }
  }

  lemma BestTops(s: Chain, h: Hash)
    requires s.work.Keys == s.blocks.Keys && TipBest(s) && h in s.blocks
    ensures Tops(s, s.tip, h)
  {
    assert h != s.tip ==> Beats(s, s.tip, h);
  }

  /** With no call in flight, a tip that tops all earlier ones is the best block. */
  lemma TopsEverything(rules: Rules, sys: System, seen: set<Hash>)
    requires rules.Valid() && WellFormed(rules.hash, sys.chain) && Weighed(rules, sys, seen) && Idle(sys)
    requires sys.chain.work.Keys == sys.chain.blocks.Keys
    requires forall top :: top in seen ==> Tops(sys.chain, sys.chain.tip, top)
    ensures TipBest(sys.chain)
  {
    var end := sys.chain;
    WorkKeys(rules.hash, end);
    forall h | h in end.blocks && h != end.tip
      ensures Beats(end, end.tip, h)
    {
      assert Topped(end, seen, h);
      var top :| top in seen && Tops(end, top, h);
      TopsIsTransitive(end, end.tip, top, h);
    }
  }

  lemma {:induction false} TipStaysStored(rules: Rules, pool: set<Header>, trace: seq<System>, k: nat, i: nat)
    requires rules.Valid() && IsTrace(rules, pool, trace) && k <= i < |trace| && trace[k].chain.tip != ZERO_HASH
    ensures trace[k].chain.tip in trace[i].chain.blocks
    decreases i - k
  {
    hide IsTrace;
    hide Safe;
    hide Next;
    hide Grows;
    StateIsSound(rules, pool, trace, i);
    if k < i {
      TipStaysStored(rules, pool, trace, k, i - 1);
      TraceStep(rules, pool, trace, i);
      StateIsSound(rules, pool, trace, i - 1);
      StoredStays(trace[i - 1].chain, trace[i].chain, trace[k].chain.tip);
    }
  }

  lemma StoredStays(a: Chain, b: Chain, h: Hash)
    requires Grows(a, b) && a.blocks.Keys == a.work.Keys && h in a.blocks
    ensures h in b.blocks
  {
  }

  lemma TopsStays(a: Chain, b: Chain, top: Hash, h: Hash)
    requires Grows(a, b) && a.blocks.Keys == a.work.Keys && Tops(a, top, h)
    ensures Tops(b, top, h)
  {
  }

  lemma StateIsSound(rules: Rules, pool: set<Header>, trace: seq<System>, i: nat)
    requires rules.Valid() && IsTrace(rules, pool, trace) && i < |trace|
    ensures var s := trace[i].chain;
      && Safe(rules, pool, trace[i]) && WellFormed(rules.hash, s) && s.blocks.Keys == s.work.Keys
      && (s.tip != ZERO_HASH ==> s.tip in s.blocks)
  {
    EveryInterleavingIsSafe(rules, pool, trace, i);
  }

  lemma TraceStep(rules: Rules, pool: set<Header>, trace: seq<System>, i: nat)
    requires rules.Valid() && IsTrace(rules, pool, trace) && 0 < i < |trace|
    ensures CollisionFree(rules.hash, pool)
    ensures Next(rules, pool, trace[i - 1], trace[i]) && Grows(trace[i - 1].chain, trace[i].chain)
  {
    hide Safe;
    hide Grows;
    assert Next(rules, pool, trace[i - 1], trace[i - 1 + 1]);
    EveryInterleavingIsSafe(rules, pool, trace, i - 1);
    NextIsSafe(rules, pool, trace[i - 1], trace[i]);
  }

  // ----- One mover at a time is enough

  /** At most one call stands between choosing and moving the tip. */
  ghost predicate OneMover(sys: System) {
    forall t, u :: t in sys.calls && u in sys.calls && sys.calls[t].Moving? && sys.calls[u].Moving? ==> t == u
  }

  /** A call about to move the tip would not move it back. */
  ghost predicate MovesForward(rules: Rules, sys: System) {
    forall t {:trigger sys.calls[t]} :: t in sys.calls && sys.calls[t].Moving? ==>
      Tops(sys.chain, rules.HashOf(sys.calls[t].block), sys.chain.tip)
  }

  lemma AdvanceMovesForward(rules: Rules, pool: set<Header>, s: Chain, call: Call)
    requires rules.Valid() && WellFormed(rules.hash, s) && CallOk(rules, pool, s, call)
    requires call.Moving? ==> Tops(s, rules.HashOf(call.block), s.tip)
    requires Grows(s, Advance(rules, s, call).0)
    ensures var (t, next) := Advance(rules, s, call);
      && (s.tip == ZERO_HASH || Tops(t, t.tip, s.tip))
      && (next.Moving? ==> t == s && Tops(t, rules.HashOf(next.block), t.tip))
      && (t.tip == s.tip || call.Moving? || s.blocks == map[])
  {
    WorkKeys(rules.hash, s);
    match call
    case Choosing(b, total) =>
      assert LinkedAt(rules.hash, s.blocks, s.work, s.tip);
      SelectMaximises(s.tip, s.work[s.tip], rules.HashOf(b), total);
    case _ =>
  }

  lemma OperationMovesForward(rules: Rules, pool: set<Header>, a: System, t: nat)
    requires rules.Valid() && CollisionFree(rules.hash, pool)
    requires Safe(rules, pool, a) && t in a.calls && OneMover(a) && MovesForward(rules, a)
    ensures var (chain, call) := Advance(rules, a.chain, a.calls[t]);
      && MovesForward(rules, System(chain, a.calls[t := call]))
      && (a.chain.tip == ZERO_HASH || Tops(chain, chain.tip, a.chain.tip))
  {
    hide WellFormed;
    var (chain, call) := Advance(rules, a.chain, a.calls[t]);
    var b := System(chain, a.calls[t := call]);
    AdvanceIsSafe(rules, pool, a.chain, a.calls[t]);
    AdvanceMovesForward(rules, pool, a.chain, a.calls[t]);
    WorkKeys(rules.hash, a.chain);
    forall u | u in b.calls && b.calls[u].Moving?
      ensures Tops(chain, rules.HashOf(b.calls[u].block), chain.tip)
    {
      if u != t {
        assert a.calls[u].Moving? && CallOk(rules, pool, a.chain, a.calls[u]);
        assert Tops(a.chain, rules.HashOf(a.calls[u].block), a.chain.tip);
        assert chain.tip == a.chain.tip;
      }
    }
  }

  lemma {:induction false} TipOnlyRises(rules: Rules, pool: set<Header>, trace: seq<System>, k: nat, i: nat)
    requires rules.Valid() && IsTrace(rules, pool, trace) && k <= i < |trace|
    requires MovesForward(rules, trace[0]) && forall j :: 0 <= j < |trace| ==> OneMover(trace[j])
    ensures MovesForward(rules, trace[i])
    ensures trace[k].chain.tip == ZERO_HASH || Tops(trace[i].chain, trace[i].chain.tip, trace[k].chain.tip)
    decreases i
  {
    hide IsTrace;
    hide Safe;
    hide Next;
    hide Grows;
    hide WellFormed;
    hide MovesForward;
    hide OneMover;
    if i > 0 {
      var (a, b) := (trace[i - 1], trace[i]);
      TipOnlyRises(rules, pool, trace, if k < i then k else i - 1, i - 1);
      StateIsSound(rules, pool, trace, i - 1);
      TraceStep(rules, pool, trace, i);
      NextMovesForward(rules, pool, a, b);
      if k < i && trace[k].chain.tip != ZERO_HASH {
        TipStaysStored(rules, pool, trace, k, i - 1);
        TopsStays(a.chain, b.chain, a.chain.tip, trace[k].chain.tip);
        if a.chain.tip != ZERO_HASH {
          TopsIsTransitive(b.chain, b.chain.tip, a.chain.tip, trace[k].chain.tip);
        } else {
          EmptyHasNoTip(rules.hash, a.chain);
        }
      }
    }
  }

  lemma EmptyHasNoTip(hash: Header -> Hash, s: Chain)
    requires WellFormed(hash, s) && s.tip == ZERO_HASH
    ensures s.blocks == map[]
  {
  }

  lemma NextMovesForward(rules: Rules, pool: set<Header>, a: System, b: System)
    requires rules.Valid() && CollisionFree(rules.hash, pool)
    requires Safe(rules, pool, a) && OneMover(a) && MovesForward(rules, a) && Next(rules, pool, a, b)
    ensures MovesForward(rules, b) && (a.chain.tip == ZERO_HASH || Tops(b.chain, b.chain.tip, a.chain.tip))
  {
    if Starts(pool, a, b) {
    } else {
      var t :| t in a.calls && Operates(rules, a, b, t);
      OperationMovesForward(rules, pool, a, t);
    }
  }

  /**
   * What a caller can enforce: from an idle store, if no other call moves the tip between a call's choosing and its
   * own moving, every interleaving ends with the best tip, however everything else overlaps.
   */
  lemma OneMoverKeepsTheBestTip(rules: Rules, pool: set<Header>, trace: seq<System>)
    requires rules.Valid() && IsTrace(rules, pool, trace) && Idle(trace[0]) && Idle(trace[|trace| - 1])
    requires WellFormed(rules.hash, trace[0].chain) && TipBest(trace[0].chain)
    requires forall k :: 0 <= k < |trace| ==> OneMover(trace[k])
    ensures WellFormed(rules.hash, trace[|trace| - 1].chain) && TipBest(trace[|trace| - 1].chain)
  {
    hide IsTrace;
    forall k | 0 <= k < |trace| && trace[k].chain.tip != ZERO_HASH
      ensures Tops(trace[|trace| - 1].chain, trace[|trace| - 1].chain.tip, trace[k].chain.tip)
    {
      TipOnlyRises(rules, pool, trace, k, |trace| - 1);
    }
    TipIsBestUnlessMovedBack(rules, pool, trace);
  }

  // ----- Interleaved calls can lose the best tip

  /** Runs the goroutines in the given order, one operation each. */
  function Execute(rules: Rules, sys: System, order: seq<nat>): System
    requires rules.Valid()
    decreases |order|
  {
    if order == [] then sys
    else if order[0] !in sys.calls then Execute(rules, sys, order[1..])
    else
      var (chain, call) := Advance(rules, sys.chain, sys.calls[order[0]]);
      Execute(rules, System(chain, sys.calls[order[0] := call]), order[1..])
  }

  lemma {:induction false} ExecuteSplits(rules: Rules, sys: System, first: seq<nat>, second: seq<nat>)
    requires rules.Valid()
    ensures Execute(rules, sys, first + second) == Execute(rules, Execute(rules, sys, first), second)
    decreases |first|
  {
    if first == [] {
      assert first + second == second;
    } else {
      assert (first + second)[1..] == first[1..] + second;
      var next := if first[0] !in sys.calls then sys
                  else var (chain, call) := Advance(rules, sys.chain, sys.calls[first[0]]);
                       System(chain, sys.calls[first[0] := call]);
      ExecuteSplits(rules, next, first[1..], second);
    }
  }

  /** A new block that outranks the tip: accepted and not yet stored. */
  ghost predicate Challenges(rules: Rules, s: Chain, block: Block, now: int64)
    requires rules.Valid()
  {
    && WellFormed(rules.hash, s) && s.tip != ZERO_HASH
    && ValidateHeader(rules, s, block.header, now).None?
    && rules.HashOf(block) != ZERO_HASH && rules.HashOf(block) !in s.blocks
    && Outranks(rules.HashOf(block), ExactWork(s.work, block.header), s.tip, s.work[s.tip])
  }

  /** The operations of a call on an accepted new block up to storing it, each taken alone. */
  lemma NewBlockAdvances(rules: Rules, s: Chain, block: Block, now: int64)
    requires rules.Valid() && WellFormed(rules.hash, s) && rules.HashOf(block) != ZERO_HASH
    requires ValidateHeader(rules, s, block.header, now).None? && rules.HashOf(block) !in s.blocks
    ensures var total := ExactWork(s.work, block.header);
            && Storable(rules.hash, s, block)
            && Advance(rules, s, Validating(block, now)) == (s, Probing(block))
            && Advance(rules, s, Probing(block)) ==
              (s, if block.header.height > 0 then Weighing(block) else Storing(block, total))
            && (block.header.height > 0 ==> Advance(rules, s, Weighing(block)) == (s, Storing(block, total)))
            && Advance(rules, s, Storing(block, total))
               == (StoreBlock(rules.hash, s, block, total), Choosing(block, total))
  {
    hide CalcBlockWork;
    hide Indexed;
    hide Anchored;
    AcceptedMeans(rules, s, block.header, now);
  }

  /** A stored challenger is chosen. */
  lemma ChallengerIsChosen(rules: Rules, s: Chain, block: Block, now: int64)
    requires rules.Valid() && Challenges(rules, s, block, now)
    ensures var total := ExactWork(s.work, block.header);
            var stored := StoreBlock(rules.hash, s, block, total);
            Advance(rules, stored, Choosing(block, total)) == (stored, Moving(block, total))
  {
    hide Outranks;
    hide CalcBlockWork;
    assert LinkedAt(rules.hash, s.blocks, s.work, s.tip);
    SelectMaximises(s.tip, s.work[s.tip], rules.HashOf(block), ExactWork(s.work, block.header));
  }

  /** Appends one operation of goroutine `t`, with its outcome known, to a schedule. */
  lemma Append(rules: Rules, start: System, order: seq<nat>, sys: System, t: nat, chain: Chain, call: Call)
    returns (longer: seq<nat>)
    requires rules.Valid() && Execute(rules, start, order) == sys
    requires t in sys.calls && Advance(rules, sys.chain, sys.calls[t]) == (chain, call)
    ensures Execute(rules, start, longer) == System(chain, sys.calls[t := call])
  {
    longer := order + [t];
    ExecuteSplits(rules, start, order, [t]);
    assert [t][1..] == [];
  }

  /** Some more operations take a challenger's call to the point of moving the tip. */
  lemma UpToMoving(rules: Rules, start: System, order: seq<nat>, s: Chain, calls: map<nat, Call>, t: nat, block: Block,
                   now: int64)
    returns (longer: seq<nat>)
    requires rules.Valid() && Challenges(rules, s, block, now)
    requires Execute(rules, start, order) == System(s, calls)
    requires t in calls && calls[t] == Validating(block, now)
    ensures var total := ExactWork(s.work, block.header);
      Execute(rules, start, longer) == System(StoreBlock(rules.hash, s, block, total), calls[t := Moving(block, total)])
  {
    hide Advance;
    hide Execute;
    hide WellFormed;
    hide ValidateHeader;
    hide ExactWork;
    var total := ExactWork(s.work, block.header);
    var stored := StoreBlock(rules.hash, s, block, total);
    NewBlockAdvances(rules, s, block, now);
    ChallengerIsChosen(rules, s, block, now);
    longer := AppendTo(rules, start, order, s, calls, calls, t, s, Probing(block));
    if block.header.height > 0 {
      longer := AppendTo(rules, start, longer, s, calls, calls[t := Probing(block)], t, s, Weighing(block));
      longer := AppendTo(rules, start, longer, s, calls, calls[t := Weighing(block)], t, s, Storing(block, total));
    } else {
      longer := AppendTo(rules, start, longer, s, calls, calls[t := Probing(block)], t, s, Storing(block, total));
    }
    var (choosing, moving) := (Choosing(block, total), Moving(block, total));
    longer := AppendTo(rules, start, longer, s, calls, calls[t := Storing(block, total)], t, stored, choosing);
    longer := AppendTo(rules, start, longer, stored, calls, calls[t := choosing], t, stored, moving);
  }

  /** Append, with the calls in flight written as an update of those at the start. */
  lemma AppendTo(rules: Rules, start: System, order: seq<nat>, s: Chain, first: map<nat, Call>, calls: map<nat, Call>,
                 t: nat, chain: Chain, call: Call)
    returns (longer: seq<nat>)
    requires rules.Valid() && Execute(rules, start, order) == System(s, calls)
    requires t in calls && Advance(rules, s, calls[t]) == (chain, call) && calls == first[t := calls[t]]
    ensures Execute(rules, start, longer) == System(chain, first[t := call])
  {
    longer := Append(rules, start, order, System(s, calls), t, chain, call);
    assert calls[t := call] == first[t := call];
  }

  /**
   * A schedule of two calls after which the tip is not the best stored block: the lighter block's call reads
   * the old tip, the heavier block is stored and becomes the tip, and then the first call moves the tip back.
   */
  lemma TwoCallsCanLoseTheBestTip(rules: Rules, s: Chain, light: Block, heavy: Block, now: int64)
    returns (order: seq<nat>)
    requires rules.Valid() && Challenges(rules, s, light, now) && Challenges(rules, s, heavy, now)
    requires Outranks(rules.HashOf(heavy), ExactWork(s.work, heavy.header),
                      rules.HashOf(light), ExactWork(s.work, light.header))
    requires rules.HashOf(light) != rules.HashOf(heavy)
    ensures var start := System(s, map[0 := Validating(light, now), 1 := Validating(heavy, now)]);
            var end := Execute(rules, start, order).chain;
            && end.tip == rules.HashOf(light)
            && rules.HashOf(heavy) in end.blocks
            && WellFormed(rules.hash, end) && Beats(end, rules.HashOf(heavy), end.tip)
  {
    var l, h := rules.HashOf(light), rules.HashOf(heavy);
    var wl, wh := ExactWork(s.work, light.header), ExactWork(s.work, heavy.header);
    var calls: map<nat, Call> := map[0 := Validating(light, now), 1 := Validating(heavy, now)];
    var start := System(s, calls);
    var s1 := StoreBlock(rules.hash, s, light, wl);
    var s2 := StoreBlock(rules.hash, s1, heavy, wh);
    order := UpToMoving(rules, start, [], s, calls, 0, light, now);
    StillChallenges(rules, s, light, heavy, now);
    var calls1 := calls[0 := Moving(light, wl)];
    order := UpToMoving(rules, start, order, s1, calls1, 1, heavy, now);
    var calls2 := calls1[1 := Moving(heavy, wh)];
    MovingAdvances(rules, s2, heavy, wh);
    MovingAdvances(rules, s2.(tip := h), light, wl);
    order := Append(rules, start, order, System(s2, calls2), 1, s2.(tip := h), Returned(Ok((wh, true))));
    var calls3 := calls2[1 := Returned(Ok((wh, true)))];
    order := Append(rules, start, order, System(s2.(tip := h), calls3), 0, s2.(tip := l), Returned(Ok((wl, true))));
  }

  lemma MovingAdvances(rules: Rules, s: Chain, b: Block, total: int)
    requires rules.Valid() && rules.HashOf(b) in s.blocks
    ensures Advance(rules, s, Moving(b, total)) == (s.(tip := rules.HashOf(b)), Returned(Ok((total, true))))
  {
  }

  /** Storing the lighter rival leaves the heavier block a challenger with the same work. */
  lemma StillChallenges(rules: Rules, s: Chain, light: Block, heavy: Block, now: int64)
    requires rules.Valid() && Challenges(rules, s, light, now) && Challenges(rules, s, heavy, now)
    requires rules.HashOf(light) != rules.HashOf(heavy)
    requires Outranks(rules.HashOf(heavy), ExactWork(s.work, heavy.header),
                      rules.HashOf(light), ExactWork(s.work, light.header))
    ensures var s1 := StoreBlock(rules.hash, s, light, ExactWork(s.work, light.header));
            && Challenges(rules, s1, heavy, now)
            && ExactWork(s1.work, heavy.header) == ExactWork(s.work, heavy.header)
            && var s2 := StoreBlock(rules.hash, s1, heavy, ExactWork(s.work, heavy.header));
               var end := s2.(tip := rules.HashOf(light));
               WellFormed(rules.hash, end) && Beats(end, rules.HashOf(heavy), rules.HashOf(light))
  {
    var s1 := StoreBlock(rules.hash, s, light, ExactWork(s.work, light.header));
    AcceptedMeans(rules, s, light.header, now);
    AcceptedMeans(rules, s, heavy.header, now);
    AcceptedMeans(rules, s1, heavy.header, now);
    StoringKeepsWellFormed(rules.hash, s, light);
    StoringKeepsWellFormed(rules.hash, s1, heavy);
  }
}
