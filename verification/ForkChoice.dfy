/** What every serialised run keeps: an exact tree of blocks and an optimal tip. */
module ForkChoice {
  import opened Bytes
  import opened Types
  import opened Work
  import opened ChainState
  import opened Consensus

  // ----- Invariants

  /** The exact total work of a header whose parent, if any, has a recorded work. */
  function ExactWork(work: map<Hash, int>, h: Header): int {
    CalcBlockWork(h.target) + if h.height > 0 && h.parentHash in work then work[h.parentHash] else 0
  }

  /** A stored entry sits under its own nonzero hash, attaches to the tree and carries its exact work. */
  predicate LinkedAt(hash: Header -> Hash, blocks: map<Hash, Block>, work: map<Hash, int>, h: Hash)
    requires h in blocks
  {
    var header := blocks[h].header;
    && h != ZERO_HASH
    && hash(header) == h
    && Attaches(blocks, header)
    && (header.height > 0 ==> header.target != ZERO_TARGET)
    && h in work && work[h] == ExactWork(work, header)
  }

  ghost predicate Tree(hash: Header -> Hash, blocks: map<Hash, Block>, work: map<Hash, int>) {
    && work.Keys == blocks.Keys
    && forall h {:trigger LinkedAt(hash, blocks, work, h)} :: h in blocks ==> LinkedAt(hash, blocks, work, h)
  }

  predicate IndexedAt(blocks: map<Hash, Block>, heights: map<uint64, Hash>, height: uint64)
    requires height in heights
  {
    heights[height] in blocks && blocks[heights[height]].header.height == height
  }

  ghost predicate Indexed(blocks: map<Hash, Block>, heights: map<uint64, Hash>) {
    && (forall h {:trigger blocks[h]} :: h in blocks ==> blocks[h].header.height in heights)
    && (forall k {:trigger IndexedAt(blocks, heights, k)} :: k in heights ==> IndexedAt(blocks, heights, k))
  }

  /** The tip and the genesis are stored, and are "none" only when there is nothing they could name. */
  ghost predicate Anchored(s: Chain) {
    && (if s.tip == ZERO_HASH then s.blocks == map[] else s.tip in s.blocks)
    && (if s.genesis == ZERO_HASH
        then forall h {:trigger s.blocks[h]} :: h in s.blocks ==> s.blocks[h].header.height > 0
        else s.genesis in s.blocks && s.blocks[s.genesis].header.height == 0)
  }

  /** Parent-closed with exact work, faithful height index, stored tip and genesis. */
  ghost predicate WellFormed(hash: Header -> Hash, s: Chain) {
    && Tree(hash, s.blocks, s.work)
    && Indexed(s.blocks, s.heights)
    && Anchored(s)
  }

  /** `a` beats `b` in fork choice. */
  predicate Beats(s: Chain, a: Hash, b: Hash)
    requires a in s.work && b in s.work
  {
    Outranks(a, s.work[a], b, s.work[b])
  }

  /** The tip beats every stored block outside `lost`; `lost` is empty unless a crash lost a tip update. */
  ghost predicate TipBestExcept(s: Chain, lost: set<Hash>)
    requires s.work.Keys == s.blocks.Keys
  {
    s.blocks != map[] ==>
      s.tip in s.blocks && forall h :: h in s.blocks && h != s.tip && h !in lost ==> Beats(s, s.tip, h)
  }

  ghost predicate TipBest(s: Chain)
    requires s.work.Keys == s.blocks.Keys
  {
    TipBestExcept(s, {})
  }

  // ----- One step

  /** What InsertBlock and InitGenesis know about a block when they store it. */
  ghost predicate Storable(hash: Header -> Hash, s: Chain, block: Block) {
    var h := hash(block.header);
    && h != ZERO_HASH
    && Attaches(s.blocks, block.header)
    && (block.header.height > 0 ==> block.header.target != ZERO_TARGET)
    && (h in s.blocks ==> s.blocks[h].header == block.header)
  }

  /** Storing a block that attaches, with its exact work, keeps the tree exact. */
  lemma StoringKeepsWellFormed(hash: Header -> Hash, s: Chain, block: Block)
    requires WellFormed(hash, s) && Storable(hash, s, block)
    ensures WellFormed(hash, StoreBlock(hash, s, block, ExactWork(s.work, block.header)))
  {
    hide Tree;
    hide Indexed;
    hide LinkedAt;
    StoringKeepsTree(hash, s.blocks, s.work, block);
    StoringKeepsIndex(hash, s.blocks, s.heights, block);
  }

  lemma StoringKeepsIndex(hash: Header -> Hash, blocks: map<Hash, Block>, heights: map<uint64, Hash>, block: Block)
    requires Indexed(blocks, heights)
    requires hash(block.header) in blocks ==> blocks[hash(block.header)].header == block.header
    ensures Indexed(blocks[hash(block.header) := block], heights[block.header.height := hash(block.header)])
  {
    var h := hash(block.header);
    var (blocks', heights') := (blocks[h := block], heights[block.header.height := h]);
    forall k | k in heights'
      ensures IndexedAt(blocks', heights', k)
    {
      if k in heights {
        assert IndexedAt(blocks, heights, k);
      }
    }
  }

  lemma StoringKeepsTree(hash: Header -> Hash, blocks: map<Hash, Block>, work: map<Hash, int>, block: Block)
    requires Tree(hash, blocks, work)
    requires hash(block.header) != ZERO_HASH && Attaches(blocks, block.header)
    requires block.header.height > 0 ==> block.header.target != ZERO_TARGET
    requires hash(block.header) in blocks ==> blocks[hash(block.header)].header == block.header
    ensures Tree(hash, blocks[hash(block.header) := block], work[hash(block.header) := ExactWork(work, block.header)])
  {
    var h := hash(block.header);
    var blocks', work' := blocks[h := block], work[h := ExactWork(work, block.header)];
    if h in blocks {
      assert LinkedAt(hash, blocks, work, h);
    }
    forall k | k in blocks'
      ensures LinkedAt(hash, blocks', work', k)
    {
      if k in blocks {
        assert LinkedAt(hash, blocks, work, k);
      }
    }
  }

  /** Choosing after a store keeps the tip optimal, and moves it exactly to a block that beats all others. */
  lemma ChoosingIsOptimal(rules: Rules, s: Chain, block: Block, lost: set<Hash>)
    requires WellFormed(rules.hash, s) && TipBestExcept(s, lost)
    requires Storable(rules.hash, s, block) && rules.HashOf(block) !in s.blocks
    ensures var (t, r) := StoreAndChoose(rules, s, block, ExactWork(s.work, block.header));
            var h := rules.HashOf(block);
            && WellFormed(rules.hash, t) && TipBestExcept(t, lost)
            && t.blocks == s.blocks[h := block] && t.work == s.work[h := ExactWork(s.work, block.header)]
            && r.Ok? && r.value.0 == t.work[h]
            && (r.value.1 <==> t.tip == h)
            && (t.tip == h || t.tip == s.tip)
  {
    hide ExactWork;
    hide Indexed;
    var hash := rules.hash;
    var h := rules.HashOf(block);
    var total := ExactWork(s.work, block.header);
    var stored := StoreBlock(hash, s, block, total);
    StoringKeepsWellFormed(hash, s, block);
    assert LinkedAt(hash, stored.blocks, stored.work, stored.tip);
    SelectMaximises(stored.tip, stored.work[stored.tip], h, total);
    var t := StoreAndChoose(rules, s, block, total).0;
    assert t.blocks == stored.blocks && t.work == stored.work;
    forall k | k in t.blocks && k != t.tip && k !in lost
      ensures Beats(t, t.tip, k)
    {
      if s.blocks != map[] {
        OutranksIsTotal(h, total, s.tip, s.work[s.tip]);
        if k == h {
          assert t.tip == s.tip;
        } else if k != s.tip {
          assert Beats(s, s.tip, k);
        }
      }
    }
  }

  /** On a well-formed store InsertBlock never fails for want of a work entry; it has just three outcomes. */
  lemma InsertOutcomes(rules: Rules, s: Chain, block: Block, now: int64)
    requires rules.Valid() && WellFormed(rules.hash, s)
    ensures var h := rules.HashOf(block);
            var rejection := ValidateHeader(rules, s, block.header, now);
            Insert(rules, s, block, now) ==
              if rejection.Some? then (s, Err(rejection.value))
              else if h in s.blocks then (s, Ok((s.work[h], false)))
              else StoreAndChoose(rules, s, block, ExactWork(s.work, block.header))
    ensures (ValidateHeader(rules, s, block.header, now).None? && rules.HashOf(block) != ZERO_HASH
             && rules.HashOf(block) !in s.blocks) ==> Storable(rules.hash, s, block)
  {
    hide ValidateHeader;
    hide StoreAndChoose;
    hide CalcBlockWork;
    hide LinkedAt;
    hide Indexed;
    hide Anchored;
    AcceptedMeans(rules, s, block.header, now);
  }

  /** InsertBlock keeps the tree exact and the tip optimal, and tells exactly when the tip moved. */
  lemma InsertKeepsInvariant(rules: Rules, s: Chain, block: Block, now: int64, lost: set<Hash>)
    requires rules.Valid() && WellFormed(rules.hash, s) && TipBestExcept(s, lost)
    requires rules.HashOf(block) != ZERO_HASH
    ensures var (t, r) := Insert(rules, s, block, now);
            var h := rules.HashOf(block);
            var accepted := ValidateHeader(rules, s, block.header, now).None?;
            && WellFormed(rules.hash, t) && TipBestExcept(t, lost)
            && (r.Ok? <==> accepted)
            && (accepted && h !in s.blocks ==> t.blocks == s.blocks[h := block])
            && (!accepted || h in s.blocks ==> t == s)
            && (r.Ok? ==> h in t.work && r.value.0 == t.work[h])
            && (r.Ok? ==> (r.value.1 <==> h !in s.blocks && t.tip == h))
  {
    var h := rules.HashOf(block);
    InsertOutcomes(rules, s, block, now);
    if ValidateHeader(rules, s, block.header, now).None? && h !in s.blocks {
      ChoosingIsOptimal(rules, s, block, lost);
    }
  }

  /** The result flag: true exactly for a newly stored block that beats every other stored block. */
  lemma BecameTipMeansNewAndBest(rules: Rules, s: Chain, block: Block, now: int64)
    requires rules.Valid() && WellFormed(rules.hash, s) && TipBest(s)
    requires rules.HashOf(block) != ZERO_HASH
    ensures var (t, r) := Insert(rules, s, block, now);
            var h := rules.HashOf(block);
            t.work.Keys == t.blocks.Keys &&
            (r.Ok? ==> (r.value.1 <==>
              h !in s.blocks && h in t.blocks && forall k :: k in t.blocks && k != h ==> Beats(t, h, k)))
  {
    InsertKeepsInvariant(rules, s, block, now, {});
    var (t, r) := Insert(rules, s, block, now);
    var h := rules.HashOf(block);
    if r.Ok? && h !in s.blocks && t.tip != h {
      OutranksIsTotal(t.tip, t.work[t.tip], h, t.work[h]);
      assert Beats(t, t.tip, h);
    }
  }

  // ----- Whole runs

  /** The calls a node makes into the store, one at a time. */
  datatype Event =
    | InsertEvent(block: Block, now: int64)
    | PeerBlock(block: Block, now: int64)
    | InitGenesis(sealed: Block)

  /** Only peers' blocks are checked against the zero hash; the other calls are assumed not to hit it. */
  ghost predicate Sane(rules: Rules, e: Event) {
    match e
    case InsertEvent(b, _) => rules.HashOf(b) != ZERO_HASH
    case PeerBlock(_, _) => true
    case InitGenesis(b) => rules.HashOf(b) != ZERO_HASH && b.header.height == 0 && b.header.parentHash == ZERO_HASH
  }

  function Step(rules: Rules, s: Chain, e: Event): Chain
    requires rules.Valid()
  {
    match e
    case InsertEvent(b, now) => Insert(rules, s, b, now).0
    case PeerBlock(b, now) =>
      if rules.HashOf(b) == ZERO_HASH || rules.HashOf(b) in s.blocks then s else Insert(rules, s, b, now).0
    case InitGenesis(b) =>
      if CurrentTip(s).Ok? then s
      else
        var stored := StoreBlock(rules.hash, s, b, CalcBlockWork(b.header.target));
        match SetCurrentTip(stored, rules.HashOf(b))
        case Ok(t) => t
        case Err(_) => stored
  }

  function Run(rules: Rules, s: Chain, es: seq<Event>): Chain
    requires rules.Valid()
    decreases |es|
  {
    if es == [] then s else Run(rules, Step(rules, s, es[0]), es[1..])
  }

  // ----- What a step does, exactly

  /** An accepted header is this: consistent in itself, attached to the store, and not too far ahead. */
  predicate Acceptable(rules: Rules, s: Chain, h: Header, now: int64)
    requires rules.Valid()
  {
    SelfConsistent(rules, h) && Attaches(s.blocks, h) && Timely(h, now)
  }

  /**
   * The store grown by one block: the block, its exact work and its height entry are added, the tip moves if there
   * was none or the block outranks it, and the genesis is the first root.
   */
  function Grown(rules: Rules, s: Chain, block: Block): Chain
    requires s.work.Keys == s.blocks.Keys && (s.tip == ZERO_HASH || s.tip in s.blocks)
  {
    var (h, total) := (rules.HashOf(block), ExactWork(s.work, block.header));
    Chain(if block.header.height == 0 && s.genesis == ZERO_HASH then h else s.genesis,
          if s.tip == ZERO_HASH || Outranks(h, total, s.tip, s.work[s.tip]) then h else s.tip,
          s.blocks[h := block], s.heights[block.header.height := h], s.work[h := total])
  }

  /** The node takes the event's block into the store. */
  predicate Takes(rules: Rules, s: Chain, e: Event)
    requires rules.Valid()
  {
    match e
    case InsertEvent(b, now) => Acceptable(rules, s, b.header, now) && rules.HashOf(b) !in s.blocks
    case PeerBlock(b, now) =>
      rules.HashOf(b) != ZERO_HASH && Acceptable(rules, s, b.header, now) && rules.HashOf(b) !in s.blocks
    case InitGenesis(b) => s.blocks == map[]
  }

  function EventBlock(e: Event): Block {
    match e
    case InsertEvent(b, _) => b
    case PeerBlock(b, _) => b
    case InitGenesis(b) => b
  }

  lemma TipIsStored(hash: Header -> Hash, s: Chain)
    requires WellFormed(hash, s)
    ensures s.work.Keys == s.blocks.Keys && (s.tip == ZERO_HASH || s.tip in s.blocks)
    ensures s.tip == ZERO_HASH <==> s.blocks == map[]
    ensures s.tip != ZERO_HASH ==> hash(s.blocks[s.tip].header) == s.tip
  {
    if s.tip in s.blocks {
      assert LinkedAt(hash, s.blocks, s.work, s.tip);
    }
  }

  /** Storing and choosing is growing. */
  lemma ChoosingGrows(rules: Rules, s: Chain, block: Block)
    requires rules.Valid() && WellFormed(rules.hash, s) && rules.HashOf(block) != ZERO_HASH
    requires rules.HashOf(block) !in s.blocks
    ensures s.work.Keys == s.blocks.Keys && (s.tip == ZERO_HASH || s.tip in s.blocks)
    ensures StoreAndChoose(rules, s, block, ExactWork(s.work, block.header)).0 == Grown(rules, s, block)
  {
    hide WellFormed;
    hide ExactWork;
    hide Outranks;
    hide SelectBestChainByTotalWork;
    TipIsStored(rules.hash, s);
    var (h, total) := (rules.HashOf(block), ExactWork(s.work, block.header));
    if s.tip == ZERO_HASH {
      SelectMaximises(h, total, h, total);
    } else {
      SelectMaximises(s.tip, s.work[s.tip], h, total);
    }
  }

  /**
   * Every event grows the store by exactly its block when it should, and otherwise leaves it as it is: a locally
   * mined block and a peer's alike, and a genesis only where there is nothing yet.
   */
  lemma StepIsExact(rules: Rules, s: Chain, e: Event)
    requires rules.Valid() && WellFormed(rules.hash, s) && Sane(rules, e)
    ensures s.work.Keys == s.blocks.Keys && (s.tip == ZERO_HASH || s.tip in s.blocks)
    ensures Step(rules, s, e) == if Takes(rules, s, e) then Grown(rules, s, EventBlock(e)) else s
  {
    hide WellFormed;
    hide ValidateHeader;
    hide StoreAndChoose;
    hide ExactWork;
    hide Attaches;
    hide SelfConsistent;
    TipIsStored(rules.hash, s);
    match e
    case InsertEvent(b, now) => InsertGrows(rules, s, b, now);
    case PeerBlock(b, now) =>
      if rules.HashOf(b) != ZERO_HASH {
        InsertGrows(rules, s, b, now);
      }
    case InitGenesis(b) => RootIsExact(s.work, b.header);
  }

  lemma RootIsExact(work: map<Hash, int>, h: Header)
    ensures h.height == 0 ==> ExactWork(work, h) == CalcBlockWork(h.target)
  {
  }

  lemma InsertGrows(rules: Rules, s: Chain, b: Block, now: int64)
    requires rules.Valid() && WellFormed(rules.hash, s) && rules.HashOf(b) != ZERO_HASH
    ensures s.work.Keys == s.blocks.Keys && (s.tip == ZERO_HASH || s.tip in s.blocks)
    ensures Insert(rules, s, b, now).0 ==
      if Acceptable(rules, s, b.header, now) && rules.HashOf(b) !in s.blocks then Grown(rules, s, b) else s
  {
    hide WellFormed;
    hide ValidateHeader;
    hide StoreAndChoose;
    hide Grown;
    hide Insert;
    TipIsStored(rules.hash, s);
    AcceptedMeans(rules, s, b.header, now);
    InsertOutcomes(rules, s, b, now);
    if Acceptable(rules, s, b.header, now) && rules.HashOf(b) !in s.blocks {
      ChoosingGrows(rules, s, b);
    }
  }

  /** Consecutive states of a run, each what its event makes of the one before. */
  ghost predicate IsRun(rules: Rules, states: seq<Chain>, es: seq<Event>)
    requires rules.Valid()
  {
    |states| == |es| + 1 && forall i :: 0 <= i < |es| ==> IsStep(rules, states[i], es[i], states[i + 1])
  }

  ghost predicate IsStep(rules: Rules, s: Chain, e: Event, t: Chain)
    requires rules.Valid()
  {
    && WellFormed(rules.hash, s) && s.work.Keys == s.blocks.Keys && (s.tip == ZERO_HASH || s.tip in s.blocks)
    && t == if Takes(rules, s, e) then Grown(rules, s, EventBlock(e)) else s
  }

  lemma StepKeepsInvariant(rules: Rules, s: Chain, e: Event, lost: set<Hash>)
    requires rules.Valid() && WellFormed(rules.hash, s) && TipBestExcept(s, lost) && Sane(rules, e)
    ensures WellFormed(rules.hash, Step(rules, s, e)) && TipBestExcept(Step(rules, s, e), lost)
    ensures IsStep(rules, s, e, Step(rules, s, e))
  {
    hide Grown;
    StepIsExact(rules, s, e);
    match e
    case InsertEvent(b, now) => InsertKeepsInvariant(rules, s, b, now, lost);
    case PeerBlock(b, now) =>
      if rules.HashOf(b) != ZERO_HASH {
        InsertKeepsInvariant(rules, s, b, now, lost);
      }
    case InitGenesis(b) =>
      if CurrentTip(s).Err? {
        StoringKeepsWellFormed(rules.hash, s, b);
      }
  }

  /**
   * Over every serialised run the tree stays exact, the tip is the unique best stored block, and every event does
   * exactly what it should.
   */
  lemma {:induction false} RunKeepsInvariant(rules: Rules, s: Chain, es: seq<Event>, lost: set<Hash>)
    requires rules.Valid() && WellFormed(rules.hash, s) && TipBestExcept(s, lost)
    requires forall e :: e in es ==> Sane(rules, e)
    ensures WellFormed(rules.hash, Run(rules, s, es)) && TipBestExcept(Run(rules, s, es), lost)
    ensures exists states :: IsRun(rules, states, es) && states[0] == s && states[|es|] == Run(rules, s, es)
    decreases |es|
  {
    hide IsRun;
    hide IsStep;
    var states := RunIsExact(rules, s, es, lost);
    if es != [] {
      assert es[0] in es;
      StepKeepsInvariant(rules, s, es[0], lost);
      RunKeepsInvariant(rules, Step(rules, s, es[0]), es[1..], lost);
    }
  }

  lemma RunFromEmptyIsOptimal(rules: Rules, es: seq<Event>)
    requires rules.Valid() && forall e :: e in es ==> Sane(rules, e)
    ensures WellFormed(rules.hash, Run(rules, EMPTY_CHAIN, es)) && TipBest(Run(rules, EMPTY_CHAIN, es))
    ensures exists states ::
      IsRun(rules, states, es) && states[0] == EMPTY_CHAIN && states[|es|] == Run(rules, EMPTY_CHAIN, es)
  {
    RunKeepsInvariant(rules, EMPTY_CHAIN, es, {});
  }

  /** A run is such a sequence of states: no event is dropped, and none does more than it should. */
  lemma {:induction false} RunIsExact(rules: Rules, s: Chain, es: seq<Event>, lost: set<Hash>)
    returns (states: seq<Chain>)
    requires rules.Valid() && WellFormed(rules.hash, s) && TipBestExcept(s, lost)
    requires forall e :: e in es ==> Sane(rules, e)
    ensures IsRun(rules, states, es) && states[0] == s && states[|es|] == Run(rules, s, es)
    decreases |es|
  {
    hide WellFormed;
    hide Step;
    hide Grown;
    hide Sane;
    hide TipBestExcept;
    if es == [] {
      states := [s];
    } else {
      assert es[0] in es;
      StepKeepsInvariant(rules, s, es[0], lost);
      StepIsExact(rules, s, es[0]);
      var later := RunIsExact(rules, Step(rules, s, es[0]), es[1..], lost);
      states := [s] + later;
      forall i | 0 <= i < |es|
        ensures IsStep(rules, states[i], es[i], states[i + 1])
      {
        if i > 0 {
          assert IsStep(rules, later[i - 1], es[1..][i - 1], later[i]);
        }
      }
    }
  }

  /** The genesis, once set, stays: it is the first root the store was given. */
  lemma {:induction false} GenesisIsStable(rules: Rules, s: Chain, es: seq<Event>, lost: set<Hash>)
    requires rules.Valid() && WellFormed(rules.hash, s) && TipBestExcept(s, lost)
    requires forall e :: e in es ==> Sane(rules, e)
    ensures s.genesis != ZERO_HASH ==> Run(rules, s, es).genesis == s.genesis
    decreases |es|
  {
    hide WellFormed;
    hide Step;
    hide Sane;
    hide TipBestExcept;
    if es != [] {
      assert es[0] in es;
      StepKeepsInvariant(rules, s, es[0], lost);
      StepIsExact(rules, s, es[0]);
      GenesisIsStable(rules, Step(rules, s, es[0]), es[1..], lost);
    }
  }
}
