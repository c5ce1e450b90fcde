/** Header validation and block insertion (pkg/consensus/validator.go). */
module Consensus {
  import opened Bytes
  import opened Types
  import opened DagSpec
  import opened Work
  import opened ChainState
  import opened MemStore

  /**
   * A validator's fixed rule: its spec, and the block hash, epoch seed and proof-of-work verdict as
   * uninterpreted functions.  `RulesOf` fills in the concrete ones.
   */
  datatype Rules = Rules(hash: Header -> Hash, seedAt: uint64 -> Hash, spec: Spec, powOk: Header -> bool)
  {
    /** NewValidator refuses any other spec. */
    predicate Valid() { spec.Valid() }

    function HashOf(b: Block): Hash { hash(b.header) }
  }

  function RulesOf(c: Crypto, spec: Spec, powOk: Header -> bool): Rules
    requires spec.nodeSize != 0 && spec.epochBlocks != 0
  {
    Rules(h => HeaderHash(c, h), (height: uint64) => EpochSeedForHeight(c, spec, height), spec, powOk)
  }

  datatype Rejection = InvalidEpoch | InvalidTarget | InvalidParent | InvalidTimestamp | InvalidPoW | StoreFailed

  const MAX_AHEAD_SECONDS: int64 := 2 * 60 * 60

  /** The checks that look at the header alone. */
  predicate SelfConsistent(rules: Rules, h: Header)
    requires rules.Valid()
  {
    && h.algorithmVersion == rules.spec.algorithmVersion
    && h.dagSizeBytes == rules.spec.DagSizeForHeight(h.height)
    && h.epochSeed == rules.seedAt(h.height)
    && h.target != ZERO_TARGET
    && (h.height == 0 ==> h.parentHash == ZERO_HASH)
    && rules.powOk(h)
  }

  /** A header extends its parent: next height without wrap-around, strictly later timestamp. */
  predicate Extends(parent: Header, h: Header) {
    parent.height + 1 == h.height && parent.timestamp < h.timestamp
  }

  predicate Timely(h: Header, now: int64) {
    h.timestamp <= WrapInt64(now + MAX_AHEAD_SECONDS)
  }

  /** ValidateHeader, check by check in the source's order; None means accepted. */
  function ValidateHeader(rules: Rules, s: Chain, h: Header, now: int64): Option<Rejection>
    requires rules.Valid()
  {
    if h.algorithmVersion != rules.spec.algorithmVersion then Some(InvalidEpoch)
    else if h.dagSizeBytes != rules.spec.DagSizeForHeight(h.height) then Some(InvalidEpoch)
    else if rules.seedAt(h.height) != h.epochSeed then Some(InvalidEpoch)
    else if h.target == ZERO_TARGET then Some(InvalidTarget)
    else match ValidateParent(s, h)
      case Some(e) => Some(e)
      case None =>
        if h.timestamp > WrapInt64(now + MAX_AHEAD_SECONDS) then Some(InvalidTimestamp)
        else if !rules.powOk(h) then Some(InvalidPoW)
        else None
  }

  function ValidateParent(s: Chain, h: Header): Option<Rejection> {
    if h.height == 0 then
      if h.parentHash != ZERO_HASH then Some(InvalidParent) else None
    else match GetHeader(s, h.parentHash)
      case Err(_) => Some(InvalidParent)
      case Ok(parent) =>
        if Wrap64(parent.height + 1) != h.height then Some(InvalidParent)
        else if h.timestamp <= parent.timestamp then Some(InvalidTimestamp)
        else None
  }

  /** A header attaches to a store when it is a root or extends a stored parent. */
  predicate Attaches(blocks: map<Hash, Block>, h: Header) {
    if h.height == 0 then h.parentHash == ZERO_HASH
    else h.parentHash in blocks && Extends(blocks[h.parentHash].header, h)
  }

  /** Acceptance says exactly this; in particular the uint64 height successor never wraps. */
  lemma AcceptedMeans(rules: Rules, s: Chain, h: Header, now: int64)
    requires rules.Valid()
    ensures ValidateHeader(rules, s, h, now).None?
      <==> SelfConsistent(rules, h) && Attaches(s.blocks, h) && Timely(h, now)
  {
    if h.height != 0 && h.parentHash in s.blocks {
      var p := s.blocks[h.parentHash].header;
      assert Wrap64(p.height + 1) == h.height <==> p.height + 1 == h.height;
    }
  }

  /** The header names the spec's version, its own height's size and seed. */
  predicate RightEpoch(rules: Rules, h: Header)
    requires rules.Valid()
  {
    && h.algorithmVersion == rules.spec.algorithmVersion
    && h.dagSizeBytes == rules.spec.DagSizeForHeight(h.height) && h.epochSeed == rules.seedAt(h.height)
  }

  /** A root without a parent, or a header one above a stored one. */
  predicate RightParent(s: Chain, h: Header) {
    if h.height == 0 then h.parentHash == ZERO_HASH
    else h.parentHash in s.blocks && s.blocks[h.parentHash].header.height + 1 == h.height
  }

  /** Later than its parent, if it has one, and at most two hours ahead of the clock. */
  predicate RightTime(s: Chain, h: Header, now: int64)
    requires RightParent(s, h)
  {
    (h.height > 0 ==> s.blocks[h.parentHash].header.timestamp < h.timestamp) && h.timestamp <= WrapInt64(now + 7200)
  }

  /** Which error each refused header gets: the first of epoch, target, parent, time and proof of work that is wrong. */
  lemma RejectionMeans(rules: Rules, s: Chain, h: Header, now: int64)
    requires rules.Valid()
    ensures var r := ValidateHeader(rules, s, h, now);
      && (r == Some(InvalidEpoch) <==> !RightEpoch(rules, h))
      && (r == Some(InvalidTarget) <==> RightEpoch(rules, h) && h.target == ZERO_TARGET)
      && (r == Some(InvalidParent) <==> RightEpoch(rules, h) && h.target != ZERO_TARGET && !RightParent(s, h))
      && (r == Some(InvalidTimestamp) <==>
            RightEpoch(rules, h) && h.target != ZERO_TARGET && RightParent(s, h) && !RightTime(s, h, now))
      && (r == Some(InvalidPoW) <==>
            && RightEpoch(rules, h) && h.target != ZERO_TARGET && RightParent(s, h) && RightTime(s, h, now)
            && !rules.powOk(h))
      && r != Some(StoreFailed)
  {
    if h.height != 0 && h.parentHash in s.blocks {
      var p := s.blocks[h.parentHash].header;
      assert Wrap64(p.height + 1) == h.height <==> p.height + 1 == h.height;
    }
  }

  /** InsertBlock's effect on the store and its (total work, became tip) result. */
  function Insert(rules: Rules, s: Chain, block: Block, now: int64): (Chain, Result<(int, bool), Rejection>)
    requires rules.Valid()
  {
    match ValidateHeader(rules, s, block.header, now)
    case Some(e) => (s, Err(e))
    case None => InsertAccepted(rules, s, block)
  }

  /** InsertBlock after validation: report a known block, or add its parent's work and store it. */
  function InsertAccepted(rules: Rules, s: Chain, block: Block): (Chain, Result<(int, bool), Rejection>) {
    var h := rules.HashOf(block);
    if h in s.blocks then
      match TotalWork(s, h)
      case Ok(w) => (s, Ok((w, false)))
      case Err(_) => (s, Err(StoreFailed))
    else if block.header.height > 0 then
      match TotalWork(s, block.header.parentHash)
      case Ok(w) => StoreAndChoose(rules, s, block, CalcBlockWork(block.header.target) + w)
      case Err(_) => (s, Err(StoreFailed))
    else StoreAndChoose(rules, s, block, CalcBlockWork(block.header.target))
  }

  /** The second half of InsertBlock: store, read the tip back, choose. */
  function StoreAndChoose(rules: Rules, s: Chain, block: Block, total: int): (Chain, Result<(int, bool), Rejection>) {
    var h := rules.HashOf(block);
    var stored := StoreBlock(rules.hash, s, block, total);
    match CurrentTip(stored)
    case Err(_) => (stored.(tip := h), Ok((total, true)))
    case Ok(current) =>
      if SelectBestChainByTotalWork(rules.HashOf(current.0), current.1, h, total) == h
      then (stored.(tip := h), Ok((total, true)))
      else (stored, Ok((total, false)))
  }

  method CheckHeader(rules: Rules, store: MemoryStore, h: Header, now: int64) returns (r: Option<Rejection>)
    requires rules.Valid()
    ensures r == ValidateHeader(rules, store.Contents(), h, now)
  {
    if h.algorithmVersion != rules.spec.algorithmVersion {
      return Some(InvalidEpoch);
    }
    if h.dagSizeBytes != rules.spec.DagSizeForHeight(h.height) {
      return Some(InvalidEpoch);
    }
    if rules.seedAt(h.height) != h.epochSeed {
      return Some(InvalidEpoch);
    }
    if h.target == ZERO_TARGET {
      return Some(InvalidTarget);
    }
    if h.height == 0 {
      if h.parentHash != ZERO_HASH {
        return Some(InvalidParent);
      }
    } else {
      var parent := store.GetHeader(h.parentHash);
      if parent.Err? {
        return Some(InvalidParent);
      }
      if Wrap64(parent.value.height + 1) != h.height {
        return Some(InvalidParent);
      }
      if h.timestamp <= parent.value.timestamp {
        return Some(InvalidTimestamp);
      }
    }
    if h.timestamp > WrapInt64(now + MAX_AHEAD_SECONDS) {
      return Some(InvalidTimestamp);
    }
    if !rules.powOk(h) {
      return Some(InvalidPoW);
    }
    return None;
  }

  method InsertBlock(rules: Rules, store: MemoryStore, block: Block, now: int64)
    returns (r: Result<(int, bool), Rejection>)
    requires rules.Valid() && store.blockHash == rules.hash
    modifies store
    ensures (store.Contents(), r) == Insert(rules, old(store.Contents()), block, now)
  {
    var rejection := CheckHeader(rules, store, block.header, now);
    if rejection.Some? {
      return Err(rejection.value);
    }
    var blockHash := rules.hash(block.header);
    var known := store.HasBlock(blockHash);
    if known {
      var w := store.TotalWork(blockHash);
      return if w.Ok? then Ok((w.value, false)) else Err(StoreFailed);
    }
    var totalWork: int := CalcBlockWork(block.header.target);
    if block.header.height > 0 {
      var parentWork := store.TotalWork(block.header.parentHash);
      if parentWork.Err? {
        return Err(StoreFailed);
      }
      totalWork := totalWork + parentWork.value;
    }
    store.StoreBlock(block, totalWork);
    var current := store.CurrentTip();
    if current.Err? {
      var ok := store.SetCurrentTip(blockHash);
      return Ok((totalWork, true));
    }
    var best := SelectBestChainByTotalWork(rules.HashOf(current.value.0), current.value.1, blockHash, totalWork);
    if best == blockHash {
      var ok := store.SetCurrentTip(blockHash);
      return Ok((totalWork, true));
    }
    return Ok((totalWork, false));
  }
}
