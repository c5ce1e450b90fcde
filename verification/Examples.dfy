/** A concrete store, one genesis block, and two rival children of it: inputs on which the best tip is lost. */
module Rivals {
  import opened Bytes
  import opened DagSpec
  import opened Types
  import opened Work
  import opened ChainState
  import opened Consensus
  import opened ForkChoice
  import opened Interleaving
  import opened Crashes
  import opened Convergence

  const SPEC: Spec := Spec(Research, 64, 64, 64, 64, 1, 8000, 0, 0, 0, AnyMemory, false, 0, 1)

  const TARGET: Target := Target(Zeros(31) + [1])

  /** The hash whose only nonzero byte is the last. */
  function Named(n: byte): Hash { Hash(Zeros(31) + [n]) }

  /** Blocks hash to their nonce, more or less; every proof of work is valid. */
  const RULES: Rules :=
    Rules((h: Header) => Named(h.nonce % 255 + 1), (height: uint64) => ZERO_HASH, SPEC, (h: Header) => true)

  function BlockOf(height: uint64, parent: Hash, timestamp: int64, nonce: uint64): Block {
    Block(Header(1, 1, height, parent, timestamp, TARGET, nonce, ZERO_HASH, 64, ZERO_HASH, ZERO_HASH), [])
  }

  const GENESIS: Block := BlockOf(0, ZERO_HASH, 0, 9)
  const SMALLER: Block := BlockOf(1, Named(10), 1, 0)
  const LARGER: Block := BlockOf(1, Named(10), 1, 1)

  /** The store a node starts with. */
  const STORE: Chain := Step(RULES, EMPTY_CHAIN, InitGenesis(GENESIS))

  lemma NamesDiffer(m: byte, n: byte)
    ensures Named(m) == Named(n) <==> m == n
    ensures BigEndianValue(Named(m).bytes) < BigEndianValue(Named(n).bytes) <==> m < n
    ensures Named(m) == ZERO_HASH <==> m == 0
  {
    var (a, b) := (Named(m).bytes, Named(n).bytes);
    assert a[..31] == b[..31] && a[31] == m && b[31] == n && ZERO_HASH.bytes[31] == 0;
    if m != n {
      FirstDifferenceDecides(a, b, 31);
    }
    if m == 0 {
      assert Named(m).bytes == ZERO_HASH.bytes;
    }
  }

  lemma StoreIsOptimal()
    ensures RULES.Valid() && WellFormed(RULES.hash, STORE) && TipBest(STORE)
    ensures STORE.tip == Named(10) && STORE.blocks == map[Named(10) := GENESIS]
    ensures STORE.work == map[Named(10) := CalcBlockWork(TARGET)]
  {
    hide WellFormed;
    hide TipBestExcept;
    hide CalcBlockWork;
    hide Named;
    NamesDiffer(10, 0);
    EmptyIsOptimal(RULES.hash);
    StepKeepsInvariant(RULES, EMPTY_CHAIN, InitGenesis(GENESIS), {});
  }

  lemma EmptyIsOptimal(hash: Header -> Hash)
    ensures WellFormed(hash, EMPTY_CHAIN) && TipBestExcept(EMPTY_CHAIN, {})
  {
  }

  lemma Accepts(block: Block)
    requires block == SMALLER || block == LARGER
    ensures RULES.Valid() && ValidateHeader(RULES, STORE, block.header, 0).None?
    ensures RULES.HashOf(SMALLER) == Named(1) && RULES.HashOf(LARGER) == Named(2)
    ensures ExactWork(STORE.work, block.header) == 2 * CalcBlockWork(TARGET) && CalcBlockWork(TARGET) >= 1
  {
    hide CalcBlockWork;
    hide Named;
    StoreIsOptimal();
    assert TARGET.bytes[31] == 1 && ZERO_TARGET.bytes[31] == 0;
    BlockWorkRange(TARGET);
  }

  /** Both children are challengers of equal work, and the one with the smaller hash outranks the other. */
  lemma BothChallenge()
    ensures RULES.Valid() && Challenges(RULES, STORE, SMALLER, 0) && Challenges(RULES, STORE, LARGER, 0)
    ensures Outranks(RULES.HashOf(SMALLER), ExactWork(STORE.work, SMALLER.header),
                     RULES.HashOf(LARGER), ExactWork(STORE.work, LARGER.header))
  {
    hide ValidateHeader;
    hide WellFormed;
    hide CalcBlockWork;
    hide ExactWork;
    hide Named;
    StoreIsOptimal();
    Accepts(SMALLER);
    Accepts(LARGER);
    NamesDiffer(1, 2);
    NamesDiffer(1, 10);
    NamesDiffer(2, 10);
    NamesDiffer(10, 0);
    NamesDiffer(1, 0);
    NamesDiffer(2, 0);
  }

  /** Two calls of InsertBlock, on the two children, end with the outranked one as the tip. */
  lemma TipIsLostByInterleaving() returns (order: seq<nat>)
    ensures RULES.Valid()
    ensures var start := System(STORE, map[0 := Validating(LARGER, 0), 1 := Validating(SMALLER, 0)]);
      var end := Execute(RULES, start, order).chain;
      end.tip == RULES.HashOf(LARGER) && WellFormed(RULES.hash, end) && !TipBest(end)
  {
    hide Challenges;
    hide Execute;
    hide WellFormed;
    hide Named;
    hide CalcBlockWork;
    BothChallenge();
    Accepts(SMALLER);
    NamesDiffer(1, 2);
    order := TwoCallsCanLoseTheBestTip(RULES, STORE, LARGER, SMALLER, 0);
    var end := Execute(RULES, System(STORE, map[0 := Validating(LARGER, 0), 1 := Validating(SMALLER, 0)]), order).chain;
    WorkKeys(RULES.hash, end);
    OutranksIsTotal(RULES.HashOf(SMALLER), end.work[RULES.HashOf(SMALLER)], end.tip, end.work[end.tip]);
  }

  /** A crash after four operations of inserting a child leaves the genesis as the tip, although the child is stored. */
  lemma TipIsLostByCrash()
    ensures RULES.Valid()
    ensures var t := DurableStep(RULES, STORE, CrashedInsert(SMALLER, 0, 4)); WellFormed(RULES.hash, t) && !TipBest(t)
  {
    hide Challenges;
    hide DurableStep;
    hide WellFormed;
    hide Named;
    StoreIsOptimal();
    BothChallenge();
    Accepts(SMALLER);
    NamesDiffer(1, 0);
    CrashPointIsExact(RULES, STORE, SMALLER, 0, 4);
  }

  /** The two orders of arrival leave different blocks in the height index. */
  lemma IndexDependsOnOrder()
    ensures RULES.Valid()
    ensures Deliver(RULES, STORE, [(SMALLER, 0), (LARGER, 0)]).heights
         != Deliver(RULES, STORE, [(LARGER, 0), (SMALLER, 0)]).heights
  {
    hide ValidateHeader;
    hide Deliver;
    hide WellFormed;
    hide Named;
    hide CalcBlockWork;
    StoreIsOptimal();
    BothChallenge();
    Accepts(SMALLER);
    Accepts(LARGER);
    NamesDiffer(1, 2);
    AcceptedMeans(RULES, STORE, SMALLER.header, 0);
    AcceptedMeans(RULES, STORE, LARGER.header, 0);
    HeightIndexDependsOnOrder(RULES, STORE, (SMALLER, 0), (LARGER, 0));
  }
}
