/** From a mining template to a sealed block in the store (pkg/node/node.go, pkg/consensus/validator.go). */
module Sealing {
  import opened Bytes
  import opened Codec
  import opened DagSpec
  import opened Types
  import opened Work
  import opened ChainState
  import opened Consensus
  import opened ForkChoice
  import opened DagNodes
  import opened DagObjects
  import opened Backends
  import opened DagCache
  import Miner

  /** The bytes of an ASCII string. */
  function Ascii(s: string): seq<byte> {
    seq(|s|, i requires 0 <= i < |s| => s[i] as int % 256)
  }

  /** mineNextBlock's header before sealing: the next block on `tip` at clock `now`. */
  function Template(c: Crypto, spec: Spec, bits: Target, tip: Header, now: int64): Header
    requires spec.Valid()
  {
    var height := Wrap64(tip.height + 1);
    var resolved := spec.ResolvedForHeight(height);
    var later := WrapInt64(tip.timestamp + 1);
    Header(1, resolved.algorithmVersion, height, HeaderHash(c, tip), if now > later then now else later, bits, 0,
           EpochSeedForHeight(c, resolved, height), resolved.dagSizeBytes,
           Hash(c.sha256(Ascii("height:" + FormatNat(height)))),
           Hash(c.sha256(Ascii(HexEncode(HeaderHash(c, tip).bytes)))))
  }

  // ----- What a template is, without the function above

  /** The bytes of "height:" and the decimal digits of the height. */
  ghost predicate IsHeightText(m: seq<byte>, height: uint64) {
    && |m| > 7 && m[..7] == [104, 101, 105, 103, 104, 116, 58]
    && (forall k :: 0 <= k < |m| - 7 ==> m[|m| - 1 - k] == 48 + DecimalDigit(height, k))
    && DroppedDigits(height, |m| - 7) == 0 && (m[7] == 48 ==> height == 0)
  }

  /** The bytes of the 64 lower-case hexadecimal digits of a hash. */
  ghost predicate IsHashText(m: seq<byte>, h: Hash) {
    |m| == 64 && forall j :: 0 <= j < 32 ==>
      && m[2 * j] == "0123456789abcdef"[h.bytes[j] / 16] as int
      && m[2 * j + 1] == "0123456789abcdef"[h.bytes[j] % 16] as int
  }

  /** Not before the clock, and after the tip. */
  predicate IsLate(t: int64, tipTime: int64, now: int64) { now <= t && tipTime < t }

  /** The least such time. */
  ghost predicate IsNextTime(t: int64, tipTime: int64, now: int64) {
    IsLate(t, tipTime, now) && forall u: int64 :: IsLate(u, tipTime, now) ==> t <= u
  }

  /** A header on this tip, whatever its nonce: version, height, parent, time, target, seed, size and both roots. */
  ghost predicate IsTemplate(c: Crypto, spec: Spec, bits: Target, tip: Header, now: int64, h: Header)
    requires spec.Valid()
  {
    && h.version == 1 && h.algorithmVersion == spec.algorithmVersion && h.target == bits
    && h.parentHash == HeaderHash(c, tip) && (tip.height < TWO_TO_THE_64 - 1 ==> h.height == tip.height + 1)
    && (tip.timestamp < 0x7FFF_FFFF_FFFF_FFFF ==> IsNextTime(h.timestamp, tip.timestamp, now))
    && h.dagSizeBytes == spec.DagSizeForHeight(h.height)
    && (ResolvesOnce(spec, h.height) ==> h.epochSeed == EpochSeedForHeight(c, spec, h.height))
    && (exists m :: IsHeightText(m, h.height) && h.txRoot.bytes == c.sha256(m))
    && (exists m :: IsHashText(m, h.parentHash) && h.stateRoot.bytes == c.sha256(m))
  }

  lemma LabelledText(t: string)
    ensures var m := Ascii("height:" + t);
      && |m| == 7 + |t| && m[..7] == [104, 101, 105, 103, 104, 116, 58]
      && forall i :: 0 <= i < |t| ==> m[7 + i] == t[i] as int % 256
  {
    var s := "height:" + t;
    assert s[0] == 'h' && s[1] == 'e' && s[2] == 'i' && s[3] == 'g' && s[4] == 'h' && s[5] == 't' && s[6] == ':';
    assert forall i :: 0 <= i < |t| ==> s[7 + i] == t[i];
  }

  lemma DigitCode(n: nat, k: nat)
    requires k < |FormatNat(n)|
    ensures FormatNat(n)[|FormatNat(n)| - 1 - k] as int == 48 + DecimalDigit(n, k) < 58
  {
    hide FormatNat;
    hide DecimalDigit;
    DecimalDigitsAre(n, k);
    DigitRange(n, k);
    CodeOfDigit(DecimalDigit(n, k));
  }

  lemma HeightTextMeans(height: uint64)
    ensures IsHeightText(Ascii("height:" + FormatNat(height)), height)
  {
    hide Ascii;
    hide FormatNat;
    hide DecimalDigit;
    hide DroppedDigits;
    var t := FormatNat(height);
    var m := Ascii("height:" + t);
    LabelledText(t);
    forall k | 0 <= k < |t|
      ensures m[|m| - 1 - k] == 48 + DecimalDigit(height, k)
    {
      DigitCode(height, k);
      assert m[7 + (|t| - 1 - k)] == t[|t| - 1 - k] as int % 256;
    }
    NoDigitsLeft(height);
    NoLeadingZero(height);
    if m[7] == 48 {
      DigitCode(height, |t| - 1);
      assert m[7 + 0] == t[0] as int % 256;
    }
  }

  lemma {:induction false} DigitRange(n: nat, k: nat)
    ensures DecimalDigit(n, k) < 10
  {
    if k > 0 {
      DigitRange(n / 10, k - 1);
    }
  }

  lemma CodeOfDigit(d: nat)
    requires d < 10
    ensures "0123456789"[d % 10] as int == 48 + d
  {
    TextOfDigit(d);
  }

  lemma HashTextMeans(h: Hash)
    ensures IsHashText(Ascii(HexEncode(h.bytes)), h)
  {
    hide HexEncode;
    var t := HexEncode(h.bytes);
    forall j | 0 <= j < 32
      ensures Ascii(t)[2 * j] == "0123456789abcdef"[h.bytes[j] / 16] as int
      ensures Ascii(t)[2 * j + 1] == "0123456789abcdef"[h.bytes[j] % 16] as int
    {
      HexDigitsAre(h.bytes, j);
      HexCode(h.bytes[j] / 16);
      HexCode(h.bytes[j] % 16);
    }
  }

  lemma HexCode(d: nat)
    requires d < 16
    ensures "0123456789abcdef"[d] as int % 256 == "0123456789abcdef"[d] as int
  {
    DigitIs(d);
  }

  /** The template is what it should be, and stays so when a nonce is put in. */
  lemma TemplateMeans(c: Crypto, spec: Spec, bits: Target, tip: Header, now: int64, nonce: uint64)
    requires spec.Valid()
    ensures IsTemplate(c, spec, bits, tip, now, Template(c, spec, bits, tip, now).(nonce := nonce))
  {
    hide HeaderHash;
    hide EpochSeedForHeight;
    hide Spec.DagSizeForHeight;
    hide ResolvesOnce;
    hide IsHeightText;
    hide IsHashText;
    hide FormatNat;
    hide HexEncode;
    var h := Template(c, spec, bits, tip, now).(nonce := nonce);
    HeightTextMeans(h.height);
    HashTextMeans(h.parentHash);
    if ResolvesOnce(spec, h.height) {
      ResolvedSeedAgrees(c, spec, h.height);
    }
  }

  /** The validation rule with the proof of work spelled out. */
  function FullRules(c: Crypto, spec: Spec): Rules
    requires spec.Valid()
  {
    RulesOf(c, spec, h => PowOk(c, spec, h))
  }

  /** SealBlock's search with the consensus CPU backend, on the shared DAG of the header's seed and size. */
  function SealJob(c: Crypto, spec: Spec, h: Header, workers: nat, maxNonces: uint64): Miner.Job {
    var cached := spec.(dagSizeBytes := h.dagSizeBytes);
    var table := TableOf(c, spec.mode, h.epochSeed.bytes, cached.NodeCount());
    var meets := (n: uint64) => Meets(HashOf(c, cached, EncodeForMining(h), Some(n), table).pow256, h.target);
    Miner.Job(workers, 0, maxNonces, meets)
  }

  /**
   * What the miner's loop does with one nonce on the DAG that sharedMiningDAGForHeader returned: hash and compare.
   * It is the test the search is modelled with, and the validator's rule on the sealed header.
   */
  method TestNonce(v: PowValidator, h: Header, dag: Dag, n: uint64, workers: nat, maxNonces: uint64) returns (ok: bool)
    requires v.spec.Valid() && h.dagSizeBytes == v.spec.DagSizeForHeight(h.height)
    requires v.Holds(dag, h.epochSeed, h.dagSizeBytes)
    ensures ok <==> SealJob(v.crypto, v.spec, h, workers, maxNonces).meets(n)
    ensures ok <==> PowOk(v.crypto, v.spec, h.(nonce := n))
  {
    hide HashOf;
    hide TableOf;
    hide EncodeForMining;
    hide PowOk;
    var hash := ConsensusHash(v.crypto, EncodeForMining(h), n, dag);
    ok := LessOrEqualBE(hash.pow256, h.target);
    SearchTestsTheRule(v.crypto, v.spec, h, workers, maxNonces, n);
  }

  /** The sealing search tests exactly the rule the validator enforces, though the header it hashes lacks the nonce. */
  lemma SearchTestsTheRule(c: Crypto, spec: Spec, h: Header, workers: nat, maxNonces: uint64, n: uint64)
    requires spec.Valid() && h.dagSizeBytes == spec.DagSizeForHeight(h.height)
    ensures SealJob(c, spec, h, workers, maxNonces).meets(n) <==> PowOk(c, spec, h.(nonce := n))
  {
    hide HashOf;
    hide TableOf;
    PowOkByTable(c, spec, h.(nonce := n));
    assert EncodeForMining(h.(nonce := n)) == EncodeForMining(h);
  }

  /**
   * A finished sealing search succeeds exactly when some nonce of its range makes the header's proof of work
   * valid, and the sealed header, which differs only in its nonce, then is valid.
   */
  lemma SealingIsSound(c: Crypto, spec: Spec, h: Header, workers: nat, maxNonces: uint64, schedule: seq<Miner.Actor>)
    requires spec.Valid() && h.dagSizeBytes == spec.DagSizeForHeight(h.height)
    requires var job := SealJob(c, spec, h, workers, maxNonces);
      job.Valid() && Miner.Schedulable(job, Miner.Initial(job), schedule)
    ensures var job := SealJob(c, spec, h, workers, maxNonces);
      var caller := Miner.RunSchedule(job, Miner.Initial(job), schedule).caller;
      && (caller.Success? ==> PowOk(c, spec, h.(nonce := caller.nonce)))
      && (caller.Failure? ==> forall n: uint64 :: (maxNonces == 0 || n < maxNonces) ==> !PowOk(c, spec, h.(nonce := n)))
  {
    hide PowOk;
    hide TableOf;
    hide HashOf;
    hide EncodeForMining;
    hide Miner.RunSchedule;
    hide Miner.Schedulable;
    var job := SealJob(c, spec, h, workers, maxNonces);
    Miner.MineIsCorrect(job, schedule);
    var caller := Miner.RunSchedule(job, Miner.Initial(job), schedule).caller;
    if caller.Success? {
      SearchTestsTheRule(c, spec, h, workers, maxNonces, caller.nonce);
    }
    if caller.Failure? {
      forall n: uint64 | maxNonces == 0 || n < maxNonces
        ensures !PowOk(c, spec, h.(nonce := n))
      {
        assert job.InRange(n);
        SearchTestsTheRule(c, spec, h, workers, maxNonces, n);
      }
    }
  }

  /** What the template's makers must grant: room for the next height, a target, sane clocks, growth counted once. */
  predicate Minable(spec: Spec, bits: Target, tip: Header, now: int64, later: int64)
    requires spec.Valid()
  {
    && tip.height < TWO_TO_THE_64 - 1 && bits != ZERO_TARGET
    && now <= later && later + MAX_AHEAD_SECONDS < 0x8000_0000_0000_0000
    && tip.timestamp < now + MAX_AHEAD_SECONDS
    && ResolvesOnce(spec, tip.height + 1)
  }

  /** Any sealed template passes validation, now or later, in every store that still has its parent. */
  lemma SealedTemplateIsAccepted(c: Crypto, spec: Spec, bits: Target, tip: Header, now: int64, nonce: uint64,
                                 s: Chain, later: int64)
    requires spec.Valid() && Minable(spec, bits, tip, now, later)
    requires HeaderHash(c, tip) in s.blocks && s.blocks[HeaderHash(c, tip)].header == tip
    requires PowOk(c, spec, Template(c, spec, bits, tip, now).(nonce := nonce))
    ensures ValidateHeader(FullRules(c, spec), s, Template(c, spec, bits, tip, now).(nonce := nonce), later).None?
    ensures IsTemplate(c, spec, bits, tip, now, Template(c, spec, bits, tip, now).(nonce := nonce))
  {
    hide *;
    TemplateMeans(c, spec, bits, tip, now, nonce);
    TemplatePasses(c, spec, bits, tip, now, nonce, s, later);
  }

  lemma TemplatePasses(c: Crypto, spec: Spec, bits: Target, tip: Header, now: int64, nonce: uint64, s: Chain,
                       later: int64)
    requires spec.Valid() && Minable(spec, bits, tip, now, later)
    requires HeaderHash(c, tip) in s.blocks && s.blocks[HeaderHash(c, tip)].header == tip
    requires PowOk(c, spec, Template(c, spec, bits, tip, now).(nonce := nonce))
    ensures ValidateHeader(FullRules(c, spec), s, Template(c, spec, bits, tip, now).(nonce := nonce), later).None?
  {
    hide PowOk;
    hide EpochSeedForHeight;
    hide HeaderHash;
    hide Spec.DagSizeForHeight;
    hide HexEncode;
    hide FormatNat;
    var h := Template(c, spec, bits, tip, now).(nonce := nonce);
    ResolvedSeedAgrees(c, spec, tip.height + 1);
    AcceptedMeans(FullRules(c, spec), s, h, later);
  }

  // ----- Genesis

  /** The genesis a node seals for itself. */
  function SealedGenesis(c: Crypto, cfg: GenesisConfig, nonce: uint64): (b: Block)
    requires cfg.spec.nodeSize != 0 && cfg.spec.epochBlocks != 0
    ensures b.header.height == 0 && b.header.parentHash == ZERO_HASH
  {
    var b := NewGenesisBlock(c, cfg);
    b.(header := b.header.(nonce := nonce))
  }

  /** A genesis: empty, at height 0 on nothing, with the configured time, target and texts, in the first epoch. */
  ghost predicate IsGenesis(c: Crypto, cfg: GenesisConfig, b: Block) {
    && b.transactions == [] && b.header.height == 0 && (forall i :: 0 <= i < 32 ==> b.header.parentHash.bytes[i] == 0)
    && b.header.version == 1 && b.header.algorithmVersion == cfg.spec.algorithmVersion
    && b.header.timestamp == cfg.timestamp && b.header.target == cfg.bits
    && b.header.dagSizeBytes == cfg.spec.InitialDagSize()
    && (exists m: seq<byte> :: |m| == 16 && BigEndianValue(m[..8]) == 0
          && BigEndianValue(m[8..]) == cfg.spec.InitialDagSize() && b.header.epochSeed.bytes == c.sha256(m))
    && b.header.txRoot.bytes == c.sha256(cfg.message) && b.header.stateRoot.bytes == c.sha256(cfg.extraData)
  }

  lemma GenesisMeans(c: Crypto, cfg: GenesisConfig, nonce: uint64)
    requires cfg.spec.Valid()
    ensures IsGenesis(c, cfg, SealedGenesis(c, cfg, nonce))
  {
    hide BigEndianValue;
    hide EpochSeedForHeight;
    SizeAtGenesis(cfg.spec);
    SizeAtGenesis(cfg.spec.ResolvedForHeight(0));
    var m := SeedMaterial(c, cfg.spec.ResolvedForHeight(0), 0);
  }

  lemma SizeAtGenesis(s: Spec)
    requires s.nodeSize != 0 && s.epochBlocks != 0
    ensures s.DagSizeForHeight(0) == s.InitialDagSize() && 0 / s.epochBlocks == 0
  {
    QuotientFits(0, s.epochBlocks);
  }

  /**
   * InitGenesis stores its block unchecked.  Other nodes of the same spec accept that block, in any store, exactly
   * when the configured target is nonzero and the configured time is not too far ahead of their clocks.
   */
  lemma GenesisIsAccepted(c: Crypto, cfg: GenesisConfig, nonce: uint64, s: Chain, now: int64)
    requires cfg.spec.Valid() && PowOk(c, cfg.spec, SealedGenesis(c, cfg, nonce).header)
    ensures ValidateHeader(FullRules(c, cfg.spec), s, SealedGenesis(c, cfg, nonce).header, now).None?
      <==> cfg.bits != ZERO_TARGET && cfg.timestamp <= WrapInt64(now + MAX_AHEAD_SECONDS)
  {
    hide PowOk;
    hide HeaderHash;
    hide EpochSeedForHeight;
    hide Spec.DagSizeForHeight;
    ResolvedSeedAgrees(c, cfg.spec, 0);
    AcceptedMeans(FullRules(c, cfg.spec), s, SealedGenesis(c, cfg, nonce).header, now);
  }

  /** A node that starts from its own genesis and one that receives it from a peer end in the same state. */
  lemma GenesisByEitherRoute(c: Crypto, cfg: GenesisConfig, nonce: uint64, now: int64)
    requires cfg.spec.Valid() && PowOk(c, cfg.spec, SealedGenesis(c, cfg, nonce).header)
    requires cfg.bits != ZERO_TARGET && cfg.timestamp <= WrapInt64(now + MAX_AHEAD_SECONDS)
    requires FullRules(c, cfg.spec).HashOf(SealedGenesis(c, cfg, nonce)) != ZERO_HASH
    ensures var rules, b := FullRules(c, cfg.spec), SealedGenesis(c, cfg, nonce);
      Step(rules, EMPTY_CHAIN, InitGenesis(b)) == Step(rules, EMPTY_CHAIN, PeerBlock(b, now))
  {
    hide PowOk;
    hide HeaderHash;
    hide EpochSeedForHeight;
    hide Spec.DagSizeForHeight;
    hide CalcBlockWork;
    hide NewGenesisBlock;
    GenesisIsAccepted(c, cfg, nonce, EMPTY_CHAIN, now);
  }

  lemma SizeFieldsDiffer(prefix: seq<byte>, m: uint64, n: uint64)
    requires m != n
    ensures prefix + BigEndian(m, 8) != prefix + BigEndian(n, 8)
  {
    hide BigEndian;
    var a, b := prefix + BigEndian(m, 8), prefix + BigEndian(n, 8);
    if a == b {
      assert a[|prefix|..] == BigEndian(m, 8) && b[|prefix|..] == BigEndian(n, 8);
      NumberField(m, n, 8);
    }
  }

  /**
   * The seed condition is exact: where it fails, validators refuse every template, whatever its nonce, the store
   * and the clock, unless SHA-256 collides on the two seed inputs.
   */
  lemma OtherTemplatesAreRefused(c: Crypto, spec: Spec, bits: Target, tip: Header, now: int64, nonce: uint64,
                                 s: Chain, later: int64)
    requires spec.Valid() && tip.height < TWO_TO_THE_64 - 1 && !ResolvesOnce(spec, tip.height + 1)
    requires var height := tip.height + 1;
      var (asked, made) := (SeedInputAt(spec, height), SeedInputAt(spec.ResolvedForHeight(height), height));
      c.sha256(asked) == c.sha256(made) ==> asked == made
    ensures ValidateHeader(FullRules(c, spec), s, Template(c, spec, bits, tip, now).(nonce := nonce), later) ==
      Some(InvalidEpoch)
  {
    hide PowOk;
    hide HeaderHash;
    hide Spec.DagSizeForHeight;
    hide HexEncode;
    hide FormatNat;
    hide BigEndian;
    var height := tip.height + 1;
    ResolvingTwice(spec, height);
    SizeFieldsDiffer(BigEndian(height / spec.epochBlocks, 8), spec.DagSizeForHeight(height),
                     spec.ResolvedForHeight(height).DagSizeForHeight(height));
  }

  lemma TipIsHeaviest(s: Chain, h: Hash)
    requires s.work.Keys == s.blocks.Keys && TipBest(s) && h in s.blocks
    ensures s.tip in s.blocks && s.work[s.tip] >= s.work[h]
  {
    if h != s.tip {
      assert Beats(s, s.tip, h);
    }
  }

  /** No stored block is a child of the tip: it would outweigh it. */
  lemma TipHasNoChild(hash: Header -> Hash, s: Chain, h: Hash)
    requires WellFormed(hash, s) && TipBest(s) && h in s.blocks
    ensures s.blocks[h].header.height > 0 ==> s.blocks[h].header.parentHash != s.tip
  {
    hide CalcBlockWork;
    hide Outranks;
    TipIsHeaviest(s, h);
    assert LinkedAt(hash, s.blocks, s.work, h);
    BlockWorkRange(s.blocks[h].header.target);
  }

  /** A valid block on the current tip is new and becomes the tip, provided no stored header collides with it. */
  lemma ChildOfTipBecomesTip(rules: Rules, s: Chain, block: Block, now: int64)
    requires rules.Valid() && WellFormed(rules.hash, s) && TipBest(s) && s.tip in s.blocks
    requires ValidateHeader(rules, s, block.header, now).None?
    requires block.header.height > 0 && block.header.parentHash == s.tip && rules.HashOf(block) != ZERO_HASH
    requires forall k :: k in s.blocks && k == rules.HashOf(block) ==> s.blocks[k].header == block.header
    ensures rules.HashOf(block) !in s.blocks
    ensures var (t, r) := Insert(rules, s, block, now);
      t.tip == rules.HashOf(block) && r == Ok((s.work[s.tip] + CalcBlockWork(block.header.target), true))
  {
    hide CalcBlockWork;
    hide Outranks;
    hide LinkedAt;
    hide Indexed;
    hide Anchored;
    hide StoreAndChoose;
    var h := rules.HashOf(block);
    if h in s.blocks {
      TipHasNoChild(rules.hash, s, h);
    }
    AcceptedMeans(rules, s, block.header, now);
    BlockWorkRange(block.header.target);
    InsertOutcomes(rules, s, block, now);
    ChoosingIsOptimal(rules, s, block, {});
    TipIsHeaviest(Insert(rules, s, block, now).0, h);
  }

  /** The node's mining parameters. */
  datatype Setup = Setup(crypto: Crypto, spec: Spec, bits: Target, workers: nat, maxNonces: uint64)
  {
    predicate Valid() { spec.Valid() && 0 < workers < TWO_TO_THE_64 }

    function Rules(): Rules
      requires Valid()
    {
      FullRules(crypto, spec)
    }

    function Job(tip: Header, now: int64): (job: Miner.Job)
      requires Valid()
      ensures job.Valid()
    {
      SealJob(crypto, spec, Template(crypto, spec, bits, tip, now), workers, maxNonces)
    }
  }

  /**
   * mineNextBlock with the validator's caches in some state, under one schedule of the search: a sealed block, or
   * nothing yet or at all.  Without a DAG for the template there is no search.
   */
  function MineNextBlock(node: Setup, caches: Caches, offer: Option<nat>, tip: Header, now: int64,
                         schedule: seq<Miner.Actor>): Option<Block>
    requires node.Valid() && Miner.Schedulable(node.Job(tip, now), Miner.Initial(node.Job(tip, now)), schedule)
  {
    var template := Template(node.crypto, node.spec, node.bits, tip, now);
    if !caches.CanSeal(template, offer) then None
    else match Miner.RunSchedule(node.Job(tip, now), Miner.Initial(node.Job(tip, now)), schedule).caller
      case Success(n) => Some(Block(template.(nonce := n), []))
      case _ => None
  }

  predicate Mines(node: Setup, caches: Caches, offer: Option<nat>, tip: Header, now: int64, schedule: seq<Miner.Actor>)
    requires node.Valid()
  {
    && Miner.Schedulable(node.Job(tip, now), Miner.Initial(node.Job(tip, now)), schedule)
    && MineNextBlock(node, caches, offer, tip, now, schedule).Some?
  }

  /**
   * Some schedule mines a block exactly when the template's DAG is cached or can be allocated and some nonce of the
   * search range makes its proof of work valid; a schedule to the end then exists.
   */
  lemma MiningCanSucceed(node: Setup, caches: Caches, offer: Option<nat>, tip: Header, now: int64)
    requires node.Valid()
    ensures var template := Template(node.crypto, node.spec, node.bits, tip, now);
      (exists schedule: seq<Miner.Actor> :: Mines(node, caches, offer, tip, now, schedule))
      <==>
      (caches.CanSeal(template, offer)
       && exists n: uint64 ::
            (node.maxNonces == 0 || n < node.maxNonces) && PowOk(node.crypto, node.spec, template.(nonce := n)))
  {
    hide PowOk;
    hide TableOf;
    hide HashOf;
    hide EncodeForMining;
    hide HeaderHash;
    hide EpochSeedForHeight;
    hide Spec.DagSizeForHeight;
    hide HexEncode;
    hide FormatNat;
    hide Miner.RunSchedule;
    hide Miner.Schedulable;
    hide Miner.Inv;
    hide Caches.CanSeal;
    var template := Template(node.crypto, node.spec, node.bits, tip, now);
    var job := node.Job(tip, now);
    if schedule: seq<Miner.Actor> :| Mines(node, caches, offer, tip, now, schedule) {
      Miner.MineIsCorrect(job, schedule);
      var n := Miner.RunSchedule(job, Miner.Initial(job), schedule).caller.nonce;
      SearchTestsTheRule(node.crypto, node.spec, template, node.workers, node.maxNonces, n);
    }
    if n: uint64 :| (node.maxNonces == 0 || n < node.maxNonces) && PowOk(node.crypto, node.spec, template.(nonce := n))
                    && caches.CanSeal(template, offer) {
      SearchTestsTheRule(node.crypto, node.spec, template, node.workers, node.maxNonces, n);
      assert job.InRange(n) && job.meets(n);
      Miner.InitialInv(job);
      var schedule := Miner.SearchCanFinish(job, Miner.Initial(job));
      Miner.MineIsCorrect(job, schedule);
      assert Mines(node, caches, offer, tip, now, schedule);
    }
  }

  /** The header is the template on this tip, sealed with a valid nonce of the search range. */
  ghost predicate SealedOn(node: Setup, tip: Header, now: int64, h: Header)
    requires node.Valid()
  {
    && IsTemplate(node.crypto, node.spec, node.bits, tip, now, h)
    && (node.maxNonces == 0 || h.nonce < node.maxNonces)
    && h == Template(node.crypto, node.spec, node.bits, tip, now).(nonce := h.nonce)
    && PowOk(node.crypto, node.spec, h)
  }

  lemma NonceIsInRange(node: Setup, tip: Header, now: int64, n: uint64)
    requires node.Valid() && node.Job(tip, now).InRange(n)
    ensures node.maxNonces == 0 || n < node.maxNonces
  {
    hide HashOf;
    hide TableOf;
    hide Template;
  }

  /** A mined block is the template with a nonce that makes its proof of work valid. */
  lemma MinedBlockIsSealed(node: Setup, caches: Caches, offer: Option<nat>, tip: Header, now: int64,
                           schedule: seq<Miner.Actor>, block: Block)
    requires node.Valid() && Miner.Schedulable(node.Job(tip, now), Miner.Initial(node.Job(tip, now)), schedule)
    requires MineNextBlock(node, caches, offer, tip, now, schedule) == Some(block)
    ensures SealedOn(node, tip, now, block.header) && block.transactions == []
  {
    hide IsTemplate;
    hide PowOk;
    hide EpochSeedForHeight;
    hide HeaderHash;
    hide Spec.DagSizeForHeight;
    hide SealJob;
    hide Miner.RunSchedule;
    hide Miner.Schedulable;
    hide Caches.CanSeal;
    hide HexEncode;
    hide FormatNat;
    var template := Template(node.crypto, node.spec, node.bits, tip, now);
    SealingIsSound(node.crypto, node.spec, template, node.workers, node.maxNonces, schedule);
    Miner.MineIsCorrect(node.Job(tip, now), schedule);
    NonceIsInRange(node, tip, now, block.header.nonce);
    TemplateMeans(node.crypto, node.spec, node.bits, tip, now, block.header.nonce);
  }

  /** A block sealed on the tip is accepted later on and, if the tip has not moved, becomes the tip. */
  lemma SealedBlockBecomesTip(node: Setup, s: Chain, now: int64, later: int64, block: Block)
    requires node.Valid() && WellFormed(node.Rules().hash, s) && TipBest(s) && s.tip in s.blocks
    requires Minable(node.spec, node.bits, s.blocks[s.tip].header, now, later)
    requires SealedOn(node, s.blocks[s.tip].header, now, block.header) && node.Rules().HashOf(block) != ZERO_HASH
    requires forall k :: k in s.blocks && k == node.Rules().HashOf(block) ==> s.blocks[k].header == block.header
    ensures node.Rules().HashOf(block) !in s.blocks
    ensures var (t, r) := Insert(node.Rules(), s, block, later);
      t.tip == node.Rules().HashOf(block) && r == Ok((s.work[s.tip] + CalcBlockWork(node.bits), true))
  {
    hide PowOk;
    hide IsTemplate;
    hide Template;
    hide Insert;
    hide ValidateHeader;
    hide WellFormed;
    hide TipBest;
    hide CalcBlockWork;
    TipHasItsHash(node, s);
    TemplateExtendsTip(node, s, now);
    var tip := s.blocks[s.tip].header;
    SealedTemplateIsAccepted(node.crypto, node.spec, node.bits, tip, now, block.header.nonce, s, later);
    ChildOfTipBecomesTip(node.Rules(), s, block, later);
  }

  /**
   * Mining end to end: under every schedule, a block mined on the current tip is accepted later on, and if the tip
   * has not moved it becomes the tip, with the tip's work plus its own.
   */
  lemma MinedBlockBecomesTip(node: Setup, caches: Caches, offer: Option<nat>, s: Chain, now: int64, later: int64,
                             schedule: seq<Miner.Actor>, block: Block)
    requires node.Valid() && WellFormed(node.Rules().hash, s) && TipBest(s) && s.tip in s.blocks
    requires Minable(node.spec, node.bits, s.blocks[s.tip].header, now, later)
    requires var job := node.Job(s.blocks[s.tip].header, now); Miner.Schedulable(job, Miner.Initial(job), schedule)
    requires MineNextBlock(node, caches, offer, s.blocks[s.tip].header, now, schedule) == Some(block)
    requires node.Rules().HashOf(block) != ZERO_HASH
    requires forall k :: k in s.blocks && k == node.Rules().HashOf(block) ==> s.blocks[k].header == block.header
    ensures node.Rules().HashOf(block) !in s.blocks
    ensures var (t, r) := Insert(node.Rules(), s, block, later);
      t.tip == node.Rules().HashOf(block) && r == Ok((s.work[s.tip] + CalcBlockWork(node.bits), true))
  {
    hide *;
    MinedBlockIsSealed(node, caches, offer, s.blocks[s.tip].header, now, schedule, block);
    SealedBlockBecomesTip(node, s, now, later, block);
  }

  lemma TipHasItsHash(node: Setup, s: Chain)
    requires node.Valid() && WellFormed(node.Rules().hash, s) && s.tip in s.blocks
    ensures HeaderHash(node.crypto, s.blocks[s.tip].header) == s.tip && s.work.Keys == s.blocks.Keys
  {
    hide HeaderHash;
    assert LinkedAt(node.Rules().hash, s.blocks, s.work, s.tip);
  }

  lemma TemplateExtendsTip(node: Setup, s: Chain, now: int64)
    requires node.Valid() && s.tip in s.blocks && HeaderHash(node.crypto, s.blocks[s.tip].header) == s.tip
    requires s.blocks[s.tip].header.height < TWO_TO_THE_64 - 1
    ensures var h := Template(node.crypto, node.spec, node.bits, s.blocks[s.tip].header, now);
      h.height > 0 && h.parentHash == s.tip && h.target == node.bits
  {
    hide HeaderHash;
    hide EpochSeedForHeight;
  }
}
