/** The algorithm parameters and the saturating growth of the DAG (colossusx/spec.go). */
module DagSpec {
  import opened Bytes

  const STRICT_NODE_SIZE: uint64 := 64
  const STRICT_READS_PER_HASH: uint64 := 512
  const STRICT_EPOCH_BLOCKS: uint64 := 8000
  const DEFAULT_GROWTH: uint64 := 512 * 1024 * 1024
  const MAX_UINT64: uint64 := 0xFFFF_FFFF_FFFF_FFFF

  datatype Mode = Unset | Strict | Research | OtherMode(name: string)

  datatype MemoryModel = AnyMemory | UnifiedShared | OtherMemory(name: string)

  datatype Spec = Spec(
    mode: Mode,
    dagSizeBytes: uint64,
    initialDagSizeBytes: uint64,
    dagGrowthBytesPerEpoch: uint64,
    nodeSize: uint64,
    readsPerHash: uint64,
    epochBlocks: uint64,
    tileSizeBytes: uint64,
    matDim: uint32,
    computeRounds: uint32,
    memoryModelRequired: MemoryModel,
    deviceExecutionOnly: bool,
    roundCommitInterval: uint32,
    algorithmVersion: uint32)
  {
    function InitialDagSize(): uint64 {
      if initialDagSizeBytes != 0 then initialDagSizeBytes else dagSizeBytes
    }

    function Growth(): uint64 {
      if dagGrowthBytesPerEpoch != 0 then dagGrowthBytesPerEpoch else DEFAULT_GROWTH
    }

    /** Validate accepts; an unset mode counts as strict. */
    predicate Valid() {
      && InitialDagSize() != 0
      && Growth() != 0
      && nodeSize == STRICT_NODE_SIZE
      && readsPerHash != 0
      && epochBlocks != 0
      && InitialDagSize() % nodeSize == 0
      && Growth() % nodeSize == 0
      && match mode
         case Strict => ValidStrict()
         case Unset => ValidStrict()
         case Research => true
         case OtherMode(_) => false
    }

    predicate ValidStrict() {
      && readsPerHash == STRICT_READS_PER_HASH
      && epochBlocks == STRICT_EPOCH_BLOCKS
      && algorithmVersion == 2
      && memoryModelRequired == UnifiedShared
      && deviceExecutionOnly
      && tileSizeBytes != 0 && matDim != 0 && computeRounds != 0 && roundCommitInterval != 0
    }

    /** The uint64 code: the division guard keeps `epoch * growth` from wrapping. */
    function DagSizeForEpoch(epoch: uint64): uint64
      requires nodeSize != 0
    {
      var initial := InitialDagSize();
      var growth := Growth();
      if initial == 0 then 0
      else if growth == 0 || epoch == 0 then initial
      else if epoch > (MAX_UINT64 - initial) / growth then MAX_UINT64 - MAX_UINT64 % nodeSize
      else Wrap64(initial + Wrap64(epoch * growth))
    }

    function DagSizeForHeight(height: uint64): uint64
      requires nodeSize != 0
    {
      if epochBlocks == 0 then DagSizeForEpoch(0)
      else
        QuotientFits(height, epochBlocks);
        DagSizeForEpoch(height / epochBlocks)
    }

    function ResolvedForHeight(height: uint64): Spec
      requires nodeSize != 0
    {
      this.(dagSizeBytes := DagSizeForHeight(height))
    }

    function NodeCount(): uint64 {
      if nodeSize == 0 then 0
      else
        var size := if dagSizeBytes == 0 then DagSizeForHeight(0) else dagSizeBytes;
        QuotientFits(size, nodeSize);
        size / nodeSize
    }
  }

  /** The size the growth rule promises, in exact arithmetic. */
  function GrownSize(s: Spec, epoch: nat): nat {
    var exact := s.InitialDagSize() + epoch * s.Growth();
    if exact <= TWO_TO_THE_64 - 64 then exact else TWO_TO_THE_64 - 64
  }

  /** For a valid spec the guarded uint64 code is exact growth capped at 2^64 - 64. */
  lemma SizeIsSaturatingGrowth(s: Spec, epoch: uint64)
    requires s.Valid()
    ensures s.DagSizeForEpoch(epoch) == GrownSize(s, epoch)
    ensures s.DagSizeForEpoch(epoch) % 64 == 0 && s.DagSizeForEpoch(epoch) > 0
  {
    hide Wrap64;
    var initial, growth := s.InitialDagSize(), s.Growth();
    var p := epoch * growth;
    GuardIsOverflow(MAX_UINT64 - initial, growth, epoch);
    MultipleOf64(initial, growth, epoch);
    if epoch == 0 {
      assert p == 0;
    } else if epoch > (MAX_UINT64 - initial) / growth {
      assert s.DagSizeForEpoch(epoch) == TWO_TO_THE_64 - 64;
    } else {
      assert initial + p < TWO_TO_THE_64;
      assert s.DagSizeForEpoch(epoch) == initial + p;
    }
  }

  lemma GuardIsOverflow(room: nat, growth: nat, epoch: nat)
    requires growth > 0
    ensures epoch > room / growth <==> epoch * growth > room
    ensures epoch * growth >= 0
  {
    ProductNonNegative(epoch, growth);
    QuotientIsLargest(room, growth, epoch);
  }

  lemma MultipleOf64(initial: nat, growth: nat, epoch: nat)
    requires initial % 64 == 0 && growth % 64 == 0
    ensures (initial + epoch * growth) % 64 == 0
    ensures initial + epoch * growth > TWO_TO_THE_64 - 64 <==> initial + epoch * growth >= TWO_TO_THE_64
  {
    assert growth == 64 * (growth / 64);
    assert epoch * growth == 64 * (epoch * (growth / 64)) by {
      assert epoch * (64 * (growth / 64)) == 64 * (epoch * (growth / 64));
    }
  }

  lemma EpochSizeIsMonotone(s: Spec, e1: uint64, e2: uint64)
    requires s.Valid() && e1 <= e2
    ensures s.DagSizeForEpoch(e1) <= s.DagSizeForEpoch(e2)
  {
    SizeIsSaturatingGrowth(s, e1);
    SizeIsSaturatingGrowth(s, e2);
    ProductMonotone(e1, e2, s.Growth());
  }

  /** The DAG never shrinks as the chain grows. */
  lemma SizeIsMonotone(s: Spec, lower: uint64, higher: uint64)
    requires s.Valid() && lower <= higher
    ensures s.DagSizeForHeight(lower) <= s.DagSizeForHeight(higher)
  {
    QuotientMonotone(lower, higher, s.epochBlocks);
    EpochSizeIsMonotone(s, lower / s.epochBlocks, higher / s.epochBlocks);
  }

  lemma QuotientMonotone(a: nat, b: nat, d: nat)
    requires a <= b && d > 0
    ensures a / d <= b / d
  {
    GuardIsOverflow(a, d, b / d + 1);
    GuardIsOverflow(b, d, b / d + 1);
  }

  /** Resolving a valid spec leaves it valid. */
  lemma ResolvedIsValid(s: Spec, height: uint64)
    requires s.Valid()
    ensures s.ResolvedForHeight(height).Valid()
  {
    hide Spec.DagSizeForEpoch;
    QuotientFits(height, s.epochBlocks);
    SizeIsSaturatingGrowth(s, height / s.epochBlocks);
  }

  /** A DAG has as many nodes as fit its size; resolved for a height, they make up the size exactly. */
  lemma NodesMakeTheSize(s: Spec, height: uint64)
    requires s.Valid()
    ensures var size := if s.dagSizeBytes == 0 then s.InitialDagSize() else s.dagSizeBytes;
      64 * s.NodeCount() <= size < 64 * s.NodeCount() + 64
    ensures 64 * s.ResolvedForHeight(height).NodeCount() == s.DagSizeForHeight(height)
  {
    hide Wrap64;
    QuotientFits(height, s.epochBlocks);
    SizeIsSaturatingGrowth(s, height / s.epochBlocks);
    assert s.DagSizeForHeight(0) == s.DagSizeForEpoch(0) == s.InitialDagSize();
  }

  /** Growth has reached the largest size by this epoch, in exact arithmetic. */
  predicate Saturated(s: Spec, epoch: nat) {
    s.InitialDagSize() + epoch * s.Growth() >= TWO_TO_THE_64 - 64
  }

  /** The spec gives the same size when it is asked again after being resolved for this height. */
  predicate ResolvesOnce(s: Spec, height: uint64)
    requires s.epochBlocks != 0
  {
    s.initialDagSizeBytes != 0 || height < s.epochBlocks || Saturated(s, height / s.epochBlocks)
  }

  /**
   * Asking a resolved spec for the size again gives the same answer exactly when the initial size is
   * stated separately, or no growth has happened yet, or the size has already saturated.  Otherwise the
   * resolved size is taken for the initial one and the growth is counted twice.
   */
  lemma ResolvingTwice(s: Spec, height: uint64)
    requires s.Valid()
    ensures s.ResolvedForHeight(height).DagSizeForHeight(height) == s.DagSizeForHeight(height)
      <==> ResolvesOnce(s, height)
  {
    hide Spec.DagSizeForEpoch;
    hide Saturated;
    var epoch := height / s.epochBlocks;
    GuardIsOverflow(height, s.epochBlocks, 1);
    ResolvedIsValid(s, height);
    GrowingTwice(s, s.ResolvedForHeight(height), epoch);
  }

  lemma GrowingTwice(s: Spec, resolved: Spec, epoch: uint64)
    requires s.Valid() && resolved.Valid() && resolved == s.(dagSizeBytes := s.DagSizeForEpoch(epoch))
    ensures resolved.DagSizeForEpoch(epoch) == s.DagSizeForEpoch(epoch)
      <==> s.initialDagSizeBytes != 0 || epoch == 0 || Saturated(s, epoch)
  {
    SizeIsSaturatingGrowth(s, epoch);
    SizeIsSaturatingGrowth(resolved, epoch);
    if epoch > 0 {
      ProductMonotone(1, epoch, s.Growth());
    }
  }

  // ----- The specs the program starts from

  function StrictSpec(): Spec {
    Spec(Strict, 8 * 1024 * 1024 * 1024, 8 * 1024 * 1024 * 1024, DEFAULT_GROWTH, STRICT_NODE_SIZE,
         STRICT_READS_PER_HASH, STRICT_EPOCH_BLOCKS, 4096, 16, 64, UnifiedShared, true, 8, 2)
  }

  function OrElse(n: uint64, default: uint64): uint64 { if n != 0 then n else default }

  /** A zero argument leaves the strict value. */
  function ResearchSpecWithGrowth(initial: uint64, growth: uint64, readCount: uint64, epochBlocks: uint64): Spec {
    var s := StrictSpec();
    Spec(Research, OrElse(initial, s.dagSizeBytes), OrElse(initial, s.initialDagSizeBytes),
         OrElse(growth, s.dagGrowthBytesPerEpoch), s.nodeSize, OrElse(readCount, s.readsPerHash),
         OrElse(epochBlocks, s.epochBlocks), 0, 0, 0, AnyMemory, false, 0, 1)
  }

  /** The strict DAG has 8 GiB, and 512 MiB more every 8000 blocks, up to 2^64 - 64; resolving it twice is harmless. */
  lemma StrictSizes(height: uint64)
    ensures StrictSpec().Valid() && ResolvesOnce(StrictSpec(), height)
    ensures var exact := 8589934592 + 536870912 * (height / 8000);
      StrictSpec().DagSizeForHeight(height) == if exact <= TWO_TO_THE_64 - 64 then exact else TWO_TO_THE_64 - 64
  {
    QuotientFits(height, 8000);
    SizeIsSaturatingGrowth(StrictSpec(), height / 8000);
  }

  /** A research spec is valid exactly when both of its sizes are whole numbers of nodes; none of them double-counts. */
  lemma ResearchSpecs(initial: uint64, growth: uint64, readCount: uint64, epochBlocks: uint64, height: uint64)
    ensures var s := ResearchSpecWithGrowth(initial, growth, readCount, epochBlocks);
      && (s.Valid() <==> initial % 64 == 0 && growth % 64 == 0)
      && ResolvesOnce(s, height)
  {
  }

  /** A concrete valid spec whose resolved form reports a different size for the same height. */
  lemma ResolvingTwiceCanDoubleCount()
    ensures exists s: Spec, h: uint64 ::
      s.Valid() && s.ResolvedForHeight(h).DagSizeForHeight(h) != s.DagSizeForHeight(h)
  {
    var s := Spec(Research, 128, 0, 64, 64, 1, 1, 0, 0, 0, AnyMemory, false, 0, 1);
    assert s.DagSizeForHeight(1) == 192;
    assert s.ResolvedForHeight(1).DagSizeForHeight(1) == 256;
  }
}
